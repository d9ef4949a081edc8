/** The rows of the three tables the storage core works on (`files`, `chunk_uploads`,
    `share_links`), with the columns the handlers read and write. A NULL column is `None`. */
module Models {
  import opened Prelude

  /** A row of `files`: a stored file or a folder. Deduplicated files share `filePath`. */
  datatype FileRecord = FileRecord(
    id: string,
    userId: string,
    fileName: string,
    originalName: string,
    filePath: Option<string>,
    fileSize: int64,
    checksum: Option<string>,
    parentId: Option<string>,
    isFolder: bool,
    isShared: bool,
    createdAt: Time,
    updatedAt: Time)

  /** The values the `status` column of `chunk_uploads` is documented to take. */
  datatype UploadStatus = Pending | Uploading | Completed | Failed

  /** A row of `chunk_uploads`: one chunked-upload session. */
  datatype ChunkUpload = ChunkUpload(
    id: string,
    userId: string,
    fileName: string,
    totalChunks: int,
    chunkSize: int,
    totalSize: int64,
    uploadedChunks: seq<int>,
    status: UploadStatus,
    createdAt: Time,
    expiresAt: Time)

  /** A row of `share_links`; `password` holds a bcrypt hash, never the password. */
  datatype ShareLink = ShareLink(
    id: string,
    fileId: string,
    userId: string,
    token: string,
    expiresAt: Option<Time>,
    password: Option<string>,
    createdAt: Time)

  /** The key of a stored chunk: the session id and the chunk number in `chunk_<n>`. */
  type ChunkKey = (string, int)
}
