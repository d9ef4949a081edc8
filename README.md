# Storage core of dropbox-2.0, modelled in Dafny

The model covers the storage core of the file-storage backend. This is the Go code in
`handlers/file.go` and `handlers/share.go`, over the three tables of `db/setup.go`:

- **Chunked upload.** A session is opened (`ChunkedUploadInit`), receives numbered chunks
  (`ChunkedUploadChunk`), and is assembled into one file (`ChunkedUploadComplete`). Chunks
  are concatenated in order, hashed with SHA-256, and recorded as a file row.
- **Content store.** `saveFileWithDeduplication` reuses an existing location when the
  caller already owns a file with the same hash. `ParallelUpload` saves several parts,
  each into its own result slot. `ListFiles` lists a folder. `DeleteFile` removes a row,
  its cascaded rows and, by reference count, its bytes. `CreateFolder` inserts a folder
  row.
- **Range streamer.** `StreamDownload` sets the status, Content-Length and Content-Range
  from a `bytes=start-end` header. It also picks the byte where the body starts: `start`,
  or byte 0 when `start` is negative, because that seek fails and its error is ignored.
- **Share links.** A share is created with a 64-hex-digit token, an optional expiry and
  an optional bcrypt-hashed password.
  - Public calls: `GetSharedFile` resolves a token by the checks not found, expired,
    password missing and password wrong, in that order. `GetShareInfo` answers metadata.
  - Owner calls: `ListUserShares`, `DeleteShareLink` and `UpdateShareLink`.

## How the model is laid out

- **State.** `Storage.Store` is a class.
  - Its map fields are the `files`, `chunk_uploads` and `share_links` tables, the bytes
    under `storage/users/…`, and the chunk files under `storage/chunks/<id>/`.
  - The handlers that write are methods with `modifies this` and a contract over the old
    and new state. Several of them hand one table-changing statement to a small
    method of its own: `InsertFile`, `DeleteRow`, `CloseSession`, `InsertShare`,
    `UpdateShare` and `RemoveShare`.
  - The read-only handlers change nothing and state their answer over the current state.
    These are `StreamDownload`, `ListFiles`, `GetSharedFile`, `GetShareInfo` and
    `ListUserShares`.
  - Saving parts is also described on plain values. `Save` is one call of
    `saveFileWithDeduplication`, and `SaveAll` saves the parts one after another. The
    upload methods are proved to produce exactly their results.
  - `Valid()` is the invariant every handler keeps: `CatalogInv` plus `SessionInv`. It
    covers primary keys, the parent and share-target foreign keys, unique tokens,
    folders without a location, an exact `is_shared` flag, and chunk files that agree
    with `uploaded_chunks`.
- **Rules.** The handlers' decisions are pure functions in their own modules:
  - `Ranges`: header arithmetic;
  - `Sessions`: the session machine and assembly;
  - `Catalog`: reference count, `ON DELETE CASCADE` and dedup records;
  - `Sharing`: tokens, expiry, password and resolution checks;
  - `Hex`: token encoding;
  - `Paths`: `filepath.Ext` and storage paths;
  - `Ordering`: the `ORDER BY` listings, as a sort of a row set by a total preorder.
- **Inputs.** The store is built with two functions:
  - `digest`: SHA-256 as lowercase hex;
  - `pwMatches`: bcrypt's compare.

  Everything else outside the core is an input:
  - the uuids the handlers draw;
  - the 32 random token bytes;
  - the result of `bcrypt.GenerateFromPassword`, where `None` means it failed;
  - the clock `now`;
  - the environment variables `BASE_URL` and `PORT`.
- **Database errors.** A database statement fails in the model exactly where PostgreSQL
  would reject it: a taken primary key, a taken token, a missing parent, or a value
  outside an `INTEGER` column.
- **NULL columns.** A NULL column scanned into a Go `string` makes pgx return an error.
  So the model answers 404 in these cases:
  - `DeleteFile` and `StreamDownload` on a folder;
  - `GetSharedFile` on a folder share (see Findings).

The model keeps these behaviours of the code as they are:

- The chunk handler does not range-check chunk numbers against `total_chunks`.
- `ChunkedUploadComplete` does not look at the session's status or expiry.
- A range is never checked against the file: unsatisfiable ranges are answered 206.
- A share is expired only when its expiry is strictly before `now` (`Before`).
- The reference count in `DeleteFile` is taken over every owner's rows, while a save
  reuses a location only from the caller's own rows.

## Model

| member | source | states |
|---|---|---|
| Storage.Store.constructor | db/setup.go:26-83 | An empty store satisfies the schema invariant `Valid()`. |
| Storage.Store.ChunkedUploadInit | handlers/file.go:89-125 | 200 exactly when the session id is fresh and `totalChunks` fits INTEGER. The new row is pending, has no chunks, and expires 24 h after `now`. The reply carries the 5 MiB chunk size. Otherwise 500 with nothing changed. |
| Storage.Store.ChunkedUploadChunk | handlers/file.go:128-184 | 400 when the number or the file part is missing. 404 exactly when no pending, unexpired session of the caller exists; state is unchanged on 400 and 404. Otherwise the chunk file is stored. Then 200 with the number appended and the status set to uploading, or 500 with the session unchanged when the number does not fit INTEGER. |
| Storage.Store.ChunkedUploadComplete | handlers/file.go:187-263 | 404 exactly when the session is missing or not the caller's. Otherwise the final location holds the chunks before the first missing one, in order. 200 exactly when all chunks are present and the file id is fresh. On 200: the new file row with the SHA-256 of the assembled bytes, the session's chunks removed, the session completed, and the reply. |
| Storage.Store.StreamDownload | handlers/file.go:266-317 | 404 exactly when the caller has no such row with a location. 500 when the bytes are missing. Otherwise the download of that location under its original name, with `Respond`'s headers. Status 206 exactly for a range request. |
| Storage.Store.SaveFileWithDeduplication | handlers/file.go:371-438 | The new catalog, stored bytes and answer are exactly `Save`'s. The invariant is kept, and sessions, shares and chunks do not change. |
| Storage.Store.UploadWorker | handlers/file.go:347-358 | The catalog and bytes are `Save`'s, and the slot is `SlotOf` its answer: the saved id, or the error with no id. |
| Storage.Store.ParallelUpload | handlers/file.go:320-368 | 400 exactly for an empty part list, with nothing changed. Otherwise 200, and catalog, bytes and slots are exactly `SaveAll`'s. Every slot reports truthfully on its part. The catalog keeps every old row and gains exactly the saved ids. A readable part under an id that is free and not drawn for an earlier part is saved. |
| Storage.Store.InsertFile | handlers/file.go:239-243 | `INSERT INTO files` of a fresh, unshared row whose parent exists adds exactly that row and keeps the invariant. |
| Storage.Store.CloseSession | handlers/file.go:249-253 | Removing the session's chunk files and marking it completed changes only those and keeps the invariant. |
| Storage.Store.DeleteRow | handlers/file.go:503-505 | Deleting a row removes exactly its `ON DELETE CASCADE` rows and their shares, changes nothing else, and keeps the invariant. |
| Storage.Store.InsertShare | handlers/share.go:70-81 | Inserting a share with a fresh id and token and flagging its file shared changes only those and keeps the invariant. |
| Storage.Store.UpdateShare | handlers/share.go:364-387 | Updating one share row with the same id, file and token changes only that row and keeps the invariant. |
| Storage.Store.RemoveShare | handlers/share.go:307-325 | Deleting one share row removes exactly that row, clears its file's flag exactly when no share of the file is left, changes nothing else, and keeps the invariant. |
| Storage.Save | handlers/file.go:371-438 | An unreadable part changes nothing. A readable one is saved exactly when its id is free, as the caller's new unshared root row with the part's name, stored name `<id><ext>`, declared size, the hash of its bytes and `now` as both timestamps. Existing rows never change. When the caller owns a copy with that hash, the row takes that copy's location and no bytes are written. Otherwise the bytes go to `storage/users/<owner>/<id><ext>`, and are removed again when the insert fails. |
| Storage.SaveKeepsCatalogInv | handlers/file.go:401-430 | A save keeps the catalog invariant. |
| Storage.SlotOf | handlers/file.go:352-357 | A slot carries the part's name, and either the saved id with no error or the error with no id. |
| Storage.SaveReports | handlers/file.go:352-357 | One save fills its slot truthfully and keeps every existing row. |
| Storage.SaveAddsSlotId | handlers/file.go:401-435 | One save adds exactly the id its slot reports. |
| Storage.SaveAll | handlers/file.go:341-361 | One slot per part, part `j` saved under the id drawn for it. |
| Storage.SaveAllGrows | handlers/file.go:341-361 | A batch keeps every old row and adds exactly the ids its slots report. |
| Storage.SaveAllReports | handlers/file.go:341-361 | Every slot of a batch reports truthfully on its part. |
| Storage.SaveStepReports | handlers/file.go:352-357 | Saving the last part keeps the earlier slots truthful and fills the last slot truthfully. |
| Storage.SavedIdsDrawn | handlers/file.go:352-357 | Every id a slot reports as saved is an id drawn for a part. |
| Storage.SaveAllSucceeds | handlers/file.go:352-357 | A readable part whose id is free and not drawn for an earlier part is saved. |
| Storage.SaveStepSucceeds | handlers/file.go:426-437 | After a batch, a readable part under an id free before the batch and not drawn in it is saved. |
| Storage.SaveAllLeavesOtherBytes | handlers/file.go:414-434 | A batch touches no stored bytes except the own locations of its readable parts. |
| Storage.UnreadablePartsChangeNothing | handlers/file.go:372-383 | A batch of unreadable parts changes neither catalog nor bytes, and each slot holds only the part's name and the read error. |
| Storage.Store.ListFiles | handlers/file.go:441-478 | Exactly the caller's rows directly in the folder (root when the parameter is empty), each once, newest first. |
| Storage.Store.DeleteFile | handlers/file.go:481-517 | 200 exactly for the caller's row with a location and a hash. Then the catalog loses the row and its cascaded descendants, their shares go too, and the bytes are removed exactly when at most one row carried the hash. Otherwise 404, unchanged. |
| Storage.Store.CreateFolder | handlers/file.go:520-548 | 201 exactly when the id is fresh and the parent exists. A folder row without a location is inserted. Otherwise 500, unchanged. |
| Storage.Store.CreateShareLink | handlers/share.go:19-101 | 404 unless the caller owns the file. 500 when hashing fails or the id or token is taken. On 201: the share row with the hex token, the hours-from-now expiry and the hash of a non-empty password; the file flagged shared; the URL `<base>/share/<token>`. |
| Storage.Store.GetSharedFile | handlers/share.go:104-168 | The status is `Check`'s over the joined row, in its order of checks. A granted folder gives exactly its children, folders first and then by name. A granted file gives its stream, or 500 when its bytes are missing. |
| Storage.Store.GetShareInfo | handlers/share.go:200-237 | The same lookup and expiry check without the password (404 and 410). On 200, the file's name, size, kind, expiry, password flag and creation time. |
| Storage.Store.ListUserShares | handlers/share.go:240-289 | Exactly the caller's shares whose file exists, each once, with password flag and URL, newest first. |
| Storage.Store.DeleteShareLink | handlers/share.go:292-329 | 200 exactly for the caller's share. The share is removed, and the file's flag is cleared exactly when it has no share left. Otherwise 404, unchanged. |
| Storage.Store.UpdateShareLink | handlers/share.go:332-396 | 404 unless the caller owns the share. The expiry is updated first. 500 exactly when a non-empty password cannot be hashed, with the expiry change kept. Otherwise 200 with the password absent (kept), empty (removed) or replaced by the hash. |
| Storage.InsertKeepsCatalogInv | db/setup.go:26-41 | A fresh, unshared row whose parent exists (or is itself) keeps the catalog invariant. |
| Storage.DeleteKeepsCatalogInv | db/setup.go:36 | Deleting a row with its `ON DELETE CASCADE` consequences keeps the catalog invariant. |
| Storage.AddShareKeepsCatalogInv | handlers/share.go:70-81 | Inserting a share with a fresh id and token and flagging its file keeps the invariant. |
| Storage.RemoveShareKeepsCatalogInv | handlers/share.go:308-326 | Removing a share and clearing the flag when none is left keeps the invariant. |
| Storage.EditShareKeepsCatalogInv | handlers/share.go:356-392 | Changing a share's expiry or password keeps the invariant. |
| Storage.CompleteKeepsSessionInv | handlers/file.go:249-253 | Completing a session and removing its chunk files keeps the session invariant. |
| Storage.ReflagKeepsShape | handlers/share.go:80-81 | Setting `is_shared` changes nothing about keys, parents or locations. |
| Storage.Reflag | handlers/share.go:80-81 | Only the flag of the one row changes. |
| Storage.SavedIdsAppend | handlers/file.go:341-358 | Saved ids of a longer slot list are the earlier ones plus the new slot's. |
| Storage.SlotsAgreeStep | handlers/file.go:341-358 | Filling one more slot keeps the earlier slots truthful when the save only adds rows. |
| Ranges.ClampedEnd | handlers/file.go:297-299 | An end of 0 (open-ended) or at or past the size becomes the last byte, size − 1. An end inside the file is kept, and so is a negative end when the size is not negative. |
| Ranges.Respond | handlers/file.go:291-309 | 206 exactly for a range request. No range gives the full size. A range gives first byte, clamped last byte and total; the length is last − first + 1 when it does not wrap. The body starts at `start`, or at byte 0 when `start` is negative. |
| Ranges.WellFormedRange | handlers/file.go:291-309 | A range starting inside the file and not after its clamped end gets a length between 1 and the bytes left. |
| Ranges.FirstHundredBytes | handlers/file.go:291-309 | `bytes=0-99` of 1000 bytes gives 206, length 100, `0-99/1000`. |
| Ranges.UnsatisfiableRangeServed | handlers/file.go:297-305 | As written: `bytes=500-100` is answered 206 with length −399, and `bytes=2000-` with a range starting past the file. |
| Ranges.SuffixRangeMislabelled | handlers/file.go:295-306 | As written: `bytes=-500` on 1000 bytes is answered 206 with `-500-999/1000` and Content-Length 1500, while the body is the whole file from byte 0. |
| Ranges.RespondChecked | handlers/file.go:291-309 | Intended: 416 exactly for a range starting before or past the file or after its clamped end. Otherwise the handler's answer. Every 206 lies inside the file, and its body starts at its first byte. |
| Sessions.NewSession | handlers/file.go:105-112 | The new row belongs to its owner, is pending, has no chunks, and expires 24 h after `now`. |
| Sessions.AcceptsChunk | handlers/file.go:148-151 | Only a pending session of the caller that has not expired takes chunks, so an uploading or completed one never does. |
| Sessions.Concat | handlers/file.go:222-234 | The assembled bytes: chunks 0..n−1 appended in index order, as `ConcatInOrder` and `ConcatLength` state. |
| Sessions.RecordChunk | handlers/file.go:170-173 | The number is added once to `uploaded_chunks`, the status becomes uploading, and nothing else changes. |
| Sessions.NewSessionGate | handlers/file.go:105-112 | A new session takes chunks exactly from its owner before 24 h have passed. |
| Sessions.FirstMissing | handlers/file.go:222-228 | The first chunk Complete cannot read. All chunks before it exist. It is the count exactly when all exist. |
| Sessions.ConcatInOrder | handlers/file.go:222-234 | In the assembled bytes, chunk i sits right after chunks 0..i−1. |
| Sessions.ConcatLength | handlers/file.go:222-234 | The assembled length is the sum of the chunk lengths. |
| Sessions.ConcatUnchanged | handlers/file.go:222-234 | Assembly reads only chunks below the count. |
| Sessions.DropSession | handlers/file.go:249-250 | Exactly the session's chunk files are removed. |
| Sessions.AssemblyReadyIff | handlers/file.go:170-173 | For a session not completed, all chunks Complete reads exist exactly when `uploaded_chunks` covers 0..n−1. |
| Sessions.RecordedChunkClosesGate | handlers/file.go:148-151 | As written: after one recorded chunk the gate refuses every caller at every time. |
| Sessions.AsWrittenUploadStopsAfterFirst | handlers/file.go:148-177 | As written: sending two or more chunks in order stores only the first, so assembly cannot find chunk 1. |
| Sessions.FirstChunkOnly | handlers/file.go:148-177 | As written: after any in-order send, only chunk 0 has been stored, and the session is uploading. |
| Sessions.AcceptsChunkIntended | handlers/file.go:148-151 | Intended gate: the caller owns the session, it is pending or uploading, and it has not expired. |
| Sessions.IntendedUploadAssembles | handlers/file.go:148-177 | Intended gate: every part is stored and the assembly equals the parts in order. |
| Catalog.RefCount | handlers/file.go:498-500 | The count is 0 exactly when no row of any owner has the hash. |
| Catalog.BlobsAfterDelete | handlers/file.go:510-513 | Only the deleted row's location can go. It goes exactly when the count was at most 1, and every other byte string stays unchanged. |
| Catalog.IsOwnCopy | handlers/file.go:389-391 | A row of the caller's with the given hash. |
| Catalog.OwnCopy | handlers/file.go:388-391 | Some own copy exactly when one exists, and then an own copy. |
| Catalog.InFolder | handlers/file.go:449-458 | Root (`parent_id IS NULL`) for the empty parameter, otherwise that parent. |
| Catalog.SoleHolder | handlers/file.go:498-500 | Provided rows sharing a location share its hash (`PathsAgree`): a hash counted at most once has one row, so no other row shares its location. |
| Catalog.Children | db/setup.go:36 | The rows whose parent is in the set exist. |
| Catalog.Cascade | db/setup.go:36 | The rows `ON DELETE CASCADE` removes contain the deleted ones and are rows. |
| Catalog.CascadeClosed | db/setup.go:36 | The cascade removes every child of a removed row. |
| Catalog.CascadeLeast | db/setup.go:36 | The cascade removes nothing beyond what being closed under children needs. |
| Catalog.AfterDelete | handlers/file.go:503-505 | Exactly the rows outside the cascade remain, unchanged. |
| Catalog.AfterDeleteParentsExist | handlers/file.go:503-505 | No remaining row has a missing parent after a delete. |
| Catalog.SharesAfterDelete | db/setup.go:77 | Exactly the shares of remaining rows remain, unchanged. |
| Catalog.DeleteKeepsSurvivorsBytes | handlers/file.go:498-513 | While rows sharing a location share a hash, a delete never removes bytes a surviving row refers to. |
| Catalog.UploadRecord | handlers/file.go:239-242 | The stored name is `<id><ext>`, the original name is kept, and the row is an unshared root file. |
| Catalog.FolderRecord | handlers/file.go:534-537 | A folder row has no location, no hash and size 0. |
| Catalog.DedupKeepsPathsAgree | handlers/file.go:388-411 | A row reusing a copy's location and hash keeps locations consistent with hashes. |
| Catalog.NewerFirst | handlers/file.go:449-458 | The `ORDER BY created_at DESC` of the folder listing: a row comes no later than an older one. |
| Catalog.NewerFirstIsPreorder | handlers/file.go:449-458 | `created_at DESC` is a total preorder. |
| Catalog.CrossOwnerDeleteLeaks | handlers/file.go:498-513 | As written: two owners with the same bytes. The first delete keeps bytes no row refers to. |
| Catalog.BlobsAfterDeleteIntended | handlers/file.go:508-513 | Intended removal: the deleted row's bytes go exactly when no surviving row refers to their location. |
| Catalog.IntendedDeleteExact | handlers/file.go:498-513 | Intended: the bytes stay exactly when a surviving row refers to their location, and nothing dangles. |
| Sharing.Token | handlers/share.go:45-49 | A token is 64 lowercase hex digits. |
| Sharing.TokenInjective | handlers/share.go:45-49 | Distinct random seeds give distinct tokens. |
| Sharing.CreateExpiry | handlers/share.go:52-56 | An expiry is set exactly for a positive hour count, and is that many hours after now. |
| Sharing.UpdatedExpiry | handlers/share.go:357-366 | Absent keeps the expiry. Present acts as on create. |
| Sharing.UpdatedPassword | handlers/share.go:374-387 | Absent keeps the hash, empty removes it, and anything else stores the new hash. |
| Sharing.WantsPassword | handlers/share.go:60-66 | A password is hashed and stored exactly when one is given and is not empty. |
| Sharing.UpdatedPasswordGoverns | handlers/share.go:374-387 | After an update sets a password, a live link is granted exactly to a password bcrypt accepts against the new hash. After "" it is granted to anyone. With no password given it answers as before. |
| Sharing.IsExpired | handlers/share.go:132 | Expired exactly when an expiry is set and is strictly before `now`. |
| Sharing.AccessStatus | handlers/share.go:127-148 | 200 exactly for a granted access. |
| Sharing.Check | handlers/share.go:127-148 | Each outcome (404, 410, 401 missing, 401 wrong, granted) holds exactly under its condition, checked in that order. |
| Sharing.ExpiredEvenWithPassword | handlers/share.go:132-134 | An expired share answers 410 even to the right password. |
| Sharing.InfoCheck | handlers/share.go:211-226 | Info only answers not found, expired or granted. |
| Sharing.InfoAgreesWithCheck | handlers/share.go:211-226 | For the same joined share, Info's 404 and 410 coincide with a resolution's under every password. `GetSharedFile` also answers 404 for folder shares, which Info serves (see Findings). |
| Sharing.SameTargets | db/setup.go:77-79 | Edits that keep file and token keep the shares per file and the unique tokens. |
| Sharing.ShareWithToken | db/setup.go:79 | The share found carries the token, or none does. |
| Sharing.JoinedShare | handlers/share.go:211-221 | The share joined to its existing file for a token, or none when no share with it has a file. |
| Sharing.JoinedRow | handlers/share.go:110-129 | The joined share, or none when its file has no location (the NULL scan fails). |
| Sharing.FolderShareNotFound | handlers/share.go:118-129 | As written: every folder share answers 404, whatever its expiry and password. |
| Sharing.FolderShareResolvesIntended | handlers/share.go:151-153 | Intended: a folder share is found and checked like any other. An open, unexpired one is granted. |
| Sharing.BaseUrl | handlers/share.go:84-87 | `BASE_URL`, or `http://localhost:<PORT>` when it is empty. |
| Sharing.ShareUrl | handlers/share.go:88 | The URL is the base, then `/share/`, then the token. |
| Sharing.ShareUrlEndsWithToken | handlers/share.go:84-88 | The URL ends with the token, so one base never maps two tokens to one URL. |
| Sharing.FoldersThenName | handlers/share.go:171-175 | The `ORDER BY is_folder DESC, original_name` of a shared folder: folders first, then names ascending. |
| Sharing.FoldersThenNameIsPreorder | handlers/share.go:171-175 | `is_folder DESC, original_name ASC` is a total preorder. |
| Sharing.InfoOf | handlers/share.go:276-285 | A listed share reports a password exactly when it has one, and carries its URL. |
| Sharing.NewestFirst | handlers/share.go:244-251 | The `ORDER BY sl.created_at DESC` of the share list: newer shares first. |
| Sharing.NewestFirstIsPreorder | handlers/share.go:244-251 | `created_at DESC` on shares is a total preorder. |
| Ordering.SortRows | handlers/file.go:449-476 | The output holds exactly the rows, each once, sorted by the given total preorder. |
| Ordering.FirstExists | handlers/file.go:449-476 | A nonempty set has a first element under a total preorder. |
| Ordering.LexLe | handlers/share.go:174 | Names compared character by character by code point, a prefix first. |
| Ordering.LexLeIsOrder | handlers/share.go:174 | Name order is total, transitive and antisymmetric. |
| Ordering.Least | handlers/file.go:388-391 | A nonempty set of names has a least element, which is in the set. |
| Ordering.LexLeTotal | handlers/share.go:174 | Name order is total. |
| Ordering.LexLeTransitive | handlers/share.go:174 | Name order is transitive. |
| Ordering.LexLeAntisymmetric | handlers/share.go:174 | Name order is antisymmetric. |
| Hex.Encode | handlers/share.go:49 | Two lowercase hex digits per byte. |
| Hex.Digit | handlers/share.go:49 | A digit value below 16 maps to a lowercase hex digit. |
| Hex.DigitValue | handlers/share.go:49 | Reading a hex digit back gives its value. |
| Hex.DecodeEncode | handlers/share.go:49 | Decoding the hex encoding gives the bytes back. |
| Hex.EncodeInjective | handlers/share.go:49 | Distinct byte strings encode to distinct hex strings. |
| Paths.Ext | handlers/file.go:214 | The extension is empty or starts at the last dot of the final element. |
| Paths.ExtFindsDot | handlers/file.go:214 | With a dot after the last separator, the extension is the suffix from the last dot. |
| Paths.ExtNoDot | handlers/file.go:214 | Without such a dot the extension is empty. |
| Paths.UserFilePath | handlers/file.go:415-420 | `storage/users/<owner>/<id><ext>`. |
| Paths.UserFilePathInjective | handlers/file.go:210-214 | For one owner and one extension, distinct ids get distinct locations. |
| Paths.LocationSplits | handlers/file.go:420 | A location built from an id without a '.' and an extension that is empty or starts with '.' determines both the id and the extension. |
| Paths.UserFilePathDistinct | handlers/file.go:414-420 | For one owner, ids without a '.' (the drawn uuids) get distinct locations whatever the uploaded names' extensions, and equal locations mean equal ids and extensions. |
| Prelude.Wrap64 | handlers/file.go:297-306 | Reduction into int64 is the identity on int64 and keeps the value modulo 2^64. |

## Left out

- Concurrency: goroutines, the semaphore of `ParallelUpload`, and the order in which
  workers finish. Parts are saved one after another, each into its own slot.
- Request parsing: JSON or form bodies the handlers cannot parse (the 400 replies before
  any state is read). Handlers take already parsed values. `fmt.Sscanf` of the `Range`
  header is modelled by `RangeHeader` carrying the numbers it leaves behind.
- Authentication and `c.Locals("userID")`: the owner is an input. `user.go`, the
  middleware, `UploadFile` and `DownloadFile` are not part of this model.
- File-system and database failures other than constraint violations: `MkdirAll`,
  `Create`, `Write`, `Open`, `SaveFile` and connection errors. Statements whose error the
  code ignores (the final status update, the `is_shared` updates) always succeed.
- The bytes of a streamed response: the model gives the location, the byte where the body
  starts and the headers, not the body itself.
- SHA-256 and bcrypt internals: they are parameters of the store. Hash collisions are not
  considered.
- `filepath.Join` and `filepath.Clean`: locations are the plain strings
  `storage/users/<owner>/<id><ext>`.
- `Ordering.LexLe` orders names by code point. PostgreSQL's collation is not modelled.
- Sharing.CreateExpiry: uses unbounded hours. The int64 overflow of
  `time.Hour * time.Duration(n)` for huge `n` is not modelled, neither on create
  (handlers/share.go:54) nor in `UpdateShareLink` (handlers/share.go:360), which uses it
  through `Sharing.UpdatedExpiry`.
- The 500 of `CreateShareLink` when `crypto/rand.Read` fails (handlers/share.go:45-48): the
  32 token bytes are an input, so reading them always succeeds.
- Catalog.OwnCopy: takes the least matching id in name order. The query's `LIMIT 1` leaves
  the row unspecified, so any own copy may be the one PostgreSQL returns.
- Two uuids in `saveFileWithDeduplication`: the code draws the new id in one branch or the
  other (handlers/file.go:395, 414); the model takes one id per part as an input.
- Rows skipped by `continue` on a scan error in the listings: with the invariant, every
  row scans, except rows whose NULL columns the model reports as not found.
- Catalog.SoleHolder: assumes `PathsAgree` (rows sharing a location share a hash), for the
  same reason as the next line; without it a count of 1 says nothing about other rows'
  locations.
- Catalog.DeleteKeepsSurvivorsBytes: assumes `PathsAgree` (rows sharing a location share a
  hash). This follows from fresh uuids across the store's history, which the model does
  not track.
- The `users` table and the `user_id` foreign keys, which are owned by the
  authentication code.
- `file_versions`: no handler of the core uses it.

## Findings

| source | as written | input that shows it | evidently intended | confidence | as-written member | corrected member |
|---|---|---|---|---|---|---|
| handlers/file.go:148-151, 170-173 | The chunk handler accepts only sessions in status `pending`, but recording a chunk sets status `uploading`. | A fresh session with 2 chunks. Chunk 0 is accepted, chunk 1 is answered 404, and Complete fails on chunk 1. | Accept chunks while the session is pending or uploading. | not executed | Sessions.AsWrittenUploadStopsAfterFirst | Sessions.IntendedUploadAssembles |
| handlers/file.go:297-305 | The range is never checked against the file or against itself. | `bytes=500-100` on 1000 bytes: 206 with Content-Length −399. `bytes=2000-`: 206 with `2000-999/1000`. | 416 Range Not Satisfiable. | not executed | Ranges.UnsatisfiableRangeServed | Ranges.RespondChecked |
| handlers/file.go:498-513 | The reference count is taken over every owner's rows, but deduplication shares locations only within one owner. | Owners u and v upload the same bytes. u deletes theirs: the count is 2, so u's bytes stay with no row referring to them. | Remove the bytes when no remaining row refers to the location. | not executed | Catalog.CrossOwnerDeleteLeaks | Catalog.IntendedDeleteExact |
| handlers/file.go:295-306 | Sscanf reads `bytes=-500` as start −500 and end 0. The end is clamped, the failed seek is ignored, and the headers are set from the negative start. | `bytes=-500` on 1000 bytes: 206 with `bytes -500-999/1000` and Content-Length 1500, while the body is all 1000 bytes from byte 0. | Serve the last 500 bytes, or answer 416. | not executed | Ranges.SuffixRangeMislabelled | Ranges.RespondChecked |
| handlers/share.go:118-129, 151-153 | The lookup scans `f.file_path` into a Go `string`; a folder's `file_path` is NULL, so the scan fails. | Any share of a folder: `GetSharedFile` answers 404, and the folder-listing branch is never reached. | Resolve folder shares and list their contents. | not executed | Sharing.FolderShareNotFound | Sharing.FolderShareResolvesIntended |
