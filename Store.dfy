/** The storage handlers of `handlers/file.go` and `handlers/share.go` over one state: the
    three tables, the bytes under `storage/users/...` and the chunk files under
    `storage/chunks/<uploadId>/`. Each handler is a method; the identifiers, the clock, the
    random token bytes and the result of bcrypt's hashing are its inputs, and SHA-256 and
    bcrypt's compare are the functions the store is built with. */
module Storage {
  import opened Prelude
  import opened Models
  import opened Paths
  import opened Ordering
  import opened Ranges
  import opened Sessions
  import opened Catalog
  import opened Sharing

  datatype InitReply = InitReply(uploadId: string, chunkSize: int, totalChunks: int, expiresAt: Time)

  datatype CompleteReply = CompleteReply(fileId: string, fileName: string, fileSize: int64, checksum: string)

  /** What `StreamDownload` sends: the file it opened, the download name and the headers. */
  datatype Download = Download(path: string, fileName: string, headers: Headers)

  /** One part of a multipart upload: its name, its declared size and its bytes (`None`
      when opening or reading the part fails). */
  datatype Upload = Upload(filename: string, size: int64, content: Option<seq<byte>>)

  datatype SaveError = Unreadable | InsertFailed

  datatype Saved = Saved(fileId: string) | NotSaved(error: SaveError)

  /** One slot of the `results` array of `ParallelUpload`. */
  datatype UploadResult = UploadResult(fileId: string, fileName: string, error: Option<SaveError>)

  datatype CreatedShare = CreatedShare(
    shareId: string,
    shareUrl: string,
    token: string,
    fileName: string,
    isFolder: bool,
    expiresAt: Option<Time>,
    passwordProtected: bool)

  datatype SharedContent =
    | FolderListing(folderId: string, items: seq<FileRecord>)
    | FileStream(path: string, fileName: string, contentLength: int64)

  datatype ShareDetails = ShareDetails(
    fileName: string,
    fileSize: int64,
    isFolder: bool,
    expiresAt: Option<Time>,
    passwordProtected: bool,
    createdAt: Time)

  // ---- The invariant, on the tables ----

  ghost predicate FilesKeyed(files: Files)
  {
    forall k :: k in files ==> files[k].id == k
  }

  ghost predicate SharesKeyed(shares: map<string, ShareLink>)
  {
    forall k :: k in shares ==> shares[k].id == k
  }

  /** `share_links.file_id REFERENCES files(id)`. */
  ghost predicate TargetsExist(files: Files, shares: map<string, ShareLink>)
  {
    forall s :: s in shares ==> shares[s].fileId in files
  }

  /** The shape of the catalog alone: rows under their ids, parents exist, folders have no
      location. */
  ghost predicate FilesShaped(files: Files)
  {
    FilesKeyed(files) && ParentsExist(files) && FoldersHaveNoPath(files)
  }

  /** Rows are stored under their ids, parents and share targets exist, folders have no
      location, tokens are unique, and `is_shared` is exact. */
  ghost predicate CatalogInv(files: Files, shares: map<string, ShareLink>)
  {
    && FilesShaped(files)
    && SharesKeyed(shares)
    && TargetsExist(files, shares)
    && TokensUnique(shares)
    && SharedFlagsExact(files, shares)
  }

  /** Sessions are stored under their ids with an INTEGER chunk count, and the chunk files
      agree with `uploaded_chunks`. */
  ghost predicate SessionInv(sessions: map<string, ChunkUpload>, chunks: map<ChunkKey, seq<byte>>)
  {
    && (forall k :: k in sessions ==> sessions[k].id == k)
    && (forall k :: k in sessions ==> InInt32(sessions[k].totalChunks))
    && ChunksRecorded(sessions, chunks)
    && ReceivedStored(sessions, chunks)
  }

  /** `files[k].isShared` set to `b`. */
  function Reflag(files: Files, k: string, b: bool): (r: Files)
    requires k in files
    ensures r.Keys == files.Keys && r[k].isShared == b
    ensures r[k] == files[k].(isShared := b)
    ensures forall j :: j in files && j != k ==> r[j] == files[j]
  {
    files[k := files[k].(isShared := b)]
  }

  /** Changing a flag changes nothing else about the catalog's shape. */
  lemma ReflagKeepsShape(files: Files, k: string, b: bool)
    requires k in files && FilesShaped(files)
    ensures FilesShaped(Reflag(files, k, b))
  {
    var r := Reflag(files, k, b);
    assert FilesKeyed(r);
    assert ParentsExist(r);
    assert FoldersHaveNoPath(r);
  }

  /** Inserting an unshared row under a fresh id whose parent exists keeps the catalog
      invariant. */
  lemma InsertKeepsCatalogInv(files: Files, shares: map<string, ShareLink>, r: FileRecord)
    requires CatalogInv(files, shares)
    requires r.id !in files && !r.isShared
    requires r.parentId.Some? ==> r.parentId.value in files || r.parentId.value == r.id
    requires r.isFolder ==> r.filePath.None?
    ensures CatalogInv(files[r.id := r], shares)
  {
    var f := files[r.id := r];
    assert FilesShaped(f) by {
      assert FilesKeyed(f);
      assert ParentsExist(f);
      assert FoldersHaveNoPath(f);
    }
    assert SharedFlagsExact(f, shares) by {
      assert SharesOf(shares, r.id) == {};
      forall k | k in f
        ensures f[k].isShared <==> SharesOf(shares, k) != {}
      {
        if k != r.id { assert f[k] == files[k]; }
      }
    }
  }

  /** A delete with its cascades keeps the catalog invariant. */
  lemma DeleteKeepsCatalogInv(files: Files, shares: map<string, ShareLink>, id: string)
    requires CatalogInv(files, shares) && id in files
    ensures CatalogInv(AfterDelete(files, id), SharesAfterDelete(shares, files, id))
  {
    var f, sh := AfterDelete(files, id), SharesAfterDelete(shares, files, id);
    var doomed := Cascade(files, {id});
    AfterDeleteParentsExist(files, id);
    assert FilesShaped(f) by {
      assert FilesKeyed(f);
      assert FoldersHaveNoPath(f);
    }
    assert TargetsExist(f, sh) by {
      forall s | s in sh
        ensures sh[s].fileId in f
      {
        assert shares[s].fileId in files && shares[s].fileId !in doomed;
      }
    }
    assert SharedFlagsExact(f, sh) by {
      forall k | k in f
        ensures SharesOf(sh, k) == SharesOf(shares, k)
      {
        assert k !in doomed;
      }
    }
  }

  /** Adding a share of an existing row under fresh id and token, and flagging the row,
      keeps the catalog invariant. */
  lemma AddShareKeepsCatalogInv(files: Files, shares: map<string, ShareLink>, l: ShareLink)
    requires CatalogInv(files, shares)
    requires l.fileId in files && l.id !in shares
    requires forall s :: s in shares ==> shares[s].token != l.token
    ensures CatalogInv(Reflag(files, l.fileId, true), shares[l.id := l])
  {
    var f, sh := Reflag(files, l.fileId, true), shares[l.id := l];
    ReflagKeepsShape(files, l.fileId, true);
    assert TokensUnique(sh);
    assert TargetsExist(f, sh);
    assert SharedFlagsExact(f, sh) by {
      assert l.id in SharesOf(sh, l.fileId);
      forall k | k in f && k != l.fileId
        ensures SharesOf(sh, k) == SharesOf(shares, k)
      {
      }
    }
  }

  /** Removing a share, and clearing the flag of its row when no share of the row is left,
      keeps the catalog invariant. */
  lemma RemoveShareKeepsCatalogInv(files: Files, shares: map<string, ShareLink>, id: string)
    requires CatalogInv(files, shares) && id in shares
    ensures var fid, sh := shares[id].fileId, shares - {id};
      CatalogInv(if SharesOf(sh, fid) == {} then Reflag(files, fid, false) else files, sh)
  {
    var fid, sh := shares[id].fileId, shares - {id};
    assert TokensUnique(sh);
    assert TargetsExist(files, sh);
    assert files[fid].isShared by {
      assert id in SharesOf(shares, fid);
    }
    forall k | k in files && k != fid
      ensures SharesOf(sh, k) == SharesOf(shares, k)
    {
    }
    if SharesOf(sh, fid) == {} {
      var f := Reflag(files, fid, false);
      ReflagKeepsShape(files, fid, false);
      assert SharedFlagsExact(f, sh) by {
        forall k | k in f
          ensures f[k].isShared <==> SharesOf(sh, k) != {}
        {
        }
      }
    } else {
      assert SharedFlagsExact(files, sh) by {
        forall k | k in files
          ensures files[k].isShared <==> SharesOf(sh, k) != {}
        {
        }
      }
    }
  }

  /** Changing a share's expiry or password keeps the catalog invariant. */
  lemma EditShareKeepsCatalogInv(files: Files, shares: map<string, ShareLink>, id: string, l: ShareLink)
    requires CatalogInv(files, shares) && id in shares
    requires l.id == id && l.fileId == shares[id].fileId && l.token == shares[id].token
    ensures CatalogInv(files, shares[id := l])
  {
    SameTargets(shares[id := l], shares);
  }

  /** Completing a session, which drops its chunks, keeps the session invariant. */
  lemma CompleteKeepsSessionInv(sessions: map<string, ChunkUpload>, chunks: map<ChunkKey, seq<byte>>, id: string)
    requires SessionInv(sessions, chunks) && id in sessions
    ensures SessionInv(sessions[id := sessions[id].(status := Completed)], DropSession(chunks, id))
  {
  }

  /** The ids of the slots that hold a new file. */
  function SavedIds(slots: seq<UploadResult>): (r: set<string>)
    ensures |slots| == 1 ==> r == if slots[0].error.None? then {slots[0].fileId} else {}
  {
    set j | 0 <= j < |slots| && slots[j].error.None? :: slots[j].fileId
  }

  lemma SavedIdsAppend(slots: seq<UploadResult>, x: UploadResult)
    ensures SavedIds(slots + [x]) == SavedIds(slots) + SavedIds([x])
  {
    var t := slots + [x];
    forall k | k in SavedIds(t)
      ensures k in SavedIds(slots) + SavedIds([x])
    {
      var j :| 0 <= j < |t| && t[j].error.None? && t[j].fileId == k;
      if j == |slots| {
        assert [x][0] == t[j];
      } else {
        assert slots[j] == t[j];
      }
    }
    forall k | k in SavedIds(slots) + SavedIds([x])
      ensures k in SavedIds(t)
    {
      if k in SavedIds(slots) {
        var j :| 0 <= j < |slots| && slots[j].error.None? && slots[j].fileId == k;
        assert t[j] == slots[j];
      } else {
        assert t[|slots|] == x;
      }
    }
  }

  /** Slot `slot` reports truthfully on saving `upload` under `id`: its name, the error
      of an unreadable part, no id on failure, and on success a new row of the caller's
      under `id` with the part's name. */
  ghost predicate SlotAgrees(slot: UploadResult, upload: Upload, id: string, owner: string, files: Files, before: Files)
  {
    && slot.fileName == upload.filename
    && (upload.content.None? ==> slot == UploadResult("", upload.filename, Some(Unreadable)))
    && (slot.error.Some? ==> slot.fileId == "")
    && (slot.error.None? ==>
          slot.fileId == id && id in files && id !in before
          && files[id].userId == owner && files[id].originalName == upload.filename)
  }

  ghost predicate SlotsAgree(slots: seq<UploadResult>, uploads: seq<Upload>, ids: seq<string>, owner: string,
                             files: Files, before: Files)
  {
    |slots| == |uploads| == |ids|
    && forall j :: 0 <= j < |slots| ==> SlotAgrees(slots[j], uploads[j], ids[j], owner, files, before)
  }

  /** Filling the last slot keeps the earlier slots truthful when the save only added rows. */
  lemma SlotsAgreeStep(slots: seq<UploadResult>, uploads: seq<Upload>, ids: seq<string>, owner: string,
                       files: Files, before: Files, x: UploadResult, after: Files)
    requires |uploads| == |ids| == |slots| + 1
    requires SlotsAgree(slots, uploads[..|slots|], ids[..|slots|], owner, files, before)
    requires before.Keys <= files.Keys
    requires SlotAgrees(x, uploads[|slots|], ids[|slots|], owner, after, files)
    requires forall k :: k in files ==> k in after && after[k] == files[k]
    ensures SlotsAgree(slots + [x], uploads, ids, owner, after, before)
  {
    var s2 := slots + [x];
    forall j | 0 <= j < |s2|
      ensures SlotAgrees(s2[j], uploads[j], ids[j], owner, after, before)
    {
      if j < |slots| {
        assert s2[j] == slots[j] && uploads[..|slots|][j] == uploads[j] && ids[..|slots|][j] == ids[j];
        assert SlotAgrees(slots[j], uploads[j], ids[j], owner, files, before);
      }
    }
  }

  // ---- Saving parts, on the tables ----

  /** The catalog, the stored bytes and the answer after saving one part. */
  datatype Outcome = Outcome(files: Files, blobs: Blobs, saved: Saved)

  /** `saveFileWithDeduplication` on the tables. An unreadable part changes nothing. When
      the caller owns a file with the same hash, the new row takes that file's location
      and no bytes are written; otherwise the bytes go to a location of their own, which is
      removed again when the INSERT fails. The INSERT fails exactly when the id is taken. */
  function Save(files: Files, blobs: Blobs, owner: string, u: Upload, id: string, now: Time,
                digest: seq<byte> -> string): (o: Outcome)
    ensures u.content.None? ==> o == Outcome(files, blobs, NotSaved(Unreadable))
    ensures u.content.Some? ==> (o.saved.Saved? <==> id !in files)
    ensures o.saved.NotSaved? ==> o.files == files
    ensures o.saved.Saved? ==>
      && o.saved.fileId == id && id !in files && id in o.files && o.files == files[id := o.files[id]]
      && o.files[id].userId == owner && o.files[id].originalName == u.filename
      && o.files[id].checksum == Some(digest(u.content.value))
      && !o.files[id].isFolder && !o.files[id].isShared && o.files[id].parentId.None?
      && o.files[id].filePath.Some?
      && o.files[id] == UploadRecord(id, owner, u.filename, o.files[id].filePath.value, u.size,
                                     digest(u.content.value), now)
    ensures u.content.Some? && OwnCopy(files, owner, digest(u.content.value)).Some? ==>
      && o.blobs == blobs
      && (o.saved.Saved? ==>
            o.files[id].filePath == Some(OrEmpty(files[OwnCopy(files, owner, digest(u.content.value)).value].filePath)))
    ensures u.content.Some? && OwnCopy(files, owner, digest(u.content.value)).None? ==>
      var p := UserFilePath(owner, id, Ext(u.filename));
      && (o.saved.Saved? ==> o.blobs == blobs[p := u.content.value] && o.files[id].filePath == Some(p))
      && (o.saved.NotSaved? ==> o.blobs == blobs - {p})
  {
    if u.content.None? then Outcome(files, blobs, NotSaved(Unreadable))
    else
      var c := digest(u.content.value);
      var e := OwnCopy(files, owner, c);
      if e.Some? then
        if id in files then Outcome(files, blobs, NotSaved(InsertFailed))
        else Outcome(files[id := UploadRecord(id, owner, u.filename, OrEmpty(files[e.value].filePath), u.size, c, now)],
                     blobs, Saved(id))
      else
        var p := UserFilePath(owner, id, Ext(u.filename));
        if id in files then Outcome(files, blobs - {p}, NotSaved(InsertFailed))
        else Outcome(files[id := UploadRecord(id, owner, u.filename, p, u.size, c, now)], blobs[p := u.content.value], Saved(id))
  }

  /** A save keeps the catalog invariant. */
  lemma SaveKeepsCatalogInv(files: Files, shares: map<string, ShareLink>, blobs: Blobs, owner: string, u: Upload,
                            id: string, now: Time, digest: seq<byte> -> string)
    requires CatalogInv(files, shares)
    ensures CatalogInv(Save(files, blobs, owner, u, id, now, digest).files, shares)
  {
    var o := Save(files, blobs, owner, u, id, now, digest);
    if o.saved.Saved? {
      InsertKeepsCatalogInv(files, shares, o.files[id]);
    }
  }

  /** The slot a worker fills from the answer of a save. */
  function SlotOf(u: Upload, s: Saved): (slot: UploadResult)
    ensures slot.fileName == u.filename
    ensures slot.error.None? <==> s.Saved?
    ensures s.Saved? ==> slot.fileId == s.fileId
    ensures s.NotSaved? ==> slot.fileId == "" && slot.error == Some(s.error)
  {
    match s
    case Saved(id) => UploadResult(id, u.filename, None)
    case NotSaved(e) => UploadResult("", u.filename, Some(e))
  }

  /** One save reports truthfully in its slot and keeps every row it found. */
  lemma SaveReports(files: Files, blobs: Blobs, owner: string, u: Upload, id: string, now: Time,
                    digest: seq<byte> -> string)
    ensures var o := Save(files, blobs, owner, u, id, now, digest);
      && SlotAgrees(SlotOf(u, o.saved), u, id, owner, o.files, files)
      && (forall k :: k in files ==> k in o.files && o.files[k] == files[k])
  {
  }

  /** One save adds exactly the id its slot reports. */
  lemma SaveAddsSlotId(files: Files, blobs: Blobs, owner: string, u: Upload, id: string, now: Time,
                       digest: seq<byte> -> string)
    ensures var o := Save(files, blobs, owner, u, id, now, digest);
      o.files.Keys == files.Keys + SavedIds([SlotOf(u, o.saved)])
  {
  }

  datatype Batch = Batch(files: Files, blobs: Blobs, results: seq<UploadResult>)

  /** The parts saved one after another, part `j` under `ids[j]`, each into slot `j`. */
  function SaveAll(files: Files, blobs: Blobs, owner: string, uploads: seq<Upload>, ids: seq<string>, now: Time,
                   digest: seq<byte> -> string): (b: Batch)
    requires |ids| == |uploads|
    ensures |b.results| == |uploads|
    decreases |uploads|
  {
    if uploads == [] then Batch(files, blobs, [])
    else
      var n := |uploads| - 1;
      var b := SaveAll(files, blobs, owner, uploads[..n], ids[..n], now, digest);
      var o := Save(b.files, b.blobs, owner, uploads[n], ids[n], now, digest);
      Batch(o.files, o.blobs, b.results + [SlotOf(uploads[n], o.saved)])
  }

  /** A batch keeps every row it found and adds exactly the ids its slots report. */
  lemma {:induction false} SaveAllGrows(files: Files, blobs: Blobs, owner: string, uploads: seq<Upload>, ids: seq<string>,
                                        now: Time, digest: seq<byte> -> string)
    requires |ids| == |uploads|
    ensures var b := SaveAll(files, blobs, owner, uploads, ids, now, digest);
      && (forall k :: k in files ==> k in b.files && b.files[k] == files[k])
      && b.files.Keys == files.Keys + SavedIds(b.results)
    decreases |uploads|
  {
    if uploads != [] {
      var n := |uploads| - 1;
      SaveAllGrows(files, blobs, owner, uploads[..n], ids[..n], now, digest);
      var b := SaveAll(files, blobs, owner, uploads[..n], ids[..n], now, digest);
      var o := Save(b.files, b.blobs, owner, uploads[n], ids[n], now, digest);
      SaveReports(b.files, b.blobs, owner, uploads[n], ids[n], now, digest);
      SaveAddsSlotId(b.files, b.blobs, owner, uploads[n], ids[n], now, digest);
      SavedIdsAppend(b.results, SlotOf(uploads[n], o.saved));
    }
  }

  /** Every slot of a batch reports truthfully on its part. */
  lemma {:induction false} SaveAllReports(files: Files, blobs: Blobs, owner: string, uploads: seq<Upload>, ids: seq<string>,
                                          now: Time, digest: seq<byte> -> string)
    requires |ids| == |uploads|
    ensures var b := SaveAll(files, blobs, owner, uploads, ids, now, digest);
      SlotsAgree(b.results, uploads, ids, owner, b.files, files)
    decreases |uploads|
  {
    if uploads != [] {
      var n := |uploads| - 1;
      SaveAllReports(files, blobs, owner, uploads[..n], ids[..n], now, digest);
      SaveAllGrows(files, blobs, owner, uploads[..n], ids[..n], now, digest);
      var b := SaveAll(files, blobs, owner, uploads[..n], ids[..n], now, digest);
      SaveStepReports(files, b, owner, uploads, ids, now, digest);
    }
  }

  /** Saving the last part keeps a batch's slots truthful and fills the new slot truthfully. */
  lemma SaveStepReports(before: Files, b: Batch, owner: string, uploads: seq<Upload>, ids: seq<string>,
                        now: Time, digest: seq<byte> -> string)
    requires |uploads| == |ids| > 0
    requires SlotsAgree(b.results, uploads[..|uploads| - 1], ids[..|uploads| - 1], owner, b.files, before)
    requires before.Keys <= b.files.Keys
    ensures var n := |uploads| - 1;
      var o := Save(b.files, b.blobs, owner, uploads[n], ids[n], now, digest);
      SlotsAgree(b.results + [SlotOf(uploads[n], o.saved)], uploads, ids, owner, o.files, before)
  {
    var n := |uploads| - 1;
    var o := Save(b.files, b.blobs, owner, uploads[n], ids[n], now, digest);
    SaveReports(b.files, b.blobs, owner, uploads[n], ids[n], now, digest);
    SlotsAgreeStep(b.results, uploads, ids, owner, b.files, before, SlotOf(uploads[n], o.saved), o.files);
  }

  /** The ids slots report as saved are ids drawn for their parts. */
  lemma SavedIdsDrawn(slots: seq<UploadResult>, uploads: seq<Upload>, ids: seq<string>, owner: string,
                      files: Files, before: Files)
    requires SlotsAgree(slots, uploads, ids, owner, files, before)
    ensures forall x :: x in SavedIds(slots) ==> x in ids
  {
    forall x | x in SavedIds(slots) ensures x in ids {
      var jj :| 0 <= jj < |slots| && slots[jj].error.None? && slots[jj].fileId == x;
      assert SlotAgrees(slots[jj], uploads[jj], ids[jj], owner, files, before);
    }
  }

  /** A readable part whose id is free and not drawn for an earlier part is saved. */
  lemma {:induction false} SaveAllSucceeds(files: Files, blobs: Blobs, owner: string, uploads: seq<Upload>, ids: seq<string>,
                                           now: Time, digest: seq<byte> -> string, j: int)
    requires |ids| == |uploads| && 0 <= j < |uploads|
    requires uploads[j].content.Some? && ids[j] !in files && ids[j] !in ids[..j]
    ensures SaveAll(files, blobs, owner, uploads, ids, now, digest).results[j].error.None?
    decreases |uploads|
  {
    var n := |uploads| - 1;
    var b := SaveAll(files, blobs, owner, uploads[..n], ids[..n], now, digest);
    var o := Save(b.files, b.blobs, owner, uploads[n], ids[n], now, digest);
    assert SaveAll(files, blobs, owner, uploads, ids, now, digest).results == b.results + [SlotOf(uploads[n], o.saved)];
    if j < n {
      assert ids[..n][..j] == ids[..j];
      SaveAllSucceeds(files, blobs, owner, uploads[..n], ids[..n], now, digest, j);
    } else {
      SaveAllGrows(files, blobs, owner, uploads[..n], ids[..n], now, digest);
      SaveAllReports(files, blobs, owner, uploads[..n], ids[..n], now, digest);
      SaveStepSucceeds(files, b, owner, uploads[..n], ids[..n], uploads[n], ids[n], now, digest);
    }
  }

  /** After a batch, a readable part is saved under an id that was free before the batch
      and was not drawn for any of its parts. */
  lemma SaveStepSucceeds(before: Files, b: Batch, owner: string, uploads: seq<Upload>, ids: seq<string>,
                         u: Upload, id: string, now: Time, digest: seq<byte> -> string)
    requires SlotsAgree(b.results, uploads, ids, owner, b.files, before)
    requires b.files.Keys == before.Keys + SavedIds(b.results)
    requires u.content.Some? && id !in before && id !in ids
    ensures Save(b.files, b.blobs, owner, u, id, now, digest).saved.Saved?
  {
    SavedIdsDrawn(b.results, uploads, ids, owner, b.files, before);
    assert id !in b.files;
  }

  /** A batch touches no stored bytes except the own locations of its readable parts. */
  lemma {:induction false} SaveAllLeavesOtherBytes(files: Files, blobs: Blobs, owner: string, uploads: seq<Upload>,
                                                   ids: seq<string>, now: Time, digest: seq<byte> -> string, p: string)
    requires |ids| == |uploads|
    requires forall j :: 0 <= j < |uploads| && uploads[j].content.Some? ==>
      UserFilePath(owner, ids[j], Ext(uploads[j].filename)) != p
    ensures var b := SaveAll(files, blobs, owner, uploads, ids, now, digest);
      (p in b.blobs <==> p in blobs) && (p in blobs ==> b.blobs[p] == blobs[p])
    decreases |uploads|
  {
    if uploads != [] {
      var n := |uploads| - 1;
      SaveAllLeavesOtherBytes(files, blobs, owner, uploads[..n], ids[..n], now, digest, p);
    }
  }

  /** A batch of unreadable parts changes neither the catalog nor the stored bytes. */
  lemma {:induction false} UnreadablePartsChangeNothing(files: Files, blobs: Blobs, owner: string, uploads: seq<Upload>,
                                                        ids: seq<string>, now: Time, digest: seq<byte> -> string)
    requires |ids| == |uploads|
    requires forall j :: 0 <= j < |uploads| ==> uploads[j].content.None?
    ensures var b := SaveAll(files, blobs, owner, uploads, ids, now, digest);
      b.files == files && b.blobs == blobs
      && forall j :: 0 <= j < |uploads| ==> b.results[j] == UploadResult("", uploads[j].filename, Some(Unreadable))
    decreases |uploads|
  {
    if uploads != [] {
      var n := |uploads| - 1;
      UnreadablePartsChangeNothing(files, blobs, owner, uploads[..n], ids[..n], now, digest);
    }
  }

  class Store {
    var files: map<string, FileRecord>
    var sessions: map<string, ChunkUpload>
    var shares: map<string, ShareLink>
    /** File contents by location. */
    var blobs: map<string, seq<byte>>
    /** Chunk files by (session, chunk number). */
    var chunks: map<ChunkKey, seq<byte>>
    /** `hex.EncodeToString(sha256(data))`. */
    const digest: seq<byte> -> string
    /** `bcrypt.CompareHashAndPassword(hash, password) == nil`. */
    const pwMatches: (string, string) -> bool

    /** The constraints of the schema and what the handlers keep between requests. */
    ghost predicate Valid()
      reads this
    {
      CatalogInv(files, shares) && SessionInv(sessions, chunks)
    }

    constructor (digest: seq<byte> -> string, pwMatches: (string, string) -> bool)
      ensures Valid()
      ensures files == map[] && sessions == map[] && shares == map[]
      ensures blobs == map[] && chunks == map[]
      ensures this.digest == digest && this.pwMatches == pwMatches
    {
      files, sessions, shares := map[], map[], map[];
      blobs, chunks := map[], map[];
      this.digest, this.pwMatches := digest, pwMatches;
    }

    // ---- Chunked upload ----

    /** `INSERT INTO files` of an unshared row under a fresh id whose parent exists. */
    method InsertFile(r: FileRecord)
      requires Valid()
      requires r.id !in files && !r.isShared
      requires r.parentId.Some? ==> r.parentId.value in files || r.parentId.value == r.id
      requires r.isFolder ==> r.filePath.None?
      modifies this
      ensures Valid()
      ensures shares == old(shares) && sessions == old(sessions) && chunks == old(chunks) && blobs == old(blobs)
      ensures files == old(files)[r.id := r]
    {
      InsertKeepsCatalogInv(files, shares, r);
      files := files[r.id := r];
    }


    /** Opens a session for `totalChunks` chunks. The INSERT fails when the id is taken or
        the count does not fit `total_chunks INTEGER`. */
    method ChunkedUploadInit(owner: string, fileName: string, totalSize: int64, totalChunks: int64,
                             uploadId: string, now: Time) returns (status: int, reply: Option<InitReply>)
      requires Valid()
      modifies this
      ensures Valid()
      ensures files == old(files) && shares == old(shares) && blobs == old(blobs) && chunks == old(chunks)
      ensures status == StatusOk <==> uploadId !in old(sessions) && InInt32(totalChunks)
      ensures status == StatusOk ==>
        sessions == old(sessions)[uploadId := NewSession(uploadId, owner, fileName, totalChunks, totalSize, now)]
        && reply == Some(InitReply(uploadId, ChunkSize, totalChunks, now + SessionLifetime))
      ensures status != StatusOk ==> status == StatusServerError && sessions == old(sessions) && reply.None?
    {
      if uploadId in sessions || !InInt32(totalChunks) {
        return StatusServerError, None;
      }
      sessions := sessions[uploadId := NewSession(uploadId, owner, fileName, totalChunks, totalSize, now)];
      return StatusOk, Some(InitReply(uploadId, ChunkSize, totalChunks, now + SessionLifetime));
    }

    /** Stores chunk `chunkNumber` (`None`: not an integer) of a session that is still
        pending, then records it; a number outside INTEGER leaves the chunk stored but
        unrecorded. */
    method ChunkedUploadChunk(uploadId: string, owner: string, chunkNumber: Option<int64>,
                              chunk: Option<seq<byte>>, now: Time) returns (status: int)
      requires Valid()
      modifies this
      ensures Valid()
      ensures files == old(files) && shares == old(shares) && blobs == old(blobs)
      ensures status == StatusBadRequest <==> chunkNumber.None? || chunk.None?
      ensures status == StatusNotFound <==>
        chunkNumber.Some? && chunk.Some? && !(uploadId in old(sessions) && AcceptsChunk(old(sessions)[uploadId], owner, now))
      ensures status == StatusBadRequest || status == StatusNotFound ==>
        sessions == old(sessions) && chunks == old(chunks)
      ensures chunkNumber.Some? && chunk.Some? && uploadId in old(sessions)
              && AcceptsChunk(old(sessions)[uploadId], owner, now) ==>
        && chunks == old(chunks)[(uploadId, chunkNumber.value as int) := chunk.value]
        && (InInt32(chunkNumber.value) ==>
              status == StatusOk
              && sessions == old(sessions)[uploadId := RecordChunk(old(sessions)[uploadId], chunkNumber.value as int)])
        && (!InInt32(chunkNumber.value) ==> status == StatusServerError && sessions == old(sessions))
    {
      if chunkNumber.None? || chunk.None? {
        return StatusBadRequest;
      }
      var n := chunkNumber.value as int;
      if uploadId !in sessions || !AcceptsChunk(sessions[uploadId], owner, now) {
        return StatusNotFound;
      }
      chunks := chunks[(uploadId, n) := chunk.value];
      if !InInt32(n) {
        return StatusServerError;
      }
      sessions := sessions[uploadId := RecordChunk(sessions[uploadId], n)];
      return StatusOk;
    }

    /** Removes the session's chunk files and marks the session completed. */
    method CloseSession(uploadId: string)
      requires Valid() && uploadId in sessions
      modifies this
      ensures Valid()
      ensures files == old(files) && shares == old(shares) && blobs == old(blobs)
      ensures chunks == DropSession(old(chunks), uploadId)
      ensures sessions == old(sessions)[uploadId := old(sessions)[uploadId].(status := Completed)]
    {
      CompleteKeepsSessionInv(sessions, chunks, uploadId);
      chunks := DropSession(chunks, uploadId);
      sessions := sessions[uploadId := sessions[uploadId].(status := Completed)];
    }

    /** Writes chunks 0..totalChunks-1 in order to the final location, stopping at the first
        one missing; then inserts the file row, removes the chunks and marks the session
        completed. Neither the session's status nor its expiry is consulted. */
    method ChunkedUploadComplete(uploadId: string, owner: string, fileId: string, now: Time)
      returns (status: int, reply: Option<CompleteReply>)
      requires Valid()
      modifies this
      ensures Valid()
      ensures shares == old(shares)
      ensures status == StatusNotFound <==> !(uploadId in old(sessions) && old(sessions)[uploadId].userId == owner)
      ensures status == StatusNotFound ==>
        files == old(files) && sessions == old(sessions) && chunks == old(chunks) && blobs == old(blobs)
      ensures status != StatusNotFound ==>
        var s := old(sessions)[uploadId];
        var path := UserFilePath(owner, fileId, Ext(s.fileName));
        var m := FirstMissing(old(chunks), uploadId, s.totalChunks);
        && blobs == old(blobs)[path := Concat(old(chunks), uploadId, m)]
        && (status == StatusOk <==> m >= s.totalChunks && fileId !in old(files))
        && (status == StatusOk ==>
              var checksum := digest(Concat(old(chunks), uploadId, m));
              && files == old(files)[fileId := UploadRecord(fileId, owner, s.fileName, path, s.totalSize, checksum, now)]
              && chunks == DropSession(old(chunks), uploadId)
              && sessions == old(sessions)[uploadId := s.(status := Completed)]
              && reply == Some(CompleteReply(fileId, s.fileName, s.totalSize, checksum)))
        && (status != StatusOk ==>
              status == StatusServerError && files == old(files) && chunks == old(chunks)
              && sessions == old(sessions) && reply.None?)
    {
      if uploadId !in sessions || sessions[uploadId].userId != owner {
        return StatusNotFound, None;
      }
      var s := sessions[uploadId];
      var path := UserFilePath(owner, fileId, Ext(s.fileName));
      ghost var m := FirstMissing(chunks, uploadId, s.totalChunks);
      blobs := blobs[path := []];
      var written: seq<byte> := [];
      var i := 0;
      while i < s.totalChunks
        invariant 0 <= i && (i <= s.totalChunks || i == 0)
        invariant AllPresent(chunks, uploadId, i) && i <= m
        invariant written == Concat(chunks, uploadId, i)
        invariant blobs == old(blobs)[path := written]
        invariant files == old(files) && sessions == old(sessions) && chunks == old(chunks)
        invariant shares == old(shares)
      {
        if (uploadId, i) !in chunks {
          assert m == i;
          return StatusServerError, None;
        }
        written := written + chunks[(uploadId, i)];
        blobs := blobs[path := written];
        i := i + 1;
      }
      assert AllPresent(chunks, uploadId, s.totalChunks);
      assert i == m;
      var checksum := digest(written);
      if fileId in files {
        return StatusServerError, None;
      }
      InsertFile(UploadRecord(fileId, owner, s.fileName, path, s.totalSize, checksum, now));
      CloseSession(uploadId);
      return StatusOk, Some(CompleteReply(fileId, s.fileName, s.totalSize, checksum));
    }

    // ---- Download ----

    /** The owner's file with its headers. A row whose `file_path` is NULL (a folder) fails
        the scan like a missing row. */
    method StreamDownload(fileId: string, owner: string, range: RangeHeader)
      returns (status: int, download: Option<Download>)
      ensures status == StatusNotFound <==>
        !(fileId in files && files[fileId].userId == owner && files[fileId].filePath.Some?)
      ensures status == StatusServerError <==>
        fileId in files && files[fileId].userId == owner && files[fileId].filePath.Some?
        && files[fileId].filePath.value !in blobs
      ensures download.Some? <==> status != StatusNotFound && status != StatusServerError
      ensures download.Some? ==>
        var f := files[fileId];
        && download.value == Download(f.filePath.value, f.originalName, Respond(range, f.fileSize))
        && status == download.value.headers.status
        && (status == StatusPartialContent <==> range.Range?)
    {
      if fileId !in files || files[fileId].userId != owner || files[fileId].filePath.None? {
        return StatusNotFound, None;
      }
      var f := files[fileId];
      if f.filePath.value !in blobs {
        return StatusServerError, None;
      }
      var headers := Respond(range, f.fileSize);
      return headers.status, Some(Download(f.filePath.value, f.originalName, headers));
    }

    // ---- Upload with deduplication ----

    /** Stores one part, as `Save` describes. */
    method SaveFileWithDeduplication(owner: string, upload: Upload, newId: string, now: Time)
      returns (r: Saved)
      requires Valid()
      modifies this
      ensures Valid()
      ensures sessions == old(sessions) && shares == old(shares) && chunks == old(chunks)
      ensures Outcome(files, blobs, r) == Save(old(files), old(blobs), owner, upload, newId, now, digest)
    {
      if upload.content.None? {
        return NotSaved(Unreadable);
      }
      SaveKeepsCatalogInv(files, shares, blobs, owner, upload, newId, now, digest);
      var data := upload.content.value;
      var c := digest(data);
      var e := OwnCopy(files, owner, c);
      if e.Some? {
        var path := OrEmpty(files[e.value].filePath);
        if newId in files {
          return NotSaved(InsertFailed);
        }
        files := files[newId := UploadRecord(newId, owner, upload.filename, path, upload.size, c, now)];
        return Saved(newId);
      }
      var path := UserFilePath(owner, newId, Ext(upload.filename));
      blobs := blobs[path := data];
      if newId in files {
        blobs := blobs - {path};
        return NotSaved(InsertFailed);
      }
      files := files[newId := UploadRecord(newId, owner, upload.filename, path, upload.size, c, now)];
      return Saved(newId);
    }

    /** The work of one worker: save the part and fill its slot, with the error when the
        save failed and the new id otherwise. */
    method UploadWorker(owner: string, upload: Upload, id: string, now: Time) returns (slot: UploadResult)
      requires Valid()
      modifies this
      ensures Valid()
      ensures sessions == old(sessions) && shares == old(shares) && chunks == old(chunks)
      ensures var o := Save(old(files), old(blobs), owner, upload, id, now, digest);
        files == o.files && blobs == o.blobs && slot == SlotOf(upload, o.saved)
    {
      var r := SaveFileWithDeduplication(owner, upload, id, now);
      match r
      case Saved(fileId) =>
        slot := UploadResult(fileId, upload.filename, None);
      case NotSaved(e) =>
        slot := UploadResult("", upload.filename, Some(e));
    }

    /** Saves every part into its own result slot, `ids[i]` being the id drawn for part `i`.
        The parts are taken one after another; the slots are those the workers fill. */
    method ParallelUpload(owner: string, uploads: seq<Upload>, ids: seq<string>, now: Time)
      returns (status: int, results: seq<UploadResult>)
      requires Valid()
      requires |ids| == |uploads|
      modifies this
      ensures Valid()
      ensures sessions == old(sessions) && shares == old(shares) && chunks == old(chunks)
      ensures status == StatusBadRequest <==> |uploads| == 0
      ensures status != StatusBadRequest ==> status == StatusOk
      ensures Batch(files, blobs, results) == SaveAll(old(files), old(blobs), owner, uploads, ids, now, digest)
      ensures SlotsAgree(results, uploads, ids, owner, files, old(files))
      ensures forall k :: k in old(files) ==> k in files && files[k] == old(files)[k]
      ensures files.Keys == old(files).Keys + SavedIds(results)
      ensures forall j ::
        (0 <= j < |uploads| && uploads[j].content.Some? && ids[j] !in old(files) && ids[j] !in ids[..j]
         ==> results[j].error.None?)
    {
      if |uploads| == 0 {
        return StatusBadRequest, [];
      }
      var slots := new UploadResult[|uploads|];
      for i := 0 to |uploads|
        invariant Valid()
        invariant sessions == old(sessions) && shares == old(shares) && chunks == old(chunks)
        invariant Batch(files, blobs, slots[..i]) == SaveAll(old(files), old(blobs), owner, uploads[..i], ids[..i], now, digest)
      {
        var slot := UploadWorker(owner, uploads[i], ids[i], now);
        slots[i] := slot;
        assert slots[..i + 1] == slots[..i] + [slot];
        assert uploads[..i + 1][..i] == uploads[..i] && ids[..i + 1][..i] == ids[..i];
      }
      assert uploads[..|uploads|] == uploads && ids[..|ids|] == ids;
      results := slots[..];
      SaveAllGrows(old(files), old(blobs), owner, uploads, ids, now, digest);
      SaveAllReports(old(files), old(blobs), owner, uploads, ids, now, digest);
      forall j | 0 <= j < |uploads| && uploads[j].content.Some? && ids[j] !in old(files) && ids[j] !in ids[..j]
        ensures results[j].error.None?
      {
        SaveAllSucceeds(old(files), old(blobs), owner, uploads, ids, now, digest, j);
      }
      return StatusOk, results;
    }

    /** The caller's rows directly in `parentId` ("" for the root), newest first. */
    method ListFiles(owner: string, parentId: string) returns (status: int, list: seq<FileRecord>)
      ensures status == StatusOk
      ensures forall r :: r in list <==> r in files.Values && r.userId == owner && InFolder(r, parentId)
      ensures forall i, j :: 0 <= i < j < |list| ==> list[i] != list[j]
      ensures SortedBy(list, NewerFirst)
    {
      NewerFirstIsPreorder();
      var rows := set k | k in files && files[k].userId == owner && InFolder(files[k], parentId) :: files[k];
      list := SortRows(rows, NewerFirst);
      return StatusOk, list;
    }

    /** Deletes the caller's file with everything the schema cascades to, and removes its
        bytes when at most one row in the whole catalog carried its hash. */
    method DeleteFile(fileId: string, owner: string) returns (status: int)
      requires Valid()
      modifies this
      ensures Valid()
      ensures sessions == old(sessions) && chunks == old(chunks)
      ensures status == StatusOk <==>
        fileId in old(files) && old(files)[fileId].userId == owner
        && old(files)[fileId].filePath.Some? && old(files)[fileId].checksum.Some?
      ensures status != StatusOk ==>
        status == StatusNotFound && files == old(files) && shares == old(shares) && blobs == old(blobs)
      ensures status == StatusOk ==>
        && files == AfterDelete(old(files), fileId)
        && shares == SharesAfterDelete(old(shares), old(files), fileId)
        && blobs == BlobsAfterDelete(old(files), old(blobs), fileId)
    {
      if fileId !in files || files[fileId].userId != owner
         || files[fileId].filePath.None? || files[fileId].checksum.None? {
        return StatusNotFound;
      }
      var path := files[fileId].filePath.value;
      var refCount := RefCount(files, files[fileId].checksum.value);
      DeleteRow(fileId);
      if refCount <= 1 {
        blobs := blobs - {path};
      }
      return StatusOk;
    }

    /** `DELETE FROM files WHERE id=$1`, with the rows and shares its cascade removes. */
    method DeleteRow(id: string)
      requires Valid() && id in files
      modifies this
      ensures Valid()
      ensures sessions == old(sessions) && chunks == old(chunks) && blobs == old(blobs)
      ensures files == AfterDelete(old(files), id)
      ensures shares == SharesAfterDelete(old(shares), old(files), id)
    {
      DeleteKeepsCatalogInv(files, shares, id);
      var before := files;
      files := AfterDelete(files, id);
      shares := SharesAfterDelete(shares, before, id);
    }

    /** Inserts a folder row. The INSERT fails when the id is taken or the parent row does
        not exist (a row may name itself: the reference is checked after the insert). */
    method CreateFolder(owner: string, name: string, parentId: Option<string>, folderId: string, now: Time)
      returns (status: int, reply: Option<string>)
      requires Valid()
      modifies this
      ensures Valid()
      ensures sessions == old(sessions) && shares == old(shares) && chunks == old(chunks) && blobs == old(blobs)
      ensures status == StatusCreated <==>
        folderId !in old(files) && (parentId.Some? ==> parentId.value in old(files) || parentId.value == folderId)
      ensures status == StatusCreated ==>
        files == old(files)[folderId := FolderRecord(folderId, owner, name, parentId, now)] && reply == Some(folderId)
      ensures status != StatusCreated ==> status == StatusServerError && files == old(files) && reply.None?
    {
      if folderId in files || (parentId.Some? && parentId.value !in files && parentId.value != folderId) {
        return StatusServerError, None;
      }
      InsertFile(FolderRecord(folderId, owner, name, parentId, now));
      return StatusCreated, Some(folderId);
    }

    // ---- Sharing ----

    /** Creates a share of the caller's file with a token made from `seed`. `pwHash` is
        bcrypt's result for the password (`None`: hashing failed). */
    method CreateShareLink(owner: string, fileId: string, expiresIn: Option<int64>, password: Option<string>,
                           seed: TokenSeed, shareId: string, pwHash: Option<string>, now: Time,
                           envBaseUrl: string, envPort: string)
      returns (status: int, reply: Option<CreatedShare>)
      requires Valid()
      modifies this
      ensures Valid()
      ensures sessions == old(sessions) && chunks == old(chunks) && blobs == old(blobs)
      ensures status == StatusNotFound <==> !(fileId in old(files) && old(files)[fileId].userId == owner)
      ensures status == StatusCreated <==>
        fileId in old(files) && old(files)[fileId].userId == owner
        && (WantsPassword(password) ==> pwHash.Some?)
        && shareId !in old(shares) && ShareWithToken(old(shares), Token(seed)).None?
      ensures status != StatusCreated ==>
        files == old(files) && shares == old(shares) && reply.None?
        && (status == StatusNotFound || status == StatusServerError)
      ensures status == StatusCreated ==>
        var f := old(files)[fileId];
        var stored := if WantsPassword(password) then pwHash else None;
        var link := ShareLink(shareId, fileId, owner, Token(seed), CreateExpiry(expiresIn, now), stored, now);
        && shares == old(shares)[shareId := link]
        && files == Reflag(old(files), fileId, true)
        && reply == Some(CreatedShare(shareId, ShareUrl(BaseUrl(envBaseUrl, envPort), Token(seed)), Token(seed),
                                      f.originalName, f.isFolder, link.expiresAt, stored.Some?))
    {
      if fileId !in files || files[fileId].userId != owner {
        return StatusNotFound, None;
      }
      var f := files[fileId];
      var token := Token(seed);
      var expiresAt := CreateExpiry(expiresIn, now);
      var stored: Option<string> := None;
      if WantsPassword(password) {
        if pwHash.None? {
          return StatusServerError, None;
        }
        stored := pwHash;
      }
      if shareId in shares || exists s :: s in shares && shares[s].token == token {
        return StatusServerError, None;
      }
      var link := ShareLink(shareId, fileId, owner, token, expiresAt, stored, now);
      InsertShare(link);
      var url := ShareUrl(BaseUrl(envBaseUrl, envPort), token);
      return StatusCreated, Some(CreatedShare(shareId, url, token, f.originalName, f.isFolder, expiresAt, stored.Some?));
    }

    /** `INSERT INTO share_links` followed by `UPDATE files SET is_shared = true`. */
    method InsertShare(link: ShareLink)
      requires Valid()
      requires link.fileId in files && link.id !in shares
      requires forall s :: s in shares ==> shares[s].token != link.token
      modifies this
      ensures Valid()
      ensures sessions == old(sessions) && chunks == old(chunks) && blobs == old(blobs)
      ensures shares == old(shares)[link.id := link] && files == Reflag(old(files), link.fileId, true)
    {
      AddShareKeepsCatalogInv(files, shares, link);
      shares := shares[link.id := link];
      files := Reflag(files, link.fileId, true);
    }

    /** `UPDATE share_links SET …` on one row, keeping its id, target and token. */
    method UpdateShare(l: ShareLink)
      requires Valid()
      requires l.id in shares && l.fileId == shares[l.id].fileId && l.token == shares[l.id].token
      modifies this
      ensures Valid()
      ensures files == old(files) && sessions == old(sessions) && chunks == old(chunks) && blobs == old(blobs)
      ensures shares == old(shares)[l.id := l]
    {
      EditShareKeepsCatalogInv(files, shares, l.id, l);
      shares := shares[l.id := l];
    }

    /** Public resolution of a token: the checks of `Check` in their order, then the
        folder's children (folders first, then by name) or the file's bytes. */
    method GetSharedFile(token: string, password: string, now: Time) returns (status: int, content: Option<SharedContent>)
      requires forall k :: k in shares ==> shares[k].id == k
      requires TokensUnique(shares)
      ensures var row := JoinedRow(files, shares, token);
        var a := Check(row, password, now, pwMatches);
        && (a != Granted ==> status == AccessStatus(a) && content.None?)
        && (a == Granted ==>
              var f := files[row.value.fileId];
              && (f.isFolder ==>
                    && status == StatusOk && content.Some? && content.value.FolderListing?
                    && content.value.folderId == f.id
                    && (forall r :: r in content.value.items <==> r in files.Values && r.parentId == Some(f.id))
                    && (forall i, j :: 0 <= i < j < |content.value.items| ==> content.value.items[i] != content.value.items[j])
                    && SortedBy(content.value.items, FoldersThenName))
              && (!f.isFolder && f.filePath.value !in blobs ==> status == StatusServerError && content.None?)
              && (!f.isFolder && f.filePath.value in blobs ==>
                    status == StatusOk && content == Some(FileStream(f.filePath.value, f.originalName, f.fileSize))))
    {
      var row: Option<ShareLink> := None;
      if exists s :: s in shares && shares[s].token == token {
        var s :| s in shares && shares[s].token == token;
        var fid := shares[s].fileId;
        assert JoinedShare(files, shares, token) == (if fid in files then Some(shares[s]) else None);
        if fid in files && files[fid].filePath.Some? {
          row := Some(shares[s]);
        }
      }
      assert row == JoinedRow(files, shares, token);
      var a := Check(row, password, now, pwMatches);
      if a != Granted {
        return AccessStatus(a), None;
      }
      var f := files[row.value.fileId];
      if f.isFolder {
        FoldersThenNameIsPreorder();
        var rows := set k | k in files && files[k].parentId == Some(f.id) :: files[k];
        var items := SortRows(rows, FoldersThenName);
        return StatusOk, Some(FolderListing(f.id, items));
      }
      if f.filePath.value !in blobs {
        return StatusServerError, None;
      }
      return StatusOk, Some(FileStream(f.filePath.value, f.originalName, f.fileSize));
    }

    /** What anyone holding the token may learn: the same lookup and expiry check, no
        password, and no need for the file to have a location. */
    method GetShareInfo(token: string, now: Time) returns (status: int, details: Option<ShareDetails>)
      requires forall k :: k in shares ==> shares[k].id == k
      requires TokensUnique(shares)
      ensures var link := JoinedShare(files, shares, token);
        var a := InfoCheck(link, now);
        && status == AccessStatus(a)
        && (details.Some? <==> a == Granted)
        && (a == Granted ==>
              var l, f := link.value, files[link.value.fileId];
              details.value == ShareDetails(f.originalName, f.fileSize, f.isFolder, l.expiresAt, l.password.Some?, l.createdAt))
    {
      var link: Option<ShareLink> := None;
      if exists s :: s in shares && shares[s].token == token {
        var s :| s in shares && shares[s].token == token;
        if shares[s].fileId in files {
          link := Some(shares[s]);
        }
      }
      assert link == JoinedShare(files, shares, token);
      var a := InfoCheck(link, now);
      if a != Granted {
        return AccessStatus(a), None;
      }
      var l := link.value;
      var f := files[l.fileId];
      return StatusOk, Some(ShareDetails(f.originalName, f.fileSize, f.isFolder, l.expiresAt, l.password.Some?, l.createdAt));
    }

    /** The caller's shares, newest first, each with its URL. */
    method ListUserShares(owner: string, envBaseUrl: string, envPort: string) returns (status: int, list: seq<ShareInfo>)
      ensures status == StatusOk
      ensures forall x :: x in list <==>
        exists s :: s in shares && shares[s].userId == owner && shares[s].fileId in files
          && x == InfoOf(shares[s], files[shares[s].fileId], BaseUrl(envBaseUrl, envPort))
      ensures forall i, j :: 0 <= i < j < |list| ==> list[i] != list[j]
      ensures SortedBy(list, NewestFirst)
    {
      NewestFirstIsPreorder();
      var base := BaseUrl(envBaseUrl, envPort);
      var rows := set s | s in shares && shares[s].userId == owner && shares[s].fileId in files
        :: InfoOf(shares[s], files[shares[s].fileId], base);
      list := SortRows(rows, NewestFirst);
      return StatusOk, list;
    }

    /** Removes the caller's share and clears the file's flag when it was its last share. */
    method DeleteShareLink(shareId: string, owner: string) returns (status: int)
      requires Valid()
      modifies this
      ensures Valid()
      ensures sessions == old(sessions) && chunks == old(chunks) && blobs == old(blobs)
      ensures status == StatusOk <==> shareId in old(shares) && old(shares)[shareId].userId == owner
      ensures status != StatusOk ==> status == StatusNotFound && files == old(files) && shares == old(shares)
      ensures status == StatusOk ==>
        var fid := old(shares)[shareId].fileId;
        && shares == old(shares) - {shareId}
        && files == (if SharesOf(shares, fid) == {} then Reflag(old(files), fid, false) else old(files))
    {
      if shareId !in shares || shares[shareId].userId != owner {
        return StatusNotFound;
      }
      RemoveShare(shareId);
      return StatusOk;
    }

    /** Deletes one share row and clears its file's flag when no share of the file is left. */
    method RemoveShare(shareId: string)
      requires Valid() && shareId in shares
      modifies this
      ensures Valid()
      ensures sessions == old(sessions) && chunks == old(chunks) && blobs == old(blobs)
      ensures shares == old(shares) - {shareId}
      ensures var fid := old(shares)[shareId].fileId;
        files == (if SharesOf(shares, fid) == {} then Reflag(old(files), fid, false) else old(files))
    {
      var fid := shares[shareId].fileId;
      RemoveShareKeepsCatalogInv(files, shares, shareId);
      shares := shares - {shareId};
      var remaining := SharesOf(shares, fid);
      assert |remaining| == 0 <==> remaining == {};
      if |remaining| == 0 {
        files := Reflag(files, fid, false);
      }
    }

    /** Changes the expiry and then the password of the caller's share. When hashing the
        new password fails the expiry change has already happened. */
    method UpdateShareLink(shareId: string, owner: string, expiresIn: Option<int64>, password: Option<string>,
                           pwHash: Option<string>, now: Time) returns (status: int)
      requires Valid()
      modifies this
      ensures Valid()
      ensures files == old(files) && sessions == old(sessions) && chunks == old(chunks) && blobs == old(blobs)
      ensures status == StatusNotFound <==> !(shareId in old(shares) && old(shares)[shareId].userId == owner)
      ensures status == StatusNotFound ==> shares == old(shares)
      ensures status != StatusNotFound ==>
        var s := old(shares)[shareId];
        var s1 := s.(expiresAt := UpdatedExpiry(s.expiresAt, expiresIn, now));
        && (status == StatusServerError <==> WantsPassword(password) && pwHash.None?)
        && (status == StatusServerError ==> shares == old(shares)[shareId := s1])
        && (status != StatusServerError ==>
              status == StatusOk
              && shares == old(shares)[shareId := s1.(password := UpdatedPassword(s.password, password, OrEmpty(pwHash)))])
    {
      if shareId !in shares || shares[shareId].userId != owner {
        return StatusNotFound;
      }
      var s := shares[shareId];
      var s1 := s.(expiresAt := UpdatedExpiry(s.expiresAt, expiresIn, now));
      if expiresIn.Some? {
        UpdateShare(s1);
      }
      assert shares == old(shares)[shareId := s1];
      if password.Some? {
        if password.value != "" && pwHash.None? {
          return StatusServerError;
        }
        UpdateShare(s1.(password := UpdatedPassword(s1.password, password, OrEmpty(pwHash))));
      }
      return StatusOk;
    }
  }
}
