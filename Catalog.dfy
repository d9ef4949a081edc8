/** The catalog rules of the file handlers: the reference count `DeleteFile` takes, the
    rows `ON DELETE CASCADE` removes with a deleted row, the physical removal decision,
    and the records the uploads and `CreateFolder` insert. */
module Catalog {
  import opened Prelude
  import opened Models
  import opened Paths
  import Ordering

  type Files = map<string, FileRecord>
  type Blobs = map<string, seq<byte>>

  lemma SubsetCard<T>(a: set<T>, b: set<T>)
    requires a <= b
    ensures |a| <= |b| && (a < b ==> |a| < |b|)
  {
    assert b == a + (b - a);
    assert a * (b - a) == {};
    if a < b { var x :| x in b - a; }
  }

  /** `SELECT COUNT(*) FROM files WHERE checksum=$1`, over every owner's rows. */
  function RefCount(files: Files, c: string): (r: nat)
    ensures r == 0 <==> forall k :: k in files ==> files[k].checksum != Some(c)
  {
    var holders := set k | k in files && files[k].checksum == Some(c);
    assert (forall k :: k in files ==> files[k].checksum != Some(c)) ==> holders == {};
    assert forall k :: k in files && files[k].checksum == Some(c) ==> k in holders;
    |holders|
  }

  /** Records sharing a location hold the same content. */
  ghost predicate PathsAgree(files: Files)
  {
    forall a, b :: a in files && b in files && files[a].filePath.Some? && files[a].filePath == files[b].filePath
      ==> files[a].checksum == files[b].checksum
  }

  /** Every record's location holds bytes. */
  ghost predicate NoDangling(files: Files, blobs: Blobs)
  {
    forall k :: k in files && files[k].filePath.Some? ==> files[k].filePath.value in blobs
  }

  /** A content hash counted at most once belongs to one record, so no other record
      shares its location. */
  lemma SoleHolder(files: Files, id: string)
    requires PathsAgree(files)
    requires id in files && files[id].checksum.Some? && files[id].filePath.Some?
    requires RefCount(files, files[id].checksum.value) <= 1
    ensures forall k :: k in files && k != id ==> files[k].filePath != files[id].filePath
  {
    var c := files[id].checksum.value;
    var holders := set k | k in files && files[k].checksum == Some(c);
    forall k | k in files && k != id ensures files[k].filePath != files[id].filePath {
      if files[k].filePath == files[id].filePath {
        assert k in holders && id in holders;
        SubsetCard({k, id}, holders);
      }
    }
  }

  // ---- ON DELETE CASCADE ----

  /** Rows whose `parent_id` is in `s`. */
  function Children(files: Files, s: set<string>): (r: set<string>)
    ensures r <= files.Keys
  {
    set k | k in files && files[k].parentId.Some? && files[k].parentId.value in s
  }

  ghost predicate ClosedUnderChildren(files: Files, s: set<string>)
  {
    forall k :: k in files && files[k].parentId.Some? && files[k].parentId.value in s ==> k in s
  }

  /** The rows a DELETE of `s` removes once `parent_id ... ON DELETE CASCADE` has run. */
  function Cascade(files: Files, s: set<string>): (r: set<string>)
    requires s <= files.Keys
    ensures s <= r <= files.Keys
    decreases |files.Keys - s|
  {
    var next := s + Children(files, s);
    if next == s then s
    else
      SubsetCard(files.Keys - next, files.Keys - s);
      Cascade(files, next)
  }

  lemma {:induction false} CascadeClosed(files: Files, s: set<string>)
    requires s <= files.Keys
    ensures ClosedUnderChildren(files, Cascade(files, s))
    decreases |files.Keys - s|
  {
    var next := s + Children(files, s);
    if next != s {
      SubsetCard(files.Keys - next, files.Keys - s);
      CascadeClosed(files, next);
    } else {
      forall k | k in files && files[k].parentId.Some? && files[k].parentId.value in s
        ensures k in s
      {
        assert k in Children(files, s);
      }
    }
  }

  /** The cascade removes nothing it does not have to: it lies inside every set that
      holds `s` and is closed under children. */
  lemma {:induction false} CascadeLeast(files: Files, s: set<string>, t: set<string>)
    requires s <= files.Keys && s <= t && ClosedUnderChildren(files, t)
    ensures Cascade(files, s) <= t
    decreases |files.Keys - s|
  {
    var next := s + Children(files, s);
    if next != s {
      assert Children(files, s) <= t;
      SubsetCard(files.Keys - next, files.Keys - s);
      CascadeLeast(files, next, t);
    }
  }

  /** Every row's parent is a row. */
  ghost predicate ParentsExist(files: Files)
  {
    forall k :: k in files && files[k].parentId.Some? ==> files[k].parentId.value in files
  }

  /** The catalog after `DELETE FROM files WHERE id=$1` with its cascade. */
  function AfterDelete(files: Files, id: string): (r: Files)
    requires id in files
    ensures id !in r
    ensures forall k :: k in r <==> k in files && k !in Cascade(files, {id})
    ensures forall k :: k in r ==> r[k] == files[k]
  {
    var doomed := Cascade(files, {id});
    map k | k in files && k !in doomed :: files[k]
  }

  /** Deleting never leaves a row whose parent is gone. */
  lemma AfterDeleteParentsExist(files: Files, id: string)
    requires id in files && ParentsExist(files)
    ensures ParentsExist(AfterDelete(files, id))
  {
    var doomed := Cascade(files, {id});
    CascadeClosed(files, {id});
    var r := AfterDelete(files, id);
    forall k | k in r && r[k].parentId.Some? ensures r[k].parentId.value in r {
      var p := r[k].parentId.value;
      assert k in files && k !in doomed;
    }
  }

  /** `share_links.file_id ... ON DELETE CASCADE`: shares of removed rows go with them. */
  function SharesAfterDelete(shares: map<string, ShareLink>, files: Files, id: string): (r: map<string, ShareLink>)
    requires id in files
    ensures forall s :: s in r <==> s in shares && shares[s].fileId !in Cascade(files, {id})
    ensures forall s :: s in r ==> r[s] == shares[s]
  {
    var doomed := Cascade(files, {id});
    map s | s in shares && shares[s].fileId !in doomed :: shares[s]
  }

  /** `if refCount <= 1 { os.Remove(filePath) }`, with the count taken before the delete. */
  function BlobsAfterDelete(files: Files, blobs: Blobs, id: string): (r: Blobs)
    requires id in files && files[id].checksum.Some? && files[id].filePath.Some?
    ensures forall p :: p in r ==> p in blobs && r[p] == blobs[p]
    ensures forall p :: p in blobs && p != files[id].filePath.value ==> p in r
    ensures files[id].filePath.value in r <==>
      files[id].filePath.value in blobs && RefCount(files, files[id].checksum.value) > 1
  {
    if RefCount(files, files[id].checksum.value) <= 1 then blobs - {files[id].filePath.value}
    else blobs
  }

  /** While records sharing a location share a hash, deleting one never takes bytes
      from a record that survives. */
  lemma DeleteKeepsSurvivorsBytes(files: Files, blobs: Blobs, id: string)
    requires id in files && files[id].checksum.Some? && files[id].filePath.Some?
    requires PathsAgree(files) && NoDangling(files, blobs)
    ensures NoDangling(AfterDelete(files, id), BlobsAfterDelete(files, blobs, id))
  {
    if RefCount(files, files[id].checksum.value) <= 1 {
      SoleHolder(files, id);
    }
  }

  // ---- Records the handlers insert ----

  /** The row of an uploaded file: stored name `<id><ext>`, display name as sent. */
  function UploadRecord(id: string, owner: string, name: string, path: string, size: int64,
                        checksum: string, now: Time): (r: FileRecord)
    ensures r.fileName == id + Ext(name) && r.originalName == name
    ensures !r.isFolder && !r.isShared && r.parentId.None?
  {
    FileRecord(id, owner, id + Ext(name), name, Some(path), size, Some(checksum), None, false, false, now, now)
  }

  /** The row of a new folder: no bytes, no hash, size 0. */
  function FolderRecord(id: string, owner: string, name: string, parent: Option<string>, now: Time): (r: FileRecord)
    ensures r.isFolder && r.filePath.None? && r.checksum.None? && r.fileSize == 0
  {
    FileRecord(id, owner, name, name, None, 0, None, parent, true, false, now, now)
  }

  /** `SELECT id FROM files WHERE user_id=$1 AND checksum=$2`: the caller's own copies. */
  predicate IsOwnCopy(files: Files, k: string, owner: string, c: string)
  {
    k in files && files[k].userId == owner && files[k].checksum == Some(c)
  }

  /** The row that query's `LIMIT 1` returns. PostgreSQL leaves the row unspecified; the
      model takes the least id in name order. */
  function OwnCopy(files: Files, owner: string, c: string): (e: Option<string>)
    ensures e.Some? <==> exists k :: IsOwnCopy(files, k, owner, c)
    ensures e.Some? ==> IsOwnCopy(files, e.value, owner, c)
  {
    var copies := set k | k in files && IsOwnCopy(files, k, owner, c);
    if copies == {} then
      assert forall k :: IsOwnCopy(files, k, owner, c) ==> k in copies;
      None
    else Some(Ordering.Least(copies))
  }

  /** A record that reuses an existing copy's location keeps PathsAgree. */
  lemma DedupKeepsPathsAgree(files: Files, e: string, r: FileRecord)
    requires PathsAgree(files) && r.id !in files
    requires e in files && files[e].filePath.Some?
    requires r.filePath == files[e].filePath && r.checksum == files[e].checksum
    ensures PathsAgree(files[r.id := r])
  {
  }

  /** Folders carry no bytes: their `file_path` is NULL. */
  ghost predicate FoldersHaveNoPath(files: Files)
  {
    forall k :: k in files && files[k].isFolder ==> files[k].filePath.None?
  }

  /** `parent_id IS NULL` for the empty query parameter, `parent_id=$2` otherwise. */
  predicate InFolder(r: FileRecord, parentId: string)
  {
    if parentId == "" then r.parentId.None? else r.parentId == Some(parentId)
  }

  /** `ORDER BY created_at DESC`. */
  predicate NewerFirst(a: FileRecord, b: FileRecord)
  {
    a.createdAt >= b.createdAt
  }

  lemma NewerFirstIsPreorder()
    ensures Ordering.Total(NewerFirst) && Ordering.Transitive(NewerFirst)
  {
  }

  // ---- Finding: the catalog-wide count leaks bytes of per-owner copies ----

  /** Two owners upload the same bytes; deduplication is per owner, so each has a file of
      its own. The first owner deletes theirs: the catalog-wide count is 2, so the bytes
      stay although no record refers to them any more. */
  lemma CrossOwnerDeleteLeaks()
    ensures var a := FileRecord("a", "u", "a", "x", Some("pa"), 1, Some("c"), None, false, false, 0, 0);
      var b := FileRecord("b", "v", "b", "x", Some("pb"), 1, Some("c"), None, false, false, 0, 0);
      var files := map["a" := a, "b" := b];
      var blobs: Blobs := map["pa" := [7 as byte], "pb" := [7 as byte]];
      && "pa" in BlobsAfterDelete(files, blobs, "a")
      && forall k :: k in AfterDelete(files, "a") ==> AfterDelete(files, "a")[k].filePath != Some("pa")
  {
    var a := FileRecord("a", "u", "a", "x", Some("pa"), 1, Some("c"), None, false, false, 0, 0);
    var b := FileRecord("b", "v", "b", "x", Some("pb"), 1, Some("c"), None, false, false, 0, 0);
    var files := map["a" := a, "b" := b];
    assert (set k | k in files && files[k].checksum == Some("c")) == {"a", "b"};
  }

  /** How many records refer to location `p`. */
  function PathRefCount(files: Files, p: string): nat
  {
    |set k | k in files && files[k].filePath == Some(p)|
  }

  /** The removal evidently intended: remove the bytes when no surviving record refers to
      them. */
  function BlobsAfterDeleteIntended(files: Files, blobs: Blobs, id: string): Blobs
    requires id in files && files[id].filePath.Some?
  {
    var p := files[id].filePath.value;
    if PathRefCount(AfterDelete(files, id), p) == 0 then blobs - {p} else blobs
  }

  /** The intended removal never takes bytes from a survivor and never keeps the
      deleted record's bytes when nothing refers to them. */
  lemma IntendedDeleteExact(files: Files, blobs: Blobs, id: string)
    requires id in files && files[id].filePath.Some? && NoDangling(files, blobs)
    ensures var after, blobs' := AfterDelete(files, id), BlobsAfterDeleteIntended(files, blobs, id);
      && NoDangling(after, blobs')
      && (files[id].filePath.value in blobs' <==>
            exists k :: k in after && after[k].filePath == files[id].filePath)
  {
    var after := AfterDelete(files, id);
    var p := files[id].filePath.value;
    var holders := set k | k in after && after[k].filePath == Some(p);
    if exists k :: k in after && after[k].filePath == Some(p) {
      var k :| k in after && after[k].filePath == Some(p);
      SubsetCard({k}, holders);
      assert p in blobs;
    } else {
      assert holders == {};
    }
  }
}
