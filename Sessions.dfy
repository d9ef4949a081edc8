/** The rules of the chunked-upload session machine: the session row `ChunkedUploadInit`
    inserts, the lookup that gates each chunk, the update that records a chunk, and the
    in-order concatenation `ChunkedUploadComplete` writes. */
module Sessions {
  import opened Prelude
  import opened Models

  /** `ChunkSize`: 5 MiB, the chunk size announced to clients. */
  const ChunkSize: int := 5 * 1024 * 1024

  /** Sessions expire 24 hours after they are opened. */
  const SessionLifetime: int := 24 * Hour

  /** The row inserted for a new session. */
  function NewSession(id: string, owner: string, fileName: string, totalChunks: int,
                      totalSize: int64, now: Time): (s: ChunkUpload)
    ensures s.id == id && s.userId == owner && s.fileName == fileName
    ensures s.totalChunks == totalChunks && s.totalSize == totalSize && s.chunkSize == ChunkSize
    ensures s.status == Pending && s.uploadedChunks == [] && s.expiresAt == now + 24 * Hour
  {
    ChunkUpload(id, owner, fileName, totalChunks, ChunkSize, totalSize, [], Pending, now,
                now + SessionLifetime)
  }

  /** The lookup of the chunk handler: `user_id=$2 AND status='pending' AND expires_at > NOW()`. */
  predicate AcceptsChunk(s: ChunkUpload, owner: string, now: Time)
    ensures AcceptsChunk(s, owner, now) ==> s.status != Uploading && s.status != Completed
  {
    s.userId == owner && s.status == Pending && s.expiresAt > now
  }

  /** `uploaded_chunks = array_append(uploaded_chunks, n), status = 'uploading'`. */
  function RecordChunk(s: ChunkUpload, index: int): (t: ChunkUpload)
    ensures multiset(t.uploadedChunks) == multiset(s.uploadedChunks) + multiset{index}
    ensures t.status == Uploading
    ensures t.(uploadedChunks := s.uploadedChunks, status := s.status) == s
  {
    s.(uploadedChunks := s.uploadedChunks + [index], status := Uploading)
  }

  /** A new session takes chunks from its owner, and only from its owner, until it expires. */
  lemma NewSessionGate(id: string, owner: string, fileName: string, totalChunks: int,
                       totalSize: int64, now: Time, caller: string, t: Time)
    ensures AcceptsChunk(NewSession(id, owner, fileName, totalChunks, totalSize, now), caller, t)
      <==> caller == owner && t < now + 24 * Hour
  {
  }

  predicate AllPresent(chunks: map<ChunkKey, seq<byte>>, id: string, n: int)
  {
    forall i :: 0 <= i < n ==> (id, i) in chunks
  }

  /** The number of the first chunk Complete cannot read, or the chunk count when it can
      read them all (0 for a count that is not positive). */
  function FirstMissing(chunks: map<ChunkKey, seq<byte>>, id: string, n: int): (m: nat)
    ensures AllPresent(chunks, id, m)
    ensures m < n ==> (id, m) !in chunks
    ensures m >= n ==> m == 0 || m == n
    ensures AllPresent(chunks, id, n) <==> m >= n
  {
    FirstMissingFrom(chunks, id, 0, n)
  }

  function FirstMissingFrom(chunks: map<ChunkKey, seq<byte>>, id: string, i: nat, n: int): (m: nat)
    requires AllPresent(chunks, id, i)
    ensures i <= m && AllPresent(chunks, id, m)
    ensures m < n ==> (id, m) !in chunks
    ensures m >= n ==> m == i || m == n
    decreases n - i
  {
    if i >= n || (id, i) !in chunks then i else FirstMissingFrom(chunks, id, i + 1, n)
  }

  /** `chunk_0 ++ chunk_1 ++ ... ++ chunk_{n-1}` of session `id`. */
  function Concat(chunks: map<ChunkKey, seq<byte>>, id: string, n: int): (data: seq<byte>)
    requires AllPresent(chunks, id, n)
    decreases n
  {
    if n <= 0 then [] else Concat(chunks, id, n - 1) + chunks[(id, n - 1)]
  }

  /** The concatenation is in index order: chunk `i` sits right after chunks `0..i-1`. */
  lemma {:induction false} ConcatInOrder(chunks: map<ChunkKey, seq<byte>>, id: string, n: int, i: int)
    requires AllPresent(chunks, id, n) && 0 <= i < n
    ensures var off, c := |Concat(chunks, id, i)|, chunks[(id, i)];
      off + |c| <= |Concat(chunks, id, n)| && Concat(chunks, id, n)[off..off + |c|] == c
    decreases n
  {
    if i < n - 1 {
      ConcatInOrder(chunks, id, n - 1, i);
      var off, c := |Concat(chunks, id, i)|, chunks[(id, i)];
      var prev := Concat(chunks, id, n - 1);
      assert Concat(chunks, id, n)[off..off + |c|] == prev[off..off + |c|];
    }
  }

  /** The total length is the sum of the chunk lengths. */
  function ChunkBytes(chunks: map<ChunkKey, seq<byte>>, id: string, n: int): nat
    requires AllPresent(chunks, id, n)
    decreases n
  {
    if n <= 0 then 0 else ChunkBytes(chunks, id, n - 1) + |chunks[(id, n - 1)]|
  }

  lemma {:induction false} ConcatLength(chunks: map<ChunkKey, seq<byte>>, id: string, n: int)
    requires AllPresent(chunks, id, n)
    ensures |Concat(chunks, id, n)| == ChunkBytes(chunks, id, n)
    decreases n
  {
    if n > 0 { ConcatLength(chunks, id, n - 1); }
  }

  /** The chunk store with every chunk of session `id` gone (`os.RemoveAll(chunkDir)`). */
  function DropSession(chunks: map<ChunkKey, seq<byte>>, id: string): (r: map<ChunkKey, seq<byte>>)
    ensures forall k :: k in r <==> k in chunks && k.0 != id
    ensures forall k :: k in r ==> r[k] == chunks[k]
  {
    map k | k in chunks && k.0 != id :: chunks[k]
  }

  /** Every stored chunk belongs to a session and, when its number fits the INTEGER[]
      column, is listed in that session's `uploaded_chunks`. */
  ghost predicate ChunksRecorded(sessions: map<string, ChunkUpload>, chunks: map<ChunkKey, seq<byte>>)
  {
    forall k :: k in chunks ==> k.0 in sessions && (InInt32(k.1) ==> k.1 in sessions[k.0].uploadedChunks)
  }

  /** A session that is not completed still has a stored chunk for every number it lists. */
  ghost predicate ReceivedStored(sessions: map<string, ChunkUpload>, chunks: map<ChunkKey, seq<byte>>)
  {
    forall id, i :: id in sessions && sessions[id].status != Completed && i in sessions[id].uploadedChunks
      ==> (id, i) in chunks
  }

  /** For a session that is not completed, the chunks Complete reads are all there exactly
      when `uploaded_chunks` covers 0..totalChunks-1 (extra numbers are ignored). */
  lemma AssemblyReadyIff(sessions: map<string, ChunkUpload>, chunks: map<ChunkKey, seq<byte>>, id: string)
    requires ChunksRecorded(sessions, chunks) && ReceivedStored(sessions, chunks)
    requires id in sessions && sessions[id].status != Completed
    requires InInt32(sessions[id].totalChunks)
    ensures AllPresent(chunks, id, sessions[id].totalChunks)
      <==> forall i :: 0 <= i < sessions[id].totalChunks ==> i in sessions[id].uploadedChunks
  {
    var s := sessions[id];
    if AllPresent(chunks, id, s.totalChunks) {
      forall i | 0 <= i < s.totalChunks ensures i in s.uploadedChunks {
        assert (id, i) in chunks;
      }
    }
  }

  // ---- Finding: the gate closes after the first chunk ----

  /** As written: once one chunk is recorded the session is 'uploading', so the gate,
      which asks for 'pending', refuses every later chunk, from anyone, at any time. */
  lemma RecordedChunkClosesGate(s: ChunkUpload, index: int, caller: string, t: Time)
    ensures !AcceptsChunk(RecordChunk(s, index), caller, t)
  {
  }

  /** The gate as evidently intended: a session keeps taking chunks while it is receiving. */
  predicate AcceptsChunkIntended(s: ChunkUpload, owner: string, now: Time)
  {
    s.userId == owner && (s.status == Pending || s.status == Uploading) && s.expiresAt > now
  }

  function Flatten(parts: seq<seq<byte>>): seq<byte>
  {
    if parts == [] then [] else Flatten(parts[..|parts| - 1]) + parts[|parts| - 1]
  }

  /** Chunks `parts[0]`, `parts[1]`, ... sent in order to session `s` under a gate: accepted
      chunks are stored and recorded, refused ones change nothing. */
  function SendInOrder(s: ChunkUpload, chunks: map<ChunkKey, seq<byte>>, parts: seq<seq<byte>>,
                       owner: string, now: Time, intended: bool): (ChunkUpload, map<ChunkKey, seq<byte>>)
    decreases |parts|
  {
    if parts == [] then (s, chunks)
    else
      var (s', chunks') := SendInOrder(s, chunks, parts[..|parts| - 1], owner, now, intended);
      var i := |parts| - 1;
      if (if intended then AcceptsChunkIntended(s', owner, now) else AcceptsChunk(s', owner, now))
      then (RecordChunk(s', i), chunks'[(s.id, i) := parts[i]])
      else (s', chunks')
  }

  /** With the intended gate, a session sent all of its parts stores every one of them,
      and the assembled bytes are exactly the parts in order. */
  lemma {:induction false} IntendedUploadAssembles(s: ChunkUpload, chunks: map<ChunkKey, seq<byte>>,
                                                  parts: seq<seq<byte>>, owner: string, now: Time)
    requires AcceptsChunkIntended(s, owner, now)
    ensures var (s', chunks') := SendInOrder(s, chunks, parts, owner, now, true);
      && AcceptsChunkIntended(s', owner, now)
      && AllPresent(chunks', s.id, |parts|)
      && Concat(chunks', s.id, |parts|) == Flatten(parts)
    decreases |parts|
  {
    if parts != [] {
      var init := parts[..|parts| - 1];
      IntendedUploadAssembles(s, chunks, init, owner, now);
      var (s1, c1) := SendInOrder(s, chunks, init, owner, now, true);
      var i := |parts| - 1;
      var c2 := c1[(s.id, i) := parts[i]];
      assert AllPresent(c2, s.id, |parts|);
      ConcatUnchanged(c1, c2, s.id, i);
    }
  }

  /** Concat only reads chunks below `n`. */
  lemma {:induction false} ConcatUnchanged(a: map<ChunkKey, seq<byte>>, b: map<ChunkKey, seq<byte>>, id: string, n: int)
    requires AllPresent(a, id, n) && AllPresent(b, id, n)
    requires forall i :: 0 <= i < n ==> a[(id, i)] == b[(id, i)]
    ensures Concat(a, id, n) == Concat(b, id, n)
    decreases n
  {
    if n > 0 { ConcatUnchanged(a, b, id, n - 1); }
  }

  /** As written, a fresh session sent two or more parts stores the first only, so the
      chunk Complete reads second is missing. */
  lemma {:induction false} AsWrittenUploadStopsAfterFirst(s: ChunkUpload, chunks: map<ChunkKey, seq<byte>>,
                                                         parts: seq<seq<byte>>, owner: string, now: Time)
    requires AcceptsChunk(s, owner, now) && (s.id, 1) !in chunks
    requires |parts| >= 2
    ensures var (_, chunks') := SendInOrder(s, chunks, parts, owner, now, false);
      (s.id, 1) !in chunks' && !AllPresent(chunks', s.id, |parts|)
    decreases |parts|
  {
    FirstChunkOnly(s, chunks, parts, owner, now);
  }

  lemma {:induction false} FirstChunkOnly(s: ChunkUpload, chunks: map<ChunkKey, seq<byte>>,
                                         parts: seq<seq<byte>>, owner: string, now: Time)
    requires AcceptsChunk(s, owner, now)
    requires |parts| >= 1
    ensures var (s', chunks') := SendInOrder(s, chunks, parts, owner, now, false);
      && s'.status == Uploading && s'.id == s.id
      && chunks' == chunks[(s.id, 0) := parts[0]]
    decreases |parts|
  {
    if |parts| > 1 {
      FirstChunkOnly(s, chunks, parts[..|parts| - 1], owner, now);
      assert parts[..|parts| - 1][0] == parts[0];
    }
  }
}
