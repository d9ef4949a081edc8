/** The header arithmetic of `StreamDownload`: from the numbers a `Range` header yields
    and the stored file size, the status, Content-Length, Content-Range and the byte where
    the body starts. */
module Ranges {
  import opened Prelude

  /** What `fmt.Sscanf(header, "bytes=%d-%d", &start, &end)` leaves behind: a number that
      was not parsed stays 0. `NoRange` is an absent or empty header. */
  datatype RangeHeader = NoRange | Range(start: int64, end: int64)

  /** `Content-Range: bytes <first>-<last>/<total>`. */
  datatype ContentRange = ContentRange(first: int64, last: int64, total: int64)

  datatype Headers = Headers(
    status: int,
    contentLength: int64,
    contentRange: Option<ContentRange>,
    seekTo: int64)

  /** The end the handler uses: a zero or past-the-file end means "to the last byte". */
  function ClampedEnd(end: int64, size: int64): (last: int64)
    ensures size > Int64Min ==> last < size && (last == end || last == size - 1)
    ensures 0 < end < size ==> last == end
    ensures end < 0 <= size ==> last == end
    ensures size > Int64Min && (end == 0 || end >= size) ==> last == size - 1
  {
    if end == 0 || end >= size then Wrap64(size - 1) else end
  }

  /** The response headers as the handler sets them; sizes are Go int64 and wrap. The body
      starts where `file.Seek(start, 0)` leaves the file: at `start`, or at byte 0 when
      `start` is negative, since the seek then fails, the error is ignored and the offset
      stays where `os.Open` put it. */
  function Respond(h: RangeHeader, size: int64): (r: Headers)
    ensures r.status == StatusPartialContent <==> h.Range?
    ensures h.NoRange? ==> r.status == StatusOk && r.contentLength == size && r.contentRange.None?
    ensures r.seekTo >= 0
    ensures h.Range? && h.start >= 0 ==> r.seekTo == h.start
    ensures h.Range? && h.start < 0 ==> r.seekTo == 0
    ensures h.NoRange? ==> r.seekTo == 0
    ensures h.Range? ==>
      && r.contentRange.Some?
      && r.contentRange.value.first == h.start && r.contentRange.value.total == size
      && r.contentRange.value.last == ClampedEnd(h.end, size)
    ensures h.Range? && InInt64(ClampedEnd(h.end, size) - h.start + 1) ==>
      r.contentLength == ClampedEnd(h.end, size) - h.start + 1
  {
    match h
    case NoRange => Headers(StatusOk, size, None, 0)
    case Range(start, end) =>
      var last := ClampedEnd(end, size);
      Headers(StatusPartialContent, Wrap64(last - start + 1), Some(ContentRange(start, last, size)),
              if start < 0 then 0 else start)
  }

  /** A range that starts inside the file and does not end before it starts is served
      exactly: its length is the number of bytes from `start` through the clamped end. */
  lemma WellFormedRange(start: int64, end: int64, size: int64)
    requires 0 <= start < size
    requires start <= ClampedEnd(end, size)
    ensures var r := Respond(Range(start, end), size);
      && r.status == StatusPartialContent
      && 1 <= r.contentLength <= size - start
      && r.contentRange == Some(ContentRange(start, start + r.contentLength - 1, size))
  {
  }

  /** `bytes=0-99` on a 1000-byte file: 100 bytes, range descriptor 0-99/1000. */
  lemma FirstHundredBytes()
    ensures Respond(Range(0, 99), 1000) == Headers(StatusPartialContent, 100, Some(ContentRange(0, 99, 1000)), 0)
  {
  }

  // ---- Finding: the handler serves unsatisfiable ranges ----

  /** As written, `bytes=500-100` on a 1000-byte file is answered 206 with a negative
      Content-Length, and `bytes=2000-` with a range that starts past the file. */
  lemma UnsatisfiableRangeServed()
    ensures Respond(Range(500, 100), 1000).status == StatusPartialContent
    ensures Respond(Range(500, 100), 1000).contentLength == -399
    ensures Respond(Range(2000, 0), 1000).status == StatusPartialContent
    ensures Respond(Range(2000, 0), 1000).contentRange == Some(ContentRange(2000, 999, 1000))
  {
  }

  /** As written, the suffix range `bytes=-500` (Sscanf leaves start -500 and end 0) on a
      1000-byte file announces bytes -500..999 and 1500 bytes, while the body is the whole
      file from byte 0. */
  lemma SuffixRangeMislabelled()
    ensures Respond(Range(-500, 0), 1000) ==
      Headers(StatusPartialContent, 1500, Some(ContentRange(-500, 999, 1000)), 0)
  {
  }

  /** The intended response: 416 for a range that starts before the file, past it, or
      after its own (clamped) end; otherwise what the handler answers. */
  function RespondChecked(h: RangeHeader, size: int64): (r: Headers)
    ensures r.status == StatusRangeNotSatisfiable <==>
      h.Range? && (h.start < 0 || h.start >= size || h.start > ClampedEnd(h.end, size))
    ensures r.status != StatusRangeNotSatisfiable ==> r == Respond(h, size)
    ensures r.status == StatusPartialContent ==>
      && r.contentRange.Some?
      && 0 <= r.contentRange.value.first <= r.contentRange.value.last < size
      && r.contentLength == r.contentRange.value.last - r.contentRange.value.first + 1
      && r.seekTo == r.contentRange.value.first
      && 1 <= r.contentLength <= size
  {
    match h
    case NoRange => Respond(h, size)
    case Range(start, end) =>
      if start < 0 || start >= size || start > ClampedEnd(end, size)
      then Headers(StatusRangeNotSatisfiable, 0, None, 0)
      else Respond(h, size)
  }
}
