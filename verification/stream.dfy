/** Input streams as the program uses them: a byte content with a read position, the
    position queries and seeks `stream_size` performs, and what `rdbuf()` copies. */
module Streams {
  import opened Wrappers
  import opened Bytes

  /** An opened binary input stream: its whole content and the current read position. */
  datatype Stream = Stream(data: seq<byte>, pos: nat) {
    /** The read position lies within the content (it may be at its end). */
    predicate Valid()
    {
      pos <= |data|
    }
  }

  /** Why the program stops before writing anything. */
  datatype SizeError =
    /** The remaining content has more bytes than a `uint32_t` can count. */
    SizeOverflow

  /** The size `stream_size` reports, together with the stream as it is left afterwards. */
  datatype Measured = Measured(size: uint32, stream: Stream)

  /** `tellg()`: the current read position. */
  function Tell(s: Stream): (p: nat)
    requires s.Valid()
    ensures p <= |s.data|
  {
    s.pos
  }

  /** `seekg(0, std::ios::end)`: moves the read position to the end of the content. */
  function SeekEnd(s: Stream): (t: Stream)
    ensures t.Valid() && t.data == s.data && Tell(t) == |s.data|
  {
    s.(pos := |s.data|)
  }

  /** `seekg(p, std::ios::beg)`: moves the read position to the absolute offset `p`. */
  function SeekTo(s: Stream, p: nat): (t: Stream)
    requires p <= |s.data|
    ensures t.Valid() && t.data == s.data && Tell(t) == p
  {
    s.(pos := p)
  }

  /** The bytes a full read from the current position yields; `out << s.rdbuf()` copies
      exactly these to the output. */
  function Remaining(s: Stream): (r: seq<byte>)
    requires s.Valid()
    ensures |r| + s.pos == |s.data|
    ensures s.data[..s.pos] + r == s.data
  {
    s.data[s.pos..]
  }

  /** `stream_size`: the number of bytes between the read position and the end of the
      stream, measured by seeking to the end and back, so the stream is left as it was.
      A count that does not fit in 32 bits stops the program. `stream_size` also tests for
      a negative count, but that test compares the count with its own cast to
      `std::streamsize`, which on LP64 platforms is the same type, so it never fires;
      positions here are naturals with the read position at most the end, so a negative
      count cannot arise. */
  function StreamSize(s: Stream): (r: Result<Measured, SizeError>)
    requires s.Valid()
    ensures r.Success? <==> |Remaining(s)| <= UINT32_MAX
    ensures r.Success? ==> r.value.size == |Remaining(s)|
    ensures r.Success? ==> r.value.stream == s
    ensures r.Failure? ==> r.error == SizeOverflow
  {
    var from := Tell(s);
    var atEnd := SeekEnd(s);
    var to := Tell(atEnd);
    var size := to - from;
    var restored := SeekTo(atEnd, from);
    if size > UINT32_MAX then Failure(SizeOverflow)
    else Success(Measured(size, restored))
  }
}
