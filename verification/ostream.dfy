/** The output file stream as `main` uses it: the bytes written so far and whether the
    stream has failed. A failed stream ignores every further insertion. */
module OutStreams {
  import opened Bytes

  /** An output file stream: what has reached the file, and whether failbit is set. */
  datatype OStream = OStream(written: seq<byte>, failed: bool)

  /** A freshly opened output file: empty, and in a good state. */
  const Opened: OStream := OStream([], false)

  /** Inserting bytes with `<<` (a string or a character) or with `write`: a good stream
      appends them and stays good; a failed stream is left exactly as it was. Inserting
      no bytes on a good stream (an empty string) does not fail it. */
  function Insert(o: OStream, bytes: seq<byte>): (r: OStream)
    ensures r.failed == o.failed
    ensures !o.failed ==> r.written == o.written + bytes
    ensures o.failed ==> r == o
  {
    if o.failed then o else o.(written := o.written + bytes)
  }

  /** `out << in.rdbuf()`: copies the bytes `in` still holds. When it copies no byte at all
      it sets failbit on `out` (section [ostream.inserters] of the ISO C++ standard, the
      inserter for `basic_streambuf*`), so an empty input fails the output stream. */
  function InsertBuffer(o: OStream, bytes: seq<byte>): (r: OStream)
    ensures r.failed <==> o.failed || bytes == []
    ensures r.failed ==> r.written == o.written
    ensures !r.failed ==> r.written == o.written + bytes
  {
    if o.failed then o
    else if bytes == [] then o.(failed := true)
    else o.(written := o.written + bytes)
  }

  /** Several insertions one after the other. */
  function InsertAll(o: OStream, parts: seq<seq<byte>>): (r: OStream)
    ensures r.failed == o.failed
    decreases |parts|
  {
    if |parts| == 0 then o else InsertAll(Insert(o, parts[0]), parts[1..])
  }

  /** Once the stream has failed, no sequence of insertions writes anything. */
  lemma {:induction false} FailedIgnoresAll(o: OStream, parts: seq<seq<byte>>)
    requires o.failed
    ensures InsertAll(o, parts) == o
    decreases |parts|
  {
    if |parts| > 0 {
      FailedIgnoresAll(Insert(o, parts[0]), parts[1..]);
    }
  }

  /** On a good stream, insertions append their bytes in order. */
  lemma {:induction false} GoodAppendsAll(o: OStream, parts: seq<seq<byte>>, next: seq<byte>)
    requires !o.failed
    ensures InsertAll(o, parts + [next]).written == InsertAll(o, parts).written + next
    decreases |parts|
  {
    if |parts| == 0 {
      assert parts + [next] == [next];
    } else {
      assert (parts + [next])[1..] == parts[1..] + [next];
      GoodAppendsAll(Insert(o, parts[0]), parts[1..], next);
    }
  }
}
