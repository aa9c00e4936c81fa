/** What the journal's calls do to the file, the write buffer and the counters, as steps between snapshots. */
module JournalSteps {
  import opened Wrappers
  import opened Numbers
  import opened Bytes
  import opened Types
  import opened Frame

  datatype JournalPosition = JournalPosition(sequence: u64, byteOffset: nat)

  /** `added` was written: the stream grew by it, and some prefix of what was buffered may have spilled to the file. */
  ghost predicate Grew(file: seq<byte>, pending: seq<byte>, file': seq<byte>, pending': seq<byte>, added: seq<byte>) {
    file' + pending' == file + pending + added && file <= file'
  }

  lemma GrewTwice(f0: seq<byte>, p0: seq<byte>, f1: seq<byte>, p1: seq<byte>, f2: seq<byte>, p2: seq<byte>,
                  a: seq<byte>, b: seq<byte>)
    requires Grew(f0, p0, f1, p1, a) && Grew(f1, p1, f2, p2, b)
    ensures Grew(f0, p0, f2, p2, a + b)
  {
    assert f0 + p0 + (a + b) == f0 + p0 + a + b;
  }

  /** A journal between two calls. */
  datatype Disk = Disk(file: seq<byte>, pending: seq<byte>, offset: nat, appended: nat, written: nat) {
    function Stream(): seq<byte> {
      file + pending
    }
  }

  datatype Event<P> =
    | Appended(record: Envelope<P>, position: JournalPosition)
    | Rejected(refused: Envelope<P>)
    | Spilled
    | Flushed
    | Reopened

  /** The steps without I/O failure; each is what the like-named method of `FileJournal` ensures. */
  ghost predicate Step<P>(c: Codec<P>, d: Disk, ev: Event<P>, d': Disk) {
    match ev
    case Appended(e, position) =>
      && c.encode(e).Some? && ValidateFrameLength(|c.encode(e).value|, d.offset) == None
      && var frame := FrameOf(c.crc, c.encode(e).value);
      && position == JournalPosition(e.sequence, d.offset)
      && Grew(d.file, d.pending, d'.file, d'.pending, frame)
      && d'.offset == d.offset + |frame| && d'.appended == d.appended + 1 && d'.written == d.written + |frame|
    case Rejected(e) =>
      && (c.encode(e) == None || ValidateFrameLength(|c.encode(e).value|, d.offset).Some?)
      && d' == d
    case Spilled =>
      && Grew(d.file, d.pending, d'.file, d'.pending, [])
      && d' == d.(file := d'.file, pending := d'.pending)
    case Flushed => d' == d.(file := d.Stream(), pending := [])
    case Reopened =>
      && FILE_HEADER_LEN <= |d.Stream()| && ValidateHeader(d.Stream()[..FILE_HEADER_LEN]) == None
      && d' == Disk(d.Stream(), [], |d.Stream()|, 0, 0)
  }

  /** An append that fails in a write: any part of its frame is in the stream, and nothing else has changed. */
  ghost predicate FailedAppend<P>(c: Codec<P>, d: Disk, e: Envelope<P>, part: seq<byte>, d': Disk) {
    && c.encode(e).Some? && ValidateFrameLength(|c.encode(e).value|, d.offset) == None
    && part <= FrameOf(c.crc, c.encode(e).value)
    && Grew(d.file, d.pending, d'.file, d'.pending, part)
    && d' == d.(file := d'.file, pending := d'.pending)
  }
}
