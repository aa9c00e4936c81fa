/** Runs in which appends may also fail half-way: where frames then really start, and what is still readable. */
module JournalFaults {
  import opened Wrappers
  import opened Bytes
  import opened Types
  import opened Frame
  import opened JournalLog
  import opened JournalRuns
  import opened JournalSteps
  import opened JournalTorn
  import Crc32

  /** A step without I/O failure, or a failed append that left a part of its frame. */
  datatype Move<P> =
    | Fine(event: Event<P>)
    | Failed(lost: Envelope<P>, part: seq<byte>)

  ghost predicate Moves<P>(c: Codec<P>, d: Disk, v: Move<P>, d': Disk) {
    match v
    case Fine(ev) => Step(c, d, ev, d')
    case Failed(e, part) => FailedAppend(c, d, e, part, d')
  }

  /** A run over a file that was empty when first opened. */
  ghost predicate FaultyRun<P>(c: Codec<P>, ds: seq<Disk>, vs: seq<Move<P>>) {
    && |ds| == |vs| + 1
    && ds[0] == Disk(HEADER, [], FILE_HEADER_LEN, 0, 0)
    && forall i :: 0 <= i < |vs| ==> Moves(c, ds[i], vs[i], ds[i + 1])
  }

  /** The bytes that failed appends have left behind since the file was last opened. */
  function Leftover<P>(vs: seq<Move<P>>): nat {
    if vs == [] then 0
    else
      var before := Leftover(vs[..|vs| - 1]);
      match vs[|vs| - 1]
      case Failed(_, part) => before + |part|
      case Fine(ev) => if ev.Reopened? then 0 else before
  }

  /** How far one move takes the stream past the write head. */
  lemma MoveDrifts<P>(c: Codec<P>, d: Disk, v: Move<P>, d': Disk, drift: nat)
    requires Moves(c, d, v, d') && |d.Stream()| == d.offset + drift
    ensures d.Stream() <= d'.Stream()
    ensures |d'.Stream()| == d'.offset
         + match v case Failed(_, part) => drift + |part| case Fine(ev) => if ev.Reopened? then 0 else drift
    ensures v.Fine? && v.event.Appended? ==>
      && c.encode(v.event.record).Some?
      && d'.Stream() == d.Stream() + FrameOf(c.crc, c.encode(v.event.record).value)
      && v.event.position == JournalPosition(v.event.record.sequence, d.offset)
  {
    hide FrameOf;
  }

  /** The write head stays behind the end of the stream by exactly that much. */
  lemma {:induction false} WriteHeadDrifts<P>(c: Codec<P>, ds: seq<Disk>, vs: seq<Move<P>>)
    requires FaultyRun(c, ds, vs)
    ensures |ds[|vs|].Stream()| == ds[|vs|].offset + Leftover(vs)
    decreases |vs|
  {
    hide Moves;
    if vs != [] {
      var n := |vs| - 1;
      WriteHeadDrifts(c, ds[..n + 1], vs[..n]);
      MoveDrifts(c, ds[n], vs[n], ds[n + 1], Leftover(vs[..n]));
    }
  }

  /** What is in the stream stays where it is. */
  lemma {:induction false} StreamOnlyGrows<P>(c: Codec<P>, ds: seq<Disk>, vs: seq<Move<P>>, i: nat)
    requires FaultyRun(c, ds, vs) && i <= |vs|
    ensures ds[i].Stream() <= ds[|vs|].Stream()
    decreases |vs|
  {
    hide Moves;
    if i < |vs| {
      var n := |vs| - 1;
      StreamOnlyGrows(c, ds[..n + 1], vs[..n], i);
      WriteHeadDrifts(c, ds[..n + 1], vs[..n]);
      MoveDrifts(c, ds[n], vs[n], ds[n + 1], Leftover(vs[..n]));
    }
  }

  /**
   * So a position returned by `append` is short of its frame's start by the leftovers since the file was last opened:
   * the frame stands that much further on, and stays there.
   */
  lemma PositionsDrift<P>(c: Codec<P>, ds: seq<Disk>, vs: seq<Move<P>>, i: nat)
    requires FaultyRun(c, ds, vs) && i < |vs| && vs[i].Fine? && vs[i].event.Appended?
    ensures var e, position := vs[i].event.record, vs[i].event.position;
            var at := position.byteOffset + Leftover(vs[..i]);
            && position.sequence == e.sequence
            && c.encode(e).Some?
            && var frame := FrameOf(c.crc, c.encode(e).value);
            && at == |ds[i].Stream()|
            && at + |frame| <= |ds[|vs|].Stream()|
            && ds[|vs|].Stream()[at..at + |frame|] == frame
  {
    hide Moves, FrameOf;
    WriteHeadDrifts(c, ds[..i + 1], vs[..i]);
    MoveDrifts(c, ds[i], vs[i], ds[i + 1], Leftover(vs[..i]));
    StreamOnlyGrows(c, ds, vs, i + 1);
  }

  // ----- what is readable -------------------------------------------------------------------

  /** The envelopes whose whole frames the run wrote, whether or not `append` reported success. */
  function Kept<P>(c: Codec<P>, vs: seq<Move<P>>): seq<Envelope<P>> {
    if vs == [] then [] else Kept(c, vs[..|vs| - 1]) + KeptBy(c, vs[|vs| - 1])
  }

  function KeptBy<P>(c: Codec<P>, v: Move<P>): seq<Envelope<P>> {
    match v
    case Fine(ev) => if ev.Appended? then [ev.record] else []
    case Failed(e, part) => if IsWhole(c, e, part) then [e] else []
  }

  predicate IsWhole<P>(c: Codec<P>, e: Envelope<P>, part: seq<byte>) {
    c.encode(e).Some? && part == FrameOf(c.crc, c.encode(e).value)
  }

  /** A move that left a part of a frame, but neither nothing nor all of it. */
  predicate Tears<P>(c: Codec<P>, v: Move<P>) {
    v.Failed? && v.part != [] && !IsWhole(c, v.lost, v.part)
  }

  /** No failed append of the run left a part of its frame that is neither nothing nor all of it. */
  ghost predicate NothingTorn<P>(c: Codec<P>, vs: seq<Move<P>>) {
    forall v :: v in vs ==> !Tears(c, v)
  }

  /** The stream is the log of these envelopes, or longer if something is torn. */
  ghost predicate Holds<P>(c: Codec<P>, d: Disk, es: seq<Envelope<P>>, whole: bool) {
    var ps := Encodings(c, es);
    && Accepted(c, es, ps) && Sized(ps)
    && HEADER <= d.Stream()
    && if whole then d.Stream() == Log(c.crc, ps) else |d.Stream()| > |Log(c.crc, ps)|
  }

  lemma MoveHolds<P>(c: Codec<P>, d: Disk, v: Move<P>, d': Disk, es: seq<Envelope<P>>, whole: bool, drift: nat)
    requires Moves(c, d, v, d') && Holds(c, d, es, whole) && |d.Stream()| == d.offset + drift
    ensures Holds(c, d', es + KeptBy(c, v), whole && !Tears(c, v))
  {
    hide FrameOf, Frames, Log;
    MoveDrifts(c, d, v, d', drift);
    var kept := KeptBy(c, v);
    if kept == [] {
      assert es + kept == es;
    } else {
      var e := kept[0];
      assert kept == [e];
      assert Encodings(c, es + [e]) == Encodings(c, es) + [c.encode(e).value];
      LogOfOneMore(c.crc, Encodings(c, es), c.encode(e).value);
    }
  }

  lemma {:induction false} RunHolds<P>(c: Codec<P>, ds: seq<Disk>, vs: seq<Move<P>>)
    requires FaultyRun(c, ds, vs)
    ensures Holds(c, ds[|vs|], Kept(c, vs), NothingTorn(c, vs))
    decreases |vs|
  {
    hide Moves, Holds, Tears;
    if vs == [] {
      EmptyHolds(c);
    } else {
      var n := |vs| - 1;
      RunHolds(c, ds[..n + 1], vs[..n]);
      WriteHeadDrifts(c, ds[..n + 1], vs[..n]);
      MoveHolds(c, ds[n], vs[n], ds[n + 1], Kept(c, vs[..n]), NothingTorn(c, vs[..n]), Leftover(vs[..n]));
      assert vs == vs[..n] + [vs[n]];
    }
  }

  lemma EmptyHolds<P>(c: Codec<P>)
    ensures Holds(c, Disk(HEADER, [], FILE_HEADER_LEN, 0, 0), [], true)
  {
    assert Log(c.crc, []) == HEADER;
  }

  /**
   * Over every run of appends, failed appends, spills, flushes and reopenings: with nothing pending, the file reads
   * back, with a clean end, as exactly the envelopes whose whole frames were written if and only if nothing is torn and
   * all of them are valid.
   */
  lemma FaultyRunReadsBack<P(!new)>(c: Codec<P>, ds: seq<Disk>, vs: seq<Move<P>>)
    requires Lawful(c) && FaultyRun(c, ds, vs) && ds[|vs|].pending == []
    ensures FILE_HEADER_LEN <= |ds[|vs|].file|
    ensures var kept := Kept(c, vs);
            && (ReadsAs(c, ds[|vs|].file, Encodings(c, kept)) <==> NothingTorn(c, vs) && AllValid(kept))
            && (NothingTorn(c, vs) && AllValid(kept) ==> Scan(c, ds[|vs|].file, FILE_HEADER_LEN).records == kept)
  {
    hide Moves, Kept, NothingTorn, AllValid, ReadsAs, Log, Frames, Scan;
    RunHolds(c, ds, vs);
    var kept, file := Kept(c, vs), ds[|vs|].file;
    assert ds[|vs|].Stream() == file;
    ReadsAsLog(c, kept, Encodings(c, kept), file);
    ReadBack(c, kept, Encodings(c, kept));
  }

  /** Whatever is torn later, what was written before the first tear is read back as long as it is valid. */
  lemma ReadUpToTheTear<P(!new)>(c: Codec<P>, ds: seq<Disk>, vs: seq<Move<P>>, i: nat)
    requires Lawful(c) && FaultyRun(c, ds, vs) && ds[|vs|].pending == []
    requires i <= |vs| && NothingTorn(c, vs[..i]) && AllValid(Kept(c, vs[..i]))
    ensures FILE_HEADER_LEN <= |ds[|vs|].file|
    ensures Kept(c, vs[..i]) <= Scan(c, ds[|vs|].file, FILE_HEADER_LEN).records
  {
    hide Moves, Kept, NothingTorn, AllValid, Log, Frames, Scan;
    RunHolds(c, ds[..i + 1], vs[..i]);
    StreamOnlyGrows(c, ds, vs, i);
    var kept, file := Kept(c, vs[..i]), ds[|vs|].file;
    var ps := Encodings(c, kept);
    assert ds[|vs|].Stream() == file;
    assert kept[..|kept|] == kept && ps[..|kept|] == ps;
    LogTail(c.crc, ps);
    assert file == Log(c.crc, ps) + file[|Log(c.crc, ps)|..];
    ScanTo(c, kept, ps, |kept|, file[|Log(c.crc, ps)|..]);
  }
}
