/** Every run of open, append, flush, spill and reopen over one file, as a state machine over its steps. */
module JournalRuns {
  import opened Wrappers
  import opened Bytes
  import opened Types
  import opened Frame
  import opened JournalLog
  import opened JournalSteps
  import Crc32

  /** A run over a file that was empty when first opened. */
  ghost predicate Run<P>(c: Codec<P>, ds: seq<Disk>, evs: seq<Event<P>>) {
    && |ds| == |evs| + 1
    && ds[0] == Disk(HEADER, [], FILE_HEADER_LEN, 0, 0)
    && forall i :: 0 <= i < |evs| ==> Step(c, ds[i], evs[i], ds[i + 1])
  }

  /** The envelopes a run has appended, in order, and the positions it returned for them. */
  function Records<P>(evs: seq<Event<P>>): seq<Envelope<P>> {
    if evs == [] then []
    else
      var last := evs[|evs| - 1];
      Records(evs[..|evs| - 1]) + if last.Appended? then [last.record] else []
  }

  function Positions<P>(evs: seq<Event<P>>): (s: seq<JournalPosition>)
    ensures |s| == |Records(evs)|
  {
    if evs == [] then []
    else
      var last := evs[|evs| - 1];
      Positions(evs[..|evs| - 1]) + if last.Appended? then [last.position] else []
  }

  function Encodings<P>(c: Codec<P>, es: seq<Envelope<P>>): (ps: seq<seq<byte>>)
    ensures |ps| == |es|
    ensures forall i :: 0 <= i < |es| && c.encode(es[i]).Some? ==> ps[i] == c.encode(es[i]).value
  {
    seq(|es|, i requires 0 <= i < |es| => match c.encode(es[i]) case Some(p) => p case None => [])
  }

  /** File plus buffer is the log of the appended envelopes, and the write head is at its end. */
  ghost predicate Intact<P>(c: Codec<P>, d: Disk, es: seq<Envelope<P>>) {
    var ps := Encodings(c, es);
    && Accepted(c, es, ps)
    && d.Stream() == Log(c.crc, ps)
    && d.offset == |Log(c.crc, ps)|
    && HEADER <= d.file
  }

  lemma IntactAppend<P>(c: Codec<P>, d: Disk, d': Disk, es: seq<Envelope<P>>, e: Envelope<P>, position: JournalPosition)
    requires Intact(c, d, es) && Step(c, d, Appended(e, position), d')
    ensures Intact(c, d', es + [e])
    ensures position.byteOffset == Start(c.crc, Encodings(c, es + [e]), |es|)
  {
    hide FrameOf, Frames;
    var ps, ps' := Encodings(c, es), Encodings(c, es + [e]);
    assert ps' == ps + [c.encode(e).value];
    LogSplit(c.crc, ps', |es|);
    assert ps'[..|es|] == ps && ps'[|es| + 1..] == [];
    assert Frames(c.crc, []) == [] by { FramesOfNone(c.crc); }
    assert Log(c.crc, ps') == Log(c.crc, ps) + FrameOf(c.crc, c.encode(e).value);
  }

  lemma FramesOfNone(p: Crc32.Params)
    ensures Frames(p, []) == []
  {
  }

  lemma IntactOtherwise<P>(c: Codec<P>, d: Disk, d': Disk, es: seq<Envelope<P>>, ev: Event<P>)
    requires Intact(c, d, es) && Step(c, d, ev, d') && !ev.Appended?
    ensures Intact(c, d', es)
  {
    hide FrameOf, Frames, Log, Accepted;
    if ev.Spilled? {
      assert d.Stream() + [] == d.Stream();
    } else if ev.Flushed? || ev.Reopened? {
      assert d'.Stream() == d.Stream();
      assert d.file <= d.Stream();
    }
  }

  lemma EarlierStartsStay<P>(c: Codec<P>, es: seq<Envelope<P>>, e: Envelope<P>)
    ensures forall i :: 0 <= i < |es| ==> Start(c.crc, Encodings(c, es), i) == Start(c.crc, Encodings(c, es + [e]), i)
  {
    hide Log;
    forall i | 0 <= i < |es| ensures Encodings(c, es)[..i] == Encodings(c, es + [e])[..i] {
    }
  }

  /** Every run keeps the log intact, and every position it returned is the start of its own frame. */
  lemma {:induction false} RunKeepsLog<P>(c: Codec<P>, ds: seq<Disk>, evs: seq<Event<P>>)
    requires Run(c, ds, evs)
    ensures Intact(c, ds[|evs|], Records(evs))
    ensures forall i :: 0 <= i < |Records(evs)| ==>
      && Positions(evs)[i] == JournalPosition(Records(evs)[i].sequence, Start(c.crc, Encodings(c, Records(evs)), i))
    decreases |evs|
  {
    hide Log, Step, Intact;
    if evs == [] {
      assert Intact(c, ds[0], []) by { EmptyIsIntact(c); }
    } else {
      var n := |evs| - 1;
      RunKeepsLog(c, ds[..n + 1], evs[..n]);
      var es := Records(evs[..n]);
      if evs[n].Appended? {
        var e := evs[n].record;
        IntactAppend(c, ds[n], ds[n + 1], es, e, evs[n].position);
        StepPosition(c, ds[n], e, evs[n].position, ds[n + 1]);
        EarlierStartsStay(c, es, e);
      } else {
        IntactOtherwise(c, ds[n], ds[n + 1], es, evs[n]);
        assert Records(evs) == es && Positions(evs) == Positions(evs[..n]);
      }
    }
  }

  /** The records appended since the file was last opened. */
  function SinceOpened<P>(evs: seq<Event<P>>): seq<Envelope<P>> {
    if evs == [] || evs[|evs| - 1].Reopened? then []
    else
      var last := evs[|evs| - 1];
      SinceOpened(evs[..|evs| - 1]) + if last.Appended? then [last.record] else []
  }

  /** The two counters: how many records those are, and how many bytes their frames take. */
  lemma {:induction false} RunCounts<P>(c: Codec<P>, ds: seq<Disk>, evs: seq<Event<P>>)
    requires Run(c, ds, evs)
    ensures ds[|evs|].appended == |SinceOpened(evs)|
    ensures ds[|evs|].written == |Frames(c.crc, Encodings(c, SinceOpened(evs)))|
    decreases |evs|
  {
    hide FrameOf;
    if evs == [] {
      NothingEncoded(c);
    } else {
      var n := |evs| - 1;
      RunCounts(c, ds[..n + 1], evs[..n]);
      NothingEncoded(c);
      assert Step(c, ds[n], evs[n], ds[n + 1]);
      var es := SinceOpened(evs[..n]);
      if evs[n].Appended? {
        var q := c.encode(evs[n].record).value;
        assert Encodings(c, es + [evs[n].record]) == Encodings(c, es) + [q];
        LogOfOneMore(c.crc, Encodings(c, es), q);
      } else if !evs[n].Reopened? {
        assert SinceOpened(evs) == es + [] == es;
      }
    }
  }

  lemma NothingEncoded<P>(c: Codec<P>)
    ensures Encodings(c, []) == [] && Frames(c.crc, []) == []
  {
  }

  lemma StepPosition<P>(c: Codec<P>, d: Disk, e: Envelope<P>, position: JournalPosition, d': Disk)
    requires Step(c, d, Appended(e, position), d')
    ensures position.sequence == e.sequence
  {
  }

  lemma EmptyIsIntact<P>(c: Codec<P>)
    ensures Intact(c, Disk(HEADER, [], FILE_HEADER_LEN, 0, 0), [])
  {
    assert Log(c.crc, []) == HEADER;
  }

  /**
   * How one appended envelope can end the iteration of a file of `size` bytes: its frame is cut off, or it is invalid.
   */
  ghost predicate StoppedBy<P>(c: Codec<P>, e: Envelope<P>, at: nat, size: nat, error: JournalError)
    requires c.encode(e).Some?
  {
    var length := |c.encode(e).value|;
    || (at < size < at + FRAME_OVERHEAD + length && error == CutError(at, length, size - at))
    || (!IsValid(e) && error == JournalError.Types(Validate(e).value))
  }

  /**
   * At every moment of every run the file on disk reads back as a prefix of what was appended. What ends it early is
   * the truncation of the frame cut off, or the first invalid envelope's own violation, at that record's position.
   */
  lemma RunReadsPrefix<P(!new)>(c: Codec<P>, ds: seq<Disk>, evs: seq<Event<P>>)
    requires Lawful(c) && Run(c, ds, evs)
    ensures var file, es := ds[|evs|].file, Records(evs);
            && FILE_HEADER_LEN <= |file|
            && var s := Scan(c, file, FILE_HEADER_LEN);
            && s.records <= es
            && AllValid(s.records)
            && s.next == Start(c.crc, Encodings(c, es), |s.records|)
            && (s.stop.Some? ==>
              && |s.records| < |es|
              && c.encode(es[|s.records|]).Some?
              && StoppedBy(c, es[|s.records|], s.next, |file|, s.stop.value))
            && (ds[|evs|].pending == [] && AllValid(es) ==> s == Scanned(es, None, |file|))
  {
    hide Frames, Log, Step, AllValid, IsValid, FrameOf, Scan;
    RunKeepsLog(c, ds, evs);
    var d, es := ds[|evs|], Records(evs);
    var ps := Encodings(c, es);
    var k := |d.file|;
    assert d.file == Log(c.crc, ps)[..k];
    CutFile(c, es, ps, k);
    var m := WholeFrames(c.crc, ps, k);
    if !AllValid(es[..m]) {
      var i := FirstInvalid(es[..m]);
      assert es[..m][..i] == es[..i];
    }
    if d.pending == [] {
      ReadBack(c, es, ps);
      assert d.Stream() == d.file;
    }
  }

  /** After a flush a run's records all read back without an error exactly when every one of them is valid. */
  lemma FlushedRunReadsBack<P(!new)>(c: Codec<P>, ds: seq<Disk>, evs: seq<Event<P>>)
    requires Lawful(c) && Run(c, ds, evs) && ds[|evs|].pending == []
    ensures FILE_HEADER_LEN <= |ds[|evs|].file|
    ensures var s := Scan(c, ds[|evs|].file, FILE_HEADER_LEN);
            (s.records == Records(evs) && s.stop == None) <==> AllValid(Records(evs))
  {
    hide Frames, Log, Step, AllValid;
    RunKeepsLog(c, ds, evs);
    ReadBack(c, Records(evs), Encodings(c, Records(evs)));
    assert ds[|evs|].Stream() == ds[|evs|].file;
  }
}
