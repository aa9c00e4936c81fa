/** What records appended behind a torn frame are worth: after reopening a cut file, and after a failed append. */
module JournalTorn {
  import opened Wrappers
  import opened Bytes
  import opened Types
  import opened Frame
  import opened JournalLog
  import Crc32

  /** The journal `data` reads without an error, and as exactly the records with these payloads. */
  ghost predicate ReadsAs<P>(c: Codec<P>, data: seq<byte>, ps: seq<seq<byte>>)
    requires FILE_HEADER_LEN <= |data|
  {
    Scan(c, data, FILE_HEADER_LEN).stop == None && AcceptedPayloads(c, data, FILE_HEADER_LEN) == ps
  }

  ghost predicate Sized(ps: seq<seq<byte>>) {
    forall i :: 0 <= i < |ps| ==> 1 <= |ps[i]| <= MAX_FRAME_LEN
  }

  lemma SameFrame(p: Crc32.Params, a: seq<byte>, b: seq<byte>, x: seq<byte>, y: seq<byte>)
    requires 1 <= |a| <= MAX_FRAME_LEN && 1 <= |b| <= MAX_FRAME_LEN
    requires FrameOf(p, a) + x == FrameOf(p, b) + y
    ensures a == b && x == y
  {
    hide Le, Crc32.Checksum;
    var s := FrameOf(p, a) + x;
    assert s[..4] == Le(4, |a|) && s[..4] == Le(4, |b|);
    WordSizes();
    LeRoundTrip(4, |a|);
    LeRoundTrip(4, |b|);
    assert s[4..4 + |a|] == a && s[4..4 + |b|] == b;
    assert s[8 + |a|..] == x && s[8 + |b|..] == y;
  }

  /** The bytes of a run of frames determine the payloads. */
  lemma {:induction false} FramesDetermine(p: Crc32.Params, a: seq<seq<byte>>, b: seq<seq<byte>>)
    requires Sized(a) && Sized(b) && Frames(p, a) == Frames(p, b)
    ensures a == b
  {
    hide FrameOf;
    if a != [] && b != [] {
      SameFrame(p, a[0], b[0], Frames(p, a[1..]), Frames(p, b[1..]));
      FramesDetermine(p, a[1..], b[1..]);
      assert a == [a[0]] + a[1..] && b == [b[0]] + b[1..];
    }
  }

  /** A clean scan accepts the payloads `ps` if and only if the bytes are the log of `ps`. */
  lemma CleanMeansLog<P(!new)>(c: Codec<P>, data: seq<byte>, ps: seq<seq<byte>>)
    requires FILE_HEADER_LEN <= |data| && Sized(ps) && Scan(c, data, FILE_HEADER_LEN).stop == None
    ensures AcceptedPayloads(c, data, FILE_HEADER_LEN) == ps <==> data[FILE_HEADER_LEN..] == Frames(c.crc, ps)
  {
    hide Scan, AcceptedPayloads, Frames, IsValid;
    ScanIsExact(c, data, FILE_HEADER_LEN);
    var s, got := Scan(c, data, FILE_HEADER_LEN), AcceptedPayloads(c, data, FILE_HEADER_LEN);
    assert data[FILE_HEADER_LEN..s.next] == data[FILE_HEADER_LEN..];
    if data[FILE_HEADER_LEN..] == Frames(c.crc, ps) {
      FramesDetermine(c.crc, got, ps);
    }
  }

  /**
   * A log is cut anywhere past its header, reopened, and any envelopes are appended behind the cut. The earlier whole
   * records are always yielded. The new ones are read back, with a clean end, if and only if the cut is a frame
   * boundary and everything kept and appended is valid.
   */
  lemma ReopenedAndAppended<P(!new)>(c: Codec<P>, es: seq<Envelope<P>>, ps: seq<seq<byte>>, k: nat,
                                     fs: seq<Envelope<P>>, qs: seq<seq<byte>>)
    requires Lawful(c) && Accepted(c, es, ps) && Accepted(c, fs, qs)
    requires FILE_HEADER_LEN <= k <= |Log(c.crc, ps)|
    ensures var data := Log(c.crc, ps)[..k] + Frames(c.crc, qs);
            var m := WholeFrames(c.crc, ps, k);
            && (AllValid(es[..m]) ==> es[..m] <= Scan(c, data, FILE_HEADER_LEN).records)
            && (ReadsAs(c, data, ps[..m] + qs) <==>
                k == Start(c.crc, ps, m) && AllValid(es[..m]) && AllValid(fs))
  {
    hide FrameOf, Frames, IsValid, AllValid, Log, Scan, AcceptedPayloads, ReadFrame, Sized;
    var m := WholeFrames(c.crc, ps, k);
    var before, later := Log(c.crc, ps[..m]), Frames(c.crc, qs);
    var data := Log(c.crc, ps)[..k] + later;
    CutAtFrame(c, ps, k);
    var torn := Log(c.crc, ps)[|before|..k];
    assert data == before + (torn + later);
    if AllValid(es[..m]) {
      ScanTo(c, es, ps, m, torn + later);
    }
    BothAccepted(c, es, ps, m, fs, qs);
    LogOfMore(c.crc, ps[..m], qs);
    LogTail(c.crc, ps[..m]);
    ReadsAsLog(c, es[..m] + fs, ps[..m] + qs, data);
    BothValid(es[..m], fs);
    if k == |before| {
      assert torn + later == later;
    }
  }

  /**
   * Any bytes read as the payloads of accepted envelopes if and only if they are their log and all of them are valid.
   */
  lemma ReadsAsLog<P(!new)>(c: Codec<P>, es: seq<Envelope<P>>, ps: seq<seq<byte>>, data: seq<byte>)
    requires Lawful(c) && Accepted(c, es, ps) && Sized(ps)
    requires FILE_HEADER_LEN <= |data| && data[..FILE_HEADER_LEN] == HEADER
    ensures ReadsAs(c, data, ps) <==> data == Log(c.crc, ps) && AllValid(es)
  {
    hide FrameOf, Frames, IsValid, AllValid, Scan, AcceptedPayloads, ReadFrame, Accepted, Sized;
    assert data == data[..FILE_HEADER_LEN] + data[FILE_HEADER_LEN..];
    LogTail(c.crc, ps);
    ReadBack(c, es, ps);
    if Scan(c, data, FILE_HEADER_LEN).stop == None {
      CleanMeansLog(c, data, ps);
    }
  }

  lemma CutAtFrame<P>(c: Codec<P>, ps: seq<seq<byte>>, k: nat)
    requires FILE_HEADER_LEN <= k <= |Log(c.crc, ps)|
    ensures var m := WholeFrames(c.crc, ps, k);
            |Log(c.crc, ps[..m])| <= k && Log(c.crc, ps[..m]) == Log(c.crc, ps)[..|Log(c.crc, ps[..m])|]
  {
    hide FrameOf, Frames;
    var m := WholeFrames(c.crc, ps, k);
    if m < |ps| {
      LogSplit(c.crc, ps, m);
    } else {
      assert ps[..m] == ps;
    }
  }

  lemma LogTail(p: Crc32.Params, ps: seq<seq<byte>>)
    ensures FILE_HEADER_LEN <= |Log(p, ps)|
    ensures Log(p, ps)[..FILE_HEADER_LEN] == HEADER && Log(p, ps)[FILE_HEADER_LEN..] == Frames(p, ps)
  {
  }

  lemma LogOfMore(p: Crc32.Params, ps: seq<seq<byte>>, qs: seq<seq<byte>>)
    ensures Log(p, ps + qs) == Log(p, ps) + Frames(p, qs)
  {
    FramesConcat(p, ps, qs);
  }

  lemma BothAccepted<P>(c: Codec<P>, es: seq<Envelope<P>>, ps: seq<seq<byte>>, m: nat,
                        fs: seq<Envelope<P>>, qs: seq<seq<byte>>)
    requires Accepted(c, es, ps) && m <= |es| && Accepted(c, fs, qs)
    ensures Accepted(c, es[..m] + fs, ps[..m] + qs) && Sized(ps[..m] + qs)
  {
  }

  lemma BothValid<P>(es: seq<Envelope<P>>, fs: seq<Envelope<P>>)
    ensures AllValid(es + fs) <==> AllValid(es) && AllValid(fs)
  {
    hide IsValid;
    if AllValid(es + fs) {
      assert (es + fs)[..|es|] == es && (es + fs)[|es|..] == fs;
    }
  }

  /**
   * A failed append may leave any part of its frame behind a log. What is appended after it then reads back, all valid,
   * exactly if that is all or nothing of the frame.
   */
  lemma AppendedAfterFailure<P(!new)>(c: Codec<P>, es: seq<Envelope<P>>, ps: seq<seq<byte>>,
                                      d: Envelope<P>, q: seq<byte>, part: seq<byte>,
                                      fs: seq<Envelope<P>>, qs: seq<seq<byte>>)
    requires Lawful(c) && Accepted(c, es + [d], ps + [q]) && Accepted(c, fs, qs)
    requires AllValid(es + [d]) && AllValid(fs)
    requires part <= FrameOf(c.crc, q)
    ensures var data := Log(c.crc, ps) + part + Frames(c.crc, qs);
            var kept := if part == FrameOf(c.crc, q) then ps + [q] else ps;
            && es <= Scan(c, data, FILE_HEADER_LEN).records
            && (ReadsAs(c, data, kept + qs) <==> part == [] || part == FrameOf(c.crc, q))
  {
    hide FrameOf, Frames, IsValid, AllValid, Log, Scan, AcceptedPayloads, ReadsAs;
    var all := ps + [q];
    var k := |Log(c.crc, ps)| + |part|;
    LogOfOneMore(c.crc, ps, q);
    LogTail(c.crc, ps);
    assert Log(c.crc, all)[..k] == Log(c.crc, ps) + part;
    assert all[..|ps|] == ps && all[..|ps| + 1] == all;
    var m := WholeFrames(c.crc, all, k);
    LastFrameStarts(c.crc, all, k, m);
    PrefixValid(es + [d], m);
    ReopenedAndAppended(c, es + [d], all, k, fs, qs);
    assert (es + [d])[..|es|] == es;
  }

  lemma PrefixValid<P>(es: seq<Envelope<P>>, m: nat)
    requires AllValid(es) && m <= |es|
    ensures AllValid(es[..m])
  {
  }

  /** Which frame a cut inside the last frame falls into. */
  lemma LastFrameStarts(p: Crc32.Params, all: seq<seq<byte>>, k: nat, m: nat)
    requires all != [] && m <= |all| && Start(p, all, |all| - 1) <= k <= Start(p, all, |all|)
    requires Start(p, all, m) <= k && (m < |all| ==> k < Start(p, all, m + 1))
    ensures m == if k == Start(p, all, |all|) then |all| else |all| - 1
  {
    hide Log;
    if m < |all| - 1 {
      StartsGrow(p, all, m + 1, |all| - 1);
    }
  }

  /** A torn frame whose length prefix survived swallows what follows, up to the payload it announces. */
  lemma TornFrameSwallows<P(!new)>(c: Codec<P>, es: seq<Envelope<P>>, ps: seq<seq<byte>>, m: nat,
                                   got: nat, later: seq<byte>)
    requires Lawful(c) && Accepted(c, es, ps) && m < |ps| && AllValid(es[..m])
    requires 4 <= got <= FRAME_OVERHEAD + |ps[m]| && got + |later| < FRAME_OVERHEAD + |ps[m]|
    ensures Scan(c, Log(c.crc, ps[..m]) + (FrameOf(c.crc, ps[m])[..got] + later), FILE_HEADER_LEN)
         == Scanned(es[..m], Some(CutError(Start(c.crc, ps, m), |ps[m]|, got + |later|)), Start(c.crc, ps, m))
  {
    hide Frames, IsValid, AllValid, Log, ReadFrame, FrameOf;
    var before, tail := Log(c.crc, ps[..m]), FrameOf(c.crc, ps[m])[..got] + later;
    ScanTo(c, es, ps, m, tail);
    ReadShort(c, before, ps[m], got, later);
    ScanStop(c, before + tail, |before|);
    PrependNone(es[..m], Some(CutError(|before|, |ps[m]|, got + |later|)), |before|);
  }

  lemma ReadShort<P>(c: Codec<P>, pre: seq<byte>, payload: seq<byte>, got: nat, later: seq<byte>)
    requires 1 <= |payload| <= MAX_FRAME_LEN
    requires 4 <= got <= FRAME_OVERHEAD + |payload| && got + |later| < FRAME_OVERHEAD + |payload|
    ensures ReadFrame(c, pre + (FrameOf(c.crc, payload)[..got] + later), |pre|)
      == Fail(CutError(|pre|, |payload|, got + |later|))
  {
    hide Le, Crc32.Checksum, ReadBody;
    var rest := FrameOf(c.crc, payload)[..got] + later;
    assert (pre + rest)[|pre|..] == rest;
    assert rest[..4] == Le(4, |payload|);
    WordSizes();
    LeRoundTrip(4, |payload|);
  }

  /**
   * Under the sample codec: `d`, of 9 payload bytes, is torn after its length prefix; `e`, of none, is appended whole.
   * Nothing is read, however valid both are.
   */
  lemma OneTornFile(meta: PublishMeta, d: Envelope<seq<byte>>, e: Envelope<seq<byte>>)
    requires d.meta == e.meta == meta && |d.payload| == 9 && e.payload == []
    ensures var c := SampleCodec(meta);
            && c.encode(d).Some? && c.encode(e).Some?
            && var ps, qs := [c.encode(d).value], [c.encode(e).value];
            && Accepted(c, [d], ps) && Accepted(c, [e], qs)
            && 12 < |Log(c.crc, ps)|
            && Scan(c, Log(c.crc, ps)[..12] + Frames(c.crc, qs), FILE_HEADER_LEN)
               == Scanned([], Some(TruncatedFrame(8, 25, 24)), 8)
  {
    hide Le, Log, Frames, FrameOf, Scan, SampleDecode, Lawful, Crc32.IEEE;
    var c := SampleCodec(meta);
    var q: seq<byte>, p: seq<byte> := c.encode(d).value, c.encode(e).value;
    assert |q| == 25 && |p| == 16;
    SampleCodecIsLawful(meta);
    LogOfOneMore(c.crc, [], q);
    LogOfMore(c.crc, [], [p]);
    LogOfOneMore(c.crc, [], p);
    assert [] + [q] == [q] && [] + [p] == [p];
    HeaderOnly(c.crc);
    assert [q][..0] == [];
    var later := Frames(c.crc, [p]);
    assert HEADER + later == HEADER + FrameOf(c.crc, p);
    assert |later| == 24;
    assert Log(c.crc, [q])[..12] + later == HEADER + (FrameOf(c.crc, q)[..4] + later);
    TornFrameSwallows(c, [d], [q], 0, 4, later);
    assert [d][..0] == [];
  }

  lemma HeaderOnly(p: Crc32.Params)
    ensures Log(p, []) == HEADER && |HEADER| == 8
  {
  }
}
