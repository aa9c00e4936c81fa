/** What iterating a journal file yields: for logs, cut logs, damaged logs and arbitrary bytes. */
module JournalLog {
  import opened Wrappers
  import opened Numbers
  import opened Bytes
  import opened Types
  import opened Frame
  import Crc32

  /** One lawful codec: IEEE checksums, and envelopes of one fixed metadata written out field by field. */
  function SampleCodec(meta: PublishMeta): Codec<seq<byte>> {
    Codec(Crc32.IEEE, (e: Envelope<seq<byte>>) => SampleEncode(meta, e), (s: seq<byte>) => SampleDecode(meta, s))
  }

  function SampleEncode(meta: PublishMeta, e: Envelope<seq<byte>>): Option<seq<byte>> {
    if e.meta == meta then Some(Le(8, e.sequence) + Le(8, e.timestampNs) + e.payload) else None
  }

  function SampleDecode(meta: PublishMeta, s: seq<byte>): Option<Envelope<seq<byte>>> {
    if |s| < 16 || FromLe(s[..8]) > U64_MAX || FromLe(s[8..16]) > U64_MAX then None
    else Some(Envelope(FromLe(s[..8]), FromLe(s[8..16]), meta, s[16..]))
  }

  lemma SampleRoundTrip(meta: PublishMeta, e: Envelope<seq<byte>>)
    requires e.meta == meta
    ensures SampleDecode(meta, SampleEncode(meta, e).value) == Some(e)
  {
    assert Pow256(8) == U64_MAX + 1;
    hide Pow256, Le, FromLe;
    LeRoundTrip(8, e.sequence);
    LeRoundTrip(8, e.timestampNs);
    var s := Le(8, e.sequence) + Le(8, e.timestampNs) + e.payload;
    assert s[..8] == Le(8, e.sequence) && s[8..16] == Le(8, e.timestampNs) && s[16..] == e.payload;
  }

  lemma SampleCodecIsLawful(meta: PublishMeta)
    ensures Lawful(SampleCodec(meta))
  {
    hide SampleDecode, Crc32.Sound;
    Crc32.IeeeIsSound();
    forall e | SampleEncode(meta, e).Some? ensures SampleDecode(meta, SampleEncode(meta, e).value) == Some(e) {
      SampleRoundTrip(meta, e);
    }
  }

  /** `ps` are the payloads that `append` accepts for the envelopes `es`. */
  ghost predicate Accepted<P>(c: Codec<P>, es: seq<Envelope<P>>, ps: seq<seq<byte>>) {
    && |es| == |ps|
    && forall i :: 0 <= i < |es| ==> c.encode(es[i]) == Some(ps[i]) && 1 <= |ps[i]| <= MAX_FRAME_LEN
  }

  ghost predicate AllValid<P>(es: seq<Envelope<P>>) {
    forall i :: 0 <= i < |es| ==> IsValid(es[i])
  }

  /** The file a journal holds after appending `ps`. */
  function Log(p: Crc32.Params, ps: seq<seq<byte>>): seq<byte> {
    HEADER + Frames(p, ps)
  }

  /** The offset at which frame `i` starts. */
  function Start(p: Crc32.Params, ps: seq<seq<byte>>, i: nat): nat
    requires i <= |ps|
  {
    |Log(p, ps[..i])|
  }

  lemma {:induction false} FramesConcat(p: Crc32.Params, a: seq<seq<byte>>, b: seq<seq<byte>>)
    ensures Frames(p, a + b) == Frames(p, a) + Frames(p, b)
  {
    if a == [] {
      assert a + b == b;
    } else {
      assert (a + b)[1..] == a[1..] + b;
      FramesConcat(p, a[1..], b);
    }
  }

  lemma LogSplit(p: Crc32.Params, ps: seq<seq<byte>>, i: nat)
    requires i < |ps|
    ensures Log(p, ps) == Log(p, ps[..i]) + FrameOf(p, ps[i]) + Frames(p, ps[i + 1..])
    ensures Start(p, ps, i + 1) == Start(p, ps, i) + FRAME_OVERHEAD + |ps[i]|
  {
    hide Le, Crc32.Checksum;
    assert ps == ps[..i] + [ps[i]] + ps[i + 1..];
    FramesConcat(p, ps[..i] + [ps[i]], ps[i + 1..]);
    FramesConcat(p, ps[..i], [ps[i]]);
    assert ps[..i + 1] == ps[..i] + [ps[i]];
    assert Frames(p, [ps[i]]) == FrameOf(p, ps[i]);
  }

  // ----- one read ---------------------------------------------------------------------------

  /** With the length prefix, the payload and the trailer all there, everything depends on the body. */
  lemma ReadWithLength<P>(c: Codec<P>, data: seq<byte>, off: nat, rest: seq<byte>, length: nat)
    requires off <= |data| && rest == data[off..] && 8 + length <= |rest|
    requires FromLe(rest[..4]) == length && 1 <= length <= MAX_FRAME_LEN
    ensures ReadFrame(c, data, off) == ReadBody(c, rest[4..4 + length], rest[4 + length..8 + length], off)
  {
    hide FromLe, ReadBody;
  }

  /** A whole frame, with whatever trailer, is read up to its body. */
  lemma ReadWhole<P>(c: Codec<P>, data: seq<byte>, pre: seq<byte>, payload: seq<byte>, trailer: seq<byte>,
                     post: seq<byte>)
    requires 1 <= |payload| <= MAX_FRAME_LEN && |trailer| == 4
    requires data == pre + (Le(4, |payload|) + payload + trailer) + post
    ensures ReadFrame(c, data, |pre|) == ReadBody(c, payload, trailer, |pre|)
  {
    hide Le, FromLe, ReadBody, ReadFrame;
    var prefix, rest := Le(4, |payload|), data[|pre|..];
    assert rest == prefix + payload + trailer + post;
    Slices(prefix, payload, trailer, post);
    WordSizes();
    hide Pow256, Pow2;
    LeRoundTrip(4, |payload|);
    ReadWithLength(c, data, |pre|, rest, |payload|);
  }

  lemma Slices(a: seq<byte>, b: seq<byte>, d: seq<byte>, e: seq<byte>)
    ensures var s := a + b + d + e;
            && s[..|a|] == a
            && s[|a|..|a| + |b|] == b
            && s[|a| + |b|..|a| + |b| + |d|] == d
  {
  }

  /** The error for a frame of payload length `length` of which only `got` bytes are there. */
  function CutError(off: nat, length: nat, got: nat): JournalError
    requires 0 < got < FRAME_OVERHEAD + length
  {
    if got < 4 then TruncatedFrame(off, 4, got)
    else if got < 4 + length then TruncatedFrame(off, length, got - 4)
    else TruncatedFrame(off, 4, got - 4 - length)
  }

  lemma ReadCut<P>(c: Codec<P>, pre: seq<byte>, payload: seq<byte>, got: nat)
    requires 1 <= |payload| <= MAX_FRAME_LEN
    requires 0 < got < FRAME_OVERHEAD + |payload|
    ensures ReadFrame(c, pre + FrameOf(c.crc, payload)[..got], |pre|) == Fail(CutError(|pre|, |payload|, got))
  {
    hide Le, Crc32.Checksum;
    var rest := FrameOf(c.crc, payload)[..got];
    assert (pre + rest)[|pre|..] == rest;
    if got >= 4 {
      assert rest[..4] == Le(4, |payload|);
      WordSizes();
      LeRoundTrip(4, |payload|);
    }
  }

  /** An intact frame of an accepted envelope yields that envelope, or its invariant violation. */
  lemma ReadIntact<P(!new)>(c: Codec<P>, data: seq<byte>, pre: seq<byte>, e: Envelope<P>, payload: seq<byte>,
                            post: seq<byte>)
    requires Lawful(c) && c.encode(e) == Some(payload) && 1 <= |payload| <= MAX_FRAME_LEN
    requires data == pre + FrameOf(c.crc, payload) + post
    ensures ReadFrame(c, data, |pre|)
         == if IsValid(e) then Got(e, FRAME_OVERHEAD + |payload|) else Fail(JournalError.Types(Validate(e).value))
  {
    hide Le, Crc32.Checksum;
    var sum := Crc32.Checksum(c.crc, payload);
    ReadWhole(c, data, pre, payload, Le(4, sum), post);
    WordSizes();
    LeRoundTrip(4, sum);
  }

  lemma WordSizes()
    ensures Pow256(4) == Pow2(32) == 0x1_0000_0000
  {
    assert Pow2(8) == 0x100;
    assert Pow2(16) == 0x1_0000;
    assert Pow2(24) == 0x100_0000;
  }

  // ----- whole scans ------------------------------------------------------------------------

  function Prepend<P>(es: seq<Envelope<P>>, s: Scanned<P>): Scanned<P> {
    Scanned(es + s.records, s.stop, s.next)
  }

  lemma PrependTwice<P>(a: seq<Envelope<P>>, b: seq<Envelope<P>>, s: Scanned<P>)
    ensures Prepend(a, Prepend(b, s)) == Prepend(a + b, s)
  {
    assert a + (b + s.records) == (a + b) + s.records;
  }

  lemma ScanStep<P>(c: Codec<P>, data: seq<byte>, off: nat)
    requires off <= |data| && ReadFrame(c, data, off).Got?
    ensures var r := ReadFrame(c, data, off);
            Scan(c, data, off) == Prepend([r.record], Scan(c, data, off + r.size))
  {
    hide ReadFrame;
  }

  lemma ScanStop<P>(c: Codec<P>, data: seq<byte>, off: nat)
    requires off <= |data| && !ReadFrame(c, data, off).Got?
    ensures var r := ReadFrame(c, data, off);
            Scan(c, data, off) == Scanned([], if r.Fail? then Some(r.error) else None, off)
  {
    hide ReadFrame;
  }

  lemma PrependNone<P>(es: seq<Envelope<P>>, stop: Option<JournalError>, next: nat)
    ensures Prepend(es, Scanned([], stop, next)) == Scanned(es, stop, next)
  {
    assert es + [] == es;
  }

  /** A scan passes over intact valid frames, whatever bytes follow them. */
  lemma {:induction false} ScanThrough<P(!new)>(c: Codec<P>, data: seq<byte>, pre: seq<byte>,
                                                es: seq<Envelope<P>>, ps: seq<seq<byte>>, post: seq<byte>)
    requires Lawful(c) && Accepted(c, es, ps) && AllValid(es)
    requires data == pre + Frames(c.crc, ps) + post
    ensures Scan(c, data, |pre|) == Prepend(es, Scan(c, data, |pre| + |Frames(c.crc, ps)|))
    decreases |ps|
  {
    hide FrameOf, ReadFrame, Scan, IsValid;
    if ps == [] {
      var s := Scan(c, data, |pre|);
      assert es + s.records == s.records;
    } else {
      var frame, later := FrameOf(c.crc, ps[0]), Frames(c.crc, ps[1..]);
      assert Frames(c.crc, ps) == frame + later;
      assert data == pre + frame + (later + post) && data == (pre + frame) + later + post;
      ReadIntact(c, data, pre, es[0], ps[0], later + post);
      ScanStep(c, data, |pre|);
      ScanThrough(c, data, pre + frame, es[1..], ps[1..], post);
      PrependTwice([es[0]], es[1..], Scan(c, data, |pre| + |Frames(c.crc, ps)|));
      assert [es[0]] + es[1..] == es;
    }
  }

  /** Iteration from the file header reaches frame `m` having yielded the `m` records before it. */
  lemma ScanTo<P(!new)>(c: Codec<P>, es: seq<Envelope<P>>, ps: seq<seq<byte>>, m: nat, tail: seq<byte>)
    requires Lawful(c) && Accepted(c, es, ps) && m <= |es| && AllValid(es[..m])
    ensures var data := Log(c.crc, ps[..m]) + tail;
            Scan(c, data, FILE_HEADER_LEN) == Prepend(es[..m], Scan(c, data, Start(c.crc, ps, m)))
  {
    hide FrameOf, ReadFrame, Scan, IsValid, Frames;
    var data := Log(c.crc, ps[..m]) + tail;
    assert data == HEADER + Frames(c.crc, ps[..m]) + tail;
    ScanThrough(c, data, HEADER, es[..m], ps[..m], tail);
  }

  /** How many frames of the log lie wholly within its first `k` bytes. */
  function WholeFrames(p: Crc32.Params, ps: seq<seq<byte>>, k: nat): (m: nat)
    requires FILE_HEADER_LEN <= k
    ensures m <= |ps| && Start(p, ps, m) <= k
    ensures m < |ps| ==> k < Start(p, ps, m + 1)
  {
    WholeFramesFrom(p, ps, k, 0)
  }

  function WholeFramesFrom(p: Crc32.Params, ps: seq<seq<byte>>, k: nat, i: nat): (m: nat)
    requires i <= |ps| && Start(p, ps, i) <= k
    ensures i <= m <= |ps| && Start(p, ps, m) <= k
    ensures m < |ps| ==> k < Start(p, ps, m + 1)
    decreases |ps| - i
  {
    if i < |ps| && Start(p, ps, i + 1) <= k then WholeFramesFrom(p, ps, k, i + 1) else i
  }

  function FirstInvalid<P>(es: seq<Envelope<P>>): (i: nat)
    requires !AllValid(es)
    ensures i < |es| && !IsValid(es[i]) && AllValid(es[..i])
  {
    if !IsValid(es[0]) then 0
    else
      assert forall i :: 0 <= i < |es| - 1 ==> es[1..][i] == es[i + 1];
      1 + FirstInvalid(es[1..])
  }

  /** The first invalid envelope ends the iteration with its own violation, whatever follows its frame. */
  lemma StopAtInvalid<P(!new)>(c: Codec<P>, es: seq<Envelope<P>>, ps: seq<seq<byte>>, i: nat, post: seq<byte>)
    requires Lawful(c) && Accepted(c, es, ps)
    requires i < |es| && AllValid(es[..i]) && !IsValid(es[i])
    ensures Scan(c, Log(c.crc, ps[..i]) + (FrameOf(c.crc, ps[i]) + post), FILE_HEADER_LEN)
         == Scanned(es[..i], Some(JournalError.Types(Validate(es[i]).value)), Start(c.crc, ps, i))
  {
    hide FrameOf, ReadFrame, Frames, IsValid, AllValid, Log;
    var before, rest := Log(c.crc, ps[..i]), FrameOf(c.crc, ps[i]) + post;
    ScanTo(c, es, ps, i, rest);
    ReadIntact(c, before + rest, before, es[i], ps[i], post);
    assert es[..i] + [] == es[..i];
  }

  /**
   * Cutting a log of valid envelopes anywhere after its header loses exactly the frames that do not fit: the rest are
   * yielded in order, followed by a clean end at a frame boundary and by one exact truncation error elsewhere.
   */
  lemma CutValid<P(!new)>(c: Codec<P>, es: seq<Envelope<P>>, ps: seq<seq<byte>>, k: nat)
    requires Lawful(c) && Accepted(c, es, ps)
    requires FILE_HEADER_LEN <= k <= |Log(c.crc, ps)| && AllValid(es[..WholeFrames(c.crc, ps, k)])
    ensures var m := WholeFrames(c.crc, ps, k);
            var start := Start(c.crc, ps, m);
            && (k > start ==> m < |ps| && k - start < FRAME_OVERHEAD + |ps[m]|)
            && Scan(c, Log(c.crc, ps)[..k], FILE_HEADER_LEN)
               == Scanned(es[..m], if k == start then None else Some(CutError(start, |ps[m]|, k - start)), start)
  {
    hide FrameOf, ReadFrame, Frames, IsValid, AllValid, Log;
    var m := WholeFrames(c.crc, ps, k);
    var start := Start(c.crc, ps, m);
    var before := Log(c.crc, ps[..m]);
    if m < |ps| {
      LogSplit(c.crc, ps, m);
      var tail := FrameOf(c.crc, ps[m])[..k - start];
      assert Log(c.crc, ps)[..k] == before + tail;
      ScanTo(c, es, ps, m, tail);
      if k > start {
        ReadCut(c, before, ps[m], k - start);
      }
    } else {
      assert ps[..m] == ps;
      assert Log(c.crc, ps)[..k] == before + [];
      ScanTo(c, es, ps, m, []);
    }
  }

  /** A cut behind frame `i` leaves that frame and everything before it as they were. */
  lemma CutBehind(p: Crc32.Params, ps: seq<seq<byte>>, k: nat, i: nat)
    requires i < |ps| && Start(p, ps, i + 1) <= k <= |Log(p, ps)|
    ensures Log(p, ps)[..k] == Log(p, ps[..i]) + (FrameOf(p, ps[i]) + Log(p, ps)[Start(p, ps, i + 1)..k])
  {
    hide FrameOf, Frames, Log;
    LogSplit(p, ps, i);
    LogOfOneMore(p, ps[..i], ps[i]);
    assert ps[..i] + [ps[i]] == ps[..i + 1];
  }

  lemma LogOfOneMore(p: Crc32.Params, ps: seq<seq<byte>>, q: seq<byte>)
    ensures Log(p, ps + [q]) == Log(p, ps) + FrameOf(p, q)
  {
    hide FrameOf;
    FramesConcat(p, ps, [q]);
    assert [q][1..] == [] && Frames(p, []) == [];
    assert Frames(p, [q]) == FrameOf(p, q) + [];
  }

  lemma {:induction false} StartsGrow(p: Crc32.Params, all: seq<seq<byte>>, i: nat, j: nat)
    requires i <= j <= |all|
    ensures Start(p, all, i) <= Start(p, all, j)
    decreases j
  {
    hide Log;
    if i < j {
      StartsGrow(p, all, i, j - 1);
      LogSplit(p, all, j - 1);
    }
  }

  /**
   * What any log yields after a cut: as above, unless a whole frame holds an invalid envelope; the first such ends it.
   */
  lemma CutFile<P(!new)>(c: Codec<P>, es: seq<Envelope<P>>, ps: seq<seq<byte>>, k: nat)
    requires Lawful(c) && Accepted(c, es, ps)
    requires FILE_HEADER_LEN <= k <= |Log(c.crc, ps)|
    ensures var m := WholeFrames(c.crc, ps, k);
            var start := Start(c.crc, ps, m);
            && (k > start ==> m < |ps| && k - start < FRAME_OVERHEAD + |ps[m]|)
            && Scan(c, Log(c.crc, ps)[..k], FILE_HEADER_LEN)
               == if AllValid(es[..m]) then
                    Scanned(es[..m], if k == start then None else Some(CutError(start, |ps[m]|, k - start)), start)
                  else
                    var i := FirstInvalid(es[..m]);
                    Scanned(es[..i], Some(JournalError.Types(Validate(es[i]).value)), Start(c.crc, ps, i))
  {
    hide FrameOf, ReadFrame, Frames, IsValid, AllValid, Log, Scan;
    var m := WholeFrames(c.crc, ps, k);
    if AllValid(es[..m]) {
      CutValid(c, es, ps, k);
    } else {
      var i := FirstInvalid(es[..m]);
      assert es[..m][..i] == es[..i];
      StartsGrow(c.crc, ps, i + 1, m);
      CutBehind(c.crc, ps, k, i);
      StopAtInvalid(c, es, ps, i, Log(c.crc, ps)[Start(c.crc, ps, i + 1)..k]);
      if m < |ps| { LogSplit(c.crc, ps, m); } else { assert ps[..m] == ps; }
    }
  }

  /** A complete log reads back in full, without an error, exactly when every appended envelope is valid. */
  lemma ReadBack<P(!new)>(c: Codec<P>, es: seq<Envelope<P>>, ps: seq<seq<byte>>)
    requires Lawful(c) && Accepted(c, es, ps)
    ensures var s := Scan(c, Log(c.crc, ps), FILE_HEADER_LEN);
            && (s.stop == None <==> AllValid(es))
            && (s.records == es <==> AllValid(es))
            && (AllValid(es) ==> s.next == |Log(c.crc, ps)|)
  {
    hide Scan, ReadFrame, FrameOf, IsValid, AllValid;
    var k := |Log(c.crc, ps)|;
    CutFile(c, es, ps, k);
    var m := WholeFrames(c.crc, ps, k);
    if m < |ps| { LogSplit(c.crc, ps, m); }
    assert ps[..|ps|] == ps && es[..|es|] == es;
    assert Log(c.crc, ps)[..k] == Log(c.crc, ps);
  }

  /**
   * Damage to one record's payload and checksum, confined to four consecutive bytes, is always caught:
   * the earlier records are yielded, then a checksum mismatch at the damaged record's own offset.
   */
  lemma BurstIsCaught<P(!new)>(c: Codec<P>, es: seq<Envelope<P>>, ps: seq<seq<byte>>, i: nat,
                               payload: seq<byte>, trailer: seq<byte>,
                               pre: seq<byte>, w: seq<byte>, w': seq<byte>, post: seq<byte>)
    requires Lawful(c) && Accepted(c, es, ps) && i < |es| && AllValid(es[..i])
    requires ps[i] + Le(4, Crc32.Checksum(c.crc, ps[i])) == pre + w + post
    requires payload + trailer == pre + w' + post && |trailer| == 4
    requires |w| == |w'| <= 4 && w != w'
    ensures Scan(c, Log(c.crc, ps[..i]) + (Le(4, |ps[i]|) + payload + trailer) + Frames(c.crc, ps[i + 1..]),
      FILE_HEADER_LEN)
         == Scanned(es[..i],
                    Some(ChecksumMismatch(Start(c.crc, ps, i), Crc32.Checksum(c.crc, payload), FromLe(trailer))),
                    Start(c.crc, ps, i))
  {
    hide Le, Crc32.Checksum, ReadFrame, Frames, AllValid, Log;
    var sum := Crc32.Checksum(c.crc, ps[i]);
    WordSizes();
    LeRoundTrip(4, sum);
    Crc32.BurstBreaksSeal(c.crc, ps[i], Le(4, sum), payload, trailer, pre, w, w', post);
    var before, after := Log(c.crc, ps[..i]), Frames(c.crc, ps[i + 1..]);
    var body := Le(4, |ps[i]|) + payload + trailer;
    assert before + body + after == before + (body + after);
    ScanTo(c, es, ps, i, body + after);
    ReadWhole(c, before + body + after, before, payload, trailer, after);
    assert es[..i] + [] == es[..i];
  }

  /** Changing any single byte of a record's payload or checksum is such a burst. */
  lemma OneByteIsCaught<P(!new)>(c: Codec<P>, es: seq<Envelope<P>>, ps: seq<seq<byte>>, i: nat, j: nat, b: byte)
    requires Lawful(c) && Accepted(c, es, ps) && i < |es| && AllValid(es[..i])
    requires 4 <= j < FRAME_OVERHEAD + |ps[i]| && FrameOf(c.crc, ps[i])[j] != b
    ensures Start(c.crc, ps, i) + j < |Log(c.crc, ps)|
    ensures var s := Scan(c, Log(c.crc, ps)[Start(c.crc, ps, i) + j := b], FILE_HEADER_LEN);
            && s.records == es[..i]
            && s.stop.Some? && s.stop.value.ChecksumMismatch? && s.stop.value.offset == Start(c.crc, ps, i)
  {
    hide Le, Crc32.Checksum, Scan, Log, Frames;
    var body := ps[i] + Le(4, Crc32.Checksum(c.crc, ps[i]));
    var damaged := body[j - 4 := b];
    var payload, trailer := damaged[..|ps[i]|], damaged[|ps[i]|..];
    assert FrameOf(c.crc, ps[i]) == Le(4, |ps[i]|) + body;
    assert damaged == payload + trailer;
    Splice(body, j - 4, b);
    BurstIsCaught(c, es, ps, i, payload, trailer, body[..j - 4], [body[j - 4]], [b], body[j - 3..]);
    LogSplit(c.crc, ps, i);
    var before, after := Log(c.crc, ps[..i]), Frames(c.crc, ps[i + 1..]);
    assert Log(c.crc, ps) == before + (Le(4, |ps[i]|) + body) + after;
    SpliceInside(before, Le(4, |ps[i]|), body, after, j - 4, b);
    assert Le(4, |ps[i]|) + payload + trailer == Le(4, |ps[i]|) + damaged;
  }

  lemma Splice(s: seq<byte>, i: nat, b: byte)
    requires i < |s|
    ensures s == s[..i] + [s[i]] + s[i + 1..]
    ensures s[i := b] == s[..i] + [b] + s[i + 1..]
  {
  }

  lemma SpliceInside(before: seq<byte>, head: seq<byte>, body: seq<byte>, after: seq<byte>, i: nat, b: byte)
    requires i < |body|
    ensures (before + (head + body) + after)[|before| + |head| + i := b] == before + (head + body[i := b]) + after
  {
  }

  /** A length prefix of zero or of more than 16 MiB ends the iteration there, with the length it found. */
  lemma BadLengthStops<P(!new)>(c: Codec<P>, es: seq<Envelope<P>>, ps: seq<seq<byte>>, tail: seq<byte>)
    requires Lawful(c) && Accepted(c, es, ps) && AllValid(es)
    requires 4 <= |tail| && (FromLe(tail[..4]) == 0 || FromLe(tail[..4]) > 0x100_0000)
    ensures var at := |Log(c.crc, ps)|;
            Scan(c, Log(c.crc, ps) + tail, FILE_HEADER_LEN)
            == Scanned(es, Some(InvalidFrameLength(at, FromLe(tail[..4]), 0x100_0000)), at)
  {
    hide FrameOf, Frames, IsValid, AllValid, FromLe, Log, ReadBody;
    var before := Log(c.crc, ps);
    assert es[..|es|] == es && ps[..|es|] == ps;
    ScanTo(c, es, ps, |es|, tail);
    assert (before + tail)[|before|..] == tail;
    ScanStop(c, before + tail, |before|);
    PrependNone(es, Some(InvalidFrameLength(|before|, FromLe(tail[..4]), 0x100_0000)), |before|);
  }

  /** A whole frame with a good checksum whose payload does not decode ends the iteration with the archive error. */
  lemma UndecodableStops<P(!new)>(c: Codec<P>, es: seq<Envelope<P>>, ps: seq<seq<byte>>, payload: seq<byte>,
                                  post: seq<byte>)
    requires Lawful(c) && Accepted(c, es, ps) && AllValid(es)
    requires 1 <= |payload| <= MAX_FRAME_LEN && c.decode(payload) == None
    ensures var at := |Log(c.crc, ps)|;
            Scan(c, Log(c.crc, ps) + (FrameOf(c.crc, payload) + post), FILE_HEADER_LEN) == Scanned(es, Some(Rkyv), at)
  {
    hide Frames, IsValid, AllValid, Le, FromLe, Log, ReadFrame, Crc32.Checksum;
    var before, sum := Log(c.crc, ps), Crc32.Checksum(c.crc, payload);
    var tail := FrameOf(c.crc, payload) + post;
    assert es[..|es|] == es && ps[..|es|] == ps;
    ScanTo(c, es, ps, |es|, tail);
    assert before + tail == before + (Le(4, |payload|) + payload + Le(4, sum)) + post;
    ReadWhole(c, before + tail, before, payload, Le(4, sum), post);
    WordSizes();
    LeRoundTrip(4, sum);
    ScanStop(c, before + tail, |before|);
    PrependNone(es, Some(Rkyv), |before|);
  }

  // ----- arbitrary bytes --------------------------------------------------------------------

  /** The payloads of the records a scan accepts. */
  function AcceptedPayloads<P>(c: Codec<P>, data: seq<byte>, off: nat): seq<seq<byte>>
    requires off <= |data|
    decreases |data| - off
  {
    match ReadFrame(c, data, off)
    case Got(_, size) => [data[off + 4..off + size - 4]] + AcceptedPayloads(c, data, off + size)
    case _ => []
  }

  lemma GotParts<P>(c: Codec<P>, data: seq<byte>, off: nat)
    requires off <= |data| && ReadFrame(c, data, off).Got?
    ensures var length := FromLe(data[off..][..4]);
            && 1 <= length <= MAX_FRAME_LEN && ReadFrame(c, data, off).size == FRAME_OVERHEAD + length
            && ReadFrame(c, data, off)
               == ReadBody(c, data[off..][4..4 + length], data[off..][4 + length..8 + length], off)
  {
    hide FromLe, ReadBody;
  }

  lemma GotBody<P>(c: Codec<P>, payload: seq<byte>, trailer: seq<byte>, off: nat)
    requires ReadBody(c, payload, trailer, off).Got? && |trailer| == 4
    ensures trailer == Le(4, Crc32.Checksum(c.crc, payload))
    ensures
      && c.decode(payload) == Some(ReadBody(c, payload, trailer, off).record)
      && IsValid(ReadBody(c, payload, trailer, off).record)
  {
    hide Le, FromLe, Crc32.Checksum;
    FromLeRoundTrip(trailer);
  }

  lemma GotIsAFrame<P>(c: Codec<P>, data: seq<byte>, off: nat)
    requires off <= |data| && ReadFrame(c, data, off).Got?
    ensures var size := ReadFrame(c, data, off).size;
            var payload := data[off + 4..off + size - 4];
            && 1 <= |payload| <= MAX_FRAME_LEN
            && data[off..off + size] == FrameOf(c.crc, payload)
            && c.decode(payload) == Some(ReadFrame(c, data, off).record)
            && IsValid(ReadFrame(c, data, off).record)
  {
    hide Le, FromLe, Crc32.Checksum, ReadFrame, ReadBody, IsValid;
    GotParts(c, data, off);
    var rest := data[off..];
    var size := ReadFrame(c, data, off).size;
    FromLeRoundTrip(rest[..4]);
    GotBody(c, rest[4..size - 4], rest[size - 4..size], off);
    assert rest[4..size - 4] == data[off + 4..off + size - 4];
    assert rest[..size] == rest[..4] + rest[4..size - 4] + rest[size - 4..size];
    assert data[off..off + size] == rest[..size];
  }

  /**
   * On any bytes at all, re-framing the accepted payloads gives back the bytes read, every record is
   * valid and is the decoding of its payload, and there are at most a ninth as many records as bytes.
   */
  lemma {:induction false} ScanIsExact<P>(c: Codec<P>, data: seq<byte>, off: nat)
    requires off <= |data|
    ensures var s := Scan(c, data, off);
            var ps := AcceptedPayloads(c, data, off);
            && |ps| == |s.records|
            && data[off..s.next] == Frames(c.crc, ps)
            && (forall i :: 0 <= i < |ps| ==>
                  && 1 <= |ps[i]| <= MAX_FRAME_LEN && c.decode(ps[i]) == Some(s.records[i]) && IsValid(s.records[i]))
            && 9 * |s.records| <= s.next - off
            && (s.stop == None <==> s.next == |data|)
    decreases |data| - off
  {
    hide FrameOf, ReadFrame, IsValid;
    var r := ReadFrame(c, data, off);
    if r.Got? {
      GotIsAFrame(c, data, off);
      ScanIsExact(c, data, off + r.size);
      var s := Scan(c, data, off);
      assert data[off..s.next] == data[off..off + r.size] + data[off + r.size..s.next];
    }
  }
}
