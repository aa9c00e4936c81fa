/** `FileJournal` and its iterator, over a file that may spill, fail and answer reads in pieces. */
module Journal {
  import opened Wrappers
  import opened Bytes
  import opened Types
  import opened Frame
  import opened JournalLog
  import opened JournalSteps
  import Crc32

  datatype JournalStats = JournalStats(
    appendedTotal: nat,
    bytesWrittenTotal: nat,
    readTotal: nat,
    corruptFramesTotal: nat)

  class File {
    var bytes: seq<byte>
    /** How many operations on it have failed. */
    ghost var faults: nat

    constructor (bytes: seq<byte>)
      ensures this.bytes == bytes && faults == 0
    {
      this.bytes, faults := bytes, 0;
    }
  }

  /** A read handle. One read returns any non-zero number of the bytes left, or fails. */
  class FileReader {
    const file: File
    var pos: nat

    constructor (file: File, pos: nat)
      ensures this.file == file && this.pos == pos
    {
      this.file := file;
      this.pos := pos;
    }

    /** `None` is an I/O error; an empty answer is the end of the file. */
    method Read(want: nat) returns (r: Option<seq<byte>>)
      requires pos <= |file.bytes| && want > 0
      modifies this, file`faults
      ensures r == None ==> pos == old(pos)
      ensures file.faults == old(file.faults) + (if r == None then 1 else 0)
      ensures r.Some? ==> pos == old(pos) + |r.value| <= |file.bytes|
      ensures r.Some? ==> r.value == file.bytes[old(pos)..pos] && |r.value| <= want
      ensures r.Some? ==> (r.value == [] <==> old(pos) == |file.bytes|)
    {
      var fails: bool := *;
      if fails {
        file.faults := file.faults + 1;
        return None;
      }
      if pos == |file.bytes| {
        return Some([]);
      }
      var n: nat :| 1 <= n <= want && pos + n <= |file.bytes|;
      r := Some(file.bytes[pos..pos + n]);
      pos := pos + n;
    }

    /** The read loop: fills `buf` from the front until it is full, the file ends or a read fails. */
    method Fill(buf: array<byte>) returns (filled: nat, ok: bool)
      requires pos <= |file.bytes|
      modifies this, buf, file`faults
      ensures filled <= buf.Length && pos == old(pos) + filled <= |file.bytes|
      ensures buf[..filled] == file.bytes[old(pos)..pos]
      ensures ok ==> filled == buf.Length || pos == |file.bytes|
      ensures file.faults == old(file.faults) + (if ok then 0 else 1)
    {
      filled, ok := 0, true;
      while filled < buf.Length
        invariant filled <= buf.Length && pos == old(pos) + filled <= |file.bytes|
        invariant buf[..filled] == file.bytes[old(pos)..pos]
        invariant file.faults == old(file.faults)
      {
        var chunk := Read(buf.Length - filled);
        match chunk {
          case None =>
            return filled, false;
          case Some(bytes) =>
            if bytes == [] {
              return;
            }
            ghost var before := buf[..filled];
            forall i | 0 <= i < |bytes| {
              buf[filled + i] := bytes[i];
            }
            assert buf[..filled + |bytes|] == before + bytes;
            filled := filled + |bytes|;
        }
      }
    }
  }

  class FileJournal<P(!new)> {
    const codec: Codec<P>
    const file: File
    var pending: seq<byte>
    var byteOffset: nat
    var appendedTotal: nat
    var bytesWrittenTotal: nat
    var readTotal: nat
    var corruptFramesTotal: nat

    constructor (codec: Codec<P>, file: File, byteOffset: nat)
      ensures this.codec == codec && this.file == file && this.byteOffset == byteOffset
      ensures pending == [] && appendedTotal == bytesWrittenTotal == readTotal == corruptFramesTotal == 0
    {
      this.codec, this.file, this.byteOffset := codec, file, byteOffset;
      pending := [];
      appendedTotal, bytesWrittenTotal, readTotal, corruptFramesTotal := 0, 0, 0, 0;
    }

    function Snapshot(): Disk
      reads this, file
    {
      Disk(file.bytes, pending, byteOffset, appendedTotal, bytesWrittenTotal)
    }

    /**
     * Opens a file. An empty one gets the header; any other is accepted exactly when its first eight
     * bytes are the header, and the write head is then the file's length, torn last frame or not.
     */
    static method Open(codec: Codec<P>, file: File) returns (r: Result<FileJournal<P>, JournalError>)
      modifies file
      ensures r.Ok? ==>
        && fresh(r.value) && r.value.codec == codec && r.value.file == file
        && r.value.pending == [] && r.value.byteOffset == |file.bytes|
        && r.value.appendedTotal == r.value.bytesWrittenTotal == r.value.readTotal == r.value.corruptFramesTotal == 0
        && HEADER <= file.bytes
        && (old(file.bytes) != [] ==>
              forall d: Disk :: d.Stream() == old(file.bytes) ==> Step(codec, d, Event<P>.Reopened, r.value.Snapshot()))
      ensures r == Err(Io) <==> file.faults > old(file.faults)
      ensures old(file.bytes) == [] ==> if r.Ok? then file.bytes == HEADER else r == Err(Io) && file.bytes <= HEADER
      ensures old(file.bytes) != [] ==> file.bytes == old(file.bytes)
      ensures 0 < |old(file.bytes)| < FILE_HEADER_LEN ==> r == Err(TruncatedFileHeader(old(file.bytes))) || r == Err(Io)
      ensures FILE_HEADER_LEN <= |old(file.bytes)| ==>
        || r == Err(Io)
        || match ValidateHeader(old(file.bytes)[..FILE_HEADER_LEN])
           case Some(e) => r == Err(e)
           case None => r.Ok?
    {
      var len := |file.bytes|;
      if len == 0 {
        var ok := WriteFileHeader(file);
        if !ok {
          return Err(Io);
        }
      } else {
        var reader := new FileReader(file, 0);
        var buf := new byte[if len < FILE_HEADER_LEN then len else FILE_HEADER_LEN];
        var filled, ok := reader.Fill(buf);
        if !ok {
          return Err(Io);
        }
        assert buf[..] == buf[..filled] == file.bytes[..filled];
        if len < FILE_HEADER_LEN {
          assert file.bytes[..len] == file.bytes;
          return Err(TruncatedFileHeader(buf[..]));
        }
        var bad := ValidateHeader(buf[..]);
        if bad.Some? {
          return Err(bad.value);
        }
      }
      var journal := new FileJournal<P>(codec, file, |file.bytes|);
      r := Ok(journal);
    }

    /** Writes the header to an empty file; a failing write may leave a part of it. */
    static method WriteFileHeader(file: File) returns (ok: bool)
      requires file.bytes == []
      modifies file
      ensures if ok then file.bytes == HEADER else file.bytes <= HEADER
      ensures file.faults == old(file.faults) + (if ok then 0 else 1)
    {
      var fails: bool := *;
      if fails {
        file.faults := file.faults + 1;
        var n: nat :| n <= |HEADER|;
        file.bytes := HEADER[..n];
        return false;
      }
      file.bytes := file.bytes + MAGIC;
      file.bytes := file.bytes + [FILE_FORMAT_VERSION];
      file.bytes := file.bytes + RESERVED_HEADER;
      ok := true;
    }

    /** `BufWriter::write_all`: buffers, spilling what it likes; on failure only a part was taken. */
    method WriteAll(bytes: seq<byte>) returns (ok: bool)
      modifies this`pending, file
      ensures ok ==> Grew(old(file.bytes), old(pending), file.bytes, pending, bytes)
      ensures !ok ==> exists part :: part <= bytes && Grew(old(file.bytes), old(pending), file.bytes, pending, part)
      ensures file.faults == old(file.faults) + (if ok then 0 else 1)
    {
      var fails: bool := *;
      var taken := |bytes|;
      if fails {
        file.faults := file.faults + 1;
        taken :| 0 <= taken <= |bytes|;
      }
      ghost var total := file.bytes + pending + bytes[..taken];
      pending := pending + bytes[..taken];
      var spilled: nat :| spilled <= |pending|;
      file.bytes, pending := file.bytes + pending[..spilled], pending[spilled..];
      assert file.bytes + pending == total;
      assert bytes[..|bytes|] == bytes;
      assert Grew(old(file.bytes), old(pending), file.bytes, pending, bytes[..taken]);
      ok := !fails;
    }

    /** The three writes of one frame; a failure in any of them leaves a part of the whole. */
    method WritePieces(a: seq<byte>, b: seq<byte>, d: seq<byte>) returns (ok: bool)
      modifies this`pending, file
      ensures ok ==> Grew(old(file.bytes), old(pending), file.bytes, pending, a + b + d)
      ensures !ok ==> exists part :: part <= a + b + d && Grew(old(file.bytes), old(pending), file.bytes, pending, part)
      ensures file.faults == old(file.faults) + (if ok then 0 else 1)
    {
      ghost var file0, pending0 := file.bytes, pending;
      ok := WriteAll(a);
      if !ok {
        ghost var part :| part <= a && Grew(file0, pending0, file.bytes, pending, part);
        assert part <= a + b + d;
        return;
      }
      ghost var file1, pending1 := file.bytes, pending;
      ok := WriteAll(b);
      if !ok {
        ghost var part :| part <= b && Grew(file1, pending1, file.bytes, pending, part);
        GrewTwice(file0, pending0, file1, pending1, file.bytes, pending, a, part);
        assert a + part <= a + b + d;
        return;
      }
      GrewTwice(file0, pending0, file1, pending1, file.bytes, pending, a, b);
      ghost var file2, pending2 := file.bytes, pending;
      ok := WriteAll(d);
      if !ok {
        ghost var part :| part <= d && Grew(file2, pending2, file.bytes, pending, part);
        GrewTwice(file0, pending0, file2, pending2, file.bytes, pending, a + b, part);
        assert a + b + part <= a + b + d;
        return;
      }
      GrewTwice(file0, pending0, file2, pending2, file.bytes, pending, a + b, d);
    }

    method Flush() returns (r: Result<(), JournalError>)
      modifies this`pending, file
      ensures r == Ok(()) ==> Step(codec, old(Snapshot()), Event<P>.Flushed, Snapshot())
      ensures r.Err? ==> r == Err(Io) && Step(codec, old(Snapshot()), Event<P>.Spilled, Snapshot())
      ensures file.faults == old(file.faults) + (if r.Err? then 1 else 0)
    {
      var fails: bool := *;
      var spilled := |pending|;
      if fails {
        file.faults := file.faults + 1;
        spilled :| 0 <= spilled <= |pending|;
      }
      file.bytes, pending := file.bytes + pending[..spilled], pending[spilled..];
      r := if fails then Err(Io) else Ok(());
    }

    /**
     * Appends one frame at the write head. A rejected envelope changes nothing; a failed write leaves
     * the offset and the counters alone but may leave a part of the frame in the stream.
     */
    method Append(e: Envelope<P>) returns (r: Result<JournalPosition, JournalError>)
      modifies this`pending, this`byteOffset, this`appendedTotal, this`bytesWrittenTotal, file
      ensures codec.encode(e) == None ==> r == Err(Rkyv)
      ensures codec.encode(e).Some? && ValidateFrameLength(|codec.encode(e).value|, old(byteOffset)).Some? ==>
        r == Err(ValidateFrameLength(|codec.encode(e).value|, old(byteOffset)).value)
      ensures r.Ok? ==> Step(codec, old(Snapshot()), Appended(e, r.value), Snapshot())
      ensures r.Err? && r != Err(Io) ==> Step(codec, old(Snapshot()), Rejected(e), Snapshot())
      ensures codec.encode(e).Some? && (codec.encode(e).value == [] || |codec.encode(e).value| > 0x100_0000) ==>
        r == Err(InvalidFrameLength(old(byteOffset), |codec.encode(e).value|, 0x100_0000))
      ensures r.Ok? ==>
        Stats() == old(Stats()).(
          appendedTotal := old(appendedTotal) + 1,
          bytesWrittenTotal := old(bytesWrittenTotal) + 8 + |codec.encode(e).value|)
      ensures r.Err? ==> Stats() == old(Stats())
      ensures r == Err(Io) <==> file.faults > old(file.faults)
      ensures r.Err? ==>
        byteOffset == old(byteOffset) && appendedTotal == old(appendedTotal)
          && bytesWrittenTotal == old(bytesWrittenTotal)
      ensures r == Err(Io) ==> exists part :: FailedAppend(codec, old(Snapshot()), e, part, Snapshot())
    {
      hide Le, Crc32.Checksum;
      var frameStart := byteOffset;
      var encoded := codec.encode(e);
      if encoded == None {
        return Err(Rkyv);
      }
      var payload := encoded.value;
      var bad := ValidateFrameLength(|payload|, frameStart);
      if bad.Some? {
        return Err(bad.value);
      }
      var lengthBytes, crcBytes := Le(4, |payload|), Le(4, Crc32.Checksum(codec.crc, payload));
      assert FrameOf(codec.crc, payload) == lengthBytes + payload + crcBytes;
      var ok := WritePieces(lengthBytes, payload, crcBytes);
      if !ok {
        ghost var part :|
          && part <= lengthBytes + payload + crcBytes
          && Grew(old(file.bytes), old(pending), file.bytes, pending, part);
        assert FailedAppend(codec, old(Snapshot()), e, part, Snapshot());
        return Err(Io);
      }
      var frameSize := FRAME_OVERHEAD + |payload|;
      byteOffset := frameStart + frameSize;
      appendedTotal := appendedTotal + 1;
      bytesWrittenTotal := bytesWrittenTotal + frameSize;
      r := Ok(JournalPosition(e.sequence, frameStart));
    }

    /** A fresh iterator over a fresh handle if the file opens again, or one that will report that it does not. */
    method IterAll(opens: bool) returns (iter: JournalIter<P>)
      requires FILE_HEADER_LEN <= |file.bytes|
      ensures fresh(iter) && iter.Valid() && iter.journal == this && !iter.fused
      ensures opens ==> iter.pendingErr == None && fresh(iter.reader) && iter.byteOffset == FILE_HEADER_LEN
      ensures !opens ==> iter.pendingErr == Some(Io) && iter.reader == null
    {
      if !opens {
        iter := new JournalIter(this, null, 0, Some(Io));
      } else {
        var reader := new FileReader(file, FILE_HEADER_LEN);
        iter := new JournalIter(this, reader, FILE_HEADER_LEN, None);
      }
    }

    function Stats(): JournalStats
      reads this
    {
      JournalStats(appendedTotal, bytesWrittenTotal, readTotal, corruptFramesTotal)
    }
  }

  lemma SliceOfDrop(s: seq<byte>, off: nat, i: nat, j: nat)
    requires off <= |s| && i <= j <= |s| - off
    ensures s[off..][i..j] == s[off + i..off + j]
  {
  }

  type Item<P> = Option<Result<Envelope<P>, JournalError>>

  /** The item the iterator returns for what a read finds. */
  function ItemOf<P>(r: Read<P>): Item<P> {
    match r
    case End => None
    case Fail(e) => Some(Err(e))
    case Got(record, _) => Some(Ok(record))
  }

  class JournalIter<P(!new)> {
    const journal: FileJournal<P>
    const reader: FileReader?
    var byteOffset: nat
    var fused: bool
    var pendingErr: Option<JournalError>
    /** The largest buffer a read has asked for. */
    ghost var largestBuffer: nat

    constructor (journal: FileJournal<P>, reader: FileReader?, byteOffset: nat, pendingErr: Option<JournalError>)
      ensures this.journal == journal && this.reader == reader && this.byteOffset == byteOffset
      ensures this.pendingErr == pendingErr && !fused && largestBuffer == 0
    {
      this.journal, this.reader, this.byteOffset, this.pendingErr := journal, reader, byteOffset, pendingErr;
      fused, largestBuffer := false, 0;
    }

    /** An iterator that can still read has its handle where the next frame starts. */
    ghost predicate Valid()
      reads this, reader, journal.file
    {
      && largestBuffer <= MAX_FRAME_LEN
      && (pendingErr == None && !fused ==>
            && reader != null && reader.file == journal.file
            && reader.pos == byteOffset && FILE_HEADER_LEN <= byteOffset <= |journal.file.bytes|)
    }

    method FuseWithCorrupt(error: JournalError) returns (item: Item<P>)
      modifies this`fused, journal`corruptFramesTotal
      ensures fused && item == Some(Err(error))
      ensures journal.corruptFramesTotal == old(journal.corruptFramesTotal) + 1
    {
      fused := true;
      journal.corruptFramesTotal := journal.corruptFramesTotal + 1;
      item := Some(Err(error));
    }

    /**
     * One step. Unless a read fails, the answer is the one `ReadFrame` gives for the bytes at the
     * iterator's offset, however the reads were split; the first error is the last item.
     */
    method Next() returns (item: Item<P>)
      requires Valid()
      modifies this, reader, journal.file`faults, journal`readTotal, journal`corruptFramesTotal
      ensures Valid()
      ensures old(fused) ==> item == None
      ensures !old(fused) && old(pendingErr).Some? ==> item == Some(Err(old(pendingErr).value))
      ensures !old(fused) && old(pendingErr) == None ==>
        || item == Some(Err(Io))
        || item == ItemOf(ReadFrame(journal.codec, journal.file.bytes, old(byteOffset)))
      ensures journal.file.faults == old(journal.file.faults) +
        (if !old(fused) && old(pendingErr) == None && item == Some(Err(Io)) then 1 else 0)
      ensures fused == (old(fused) || (item.Some? && item.value.Err?))
      ensures pendingErr == None || (fused && old(fused) && pendingErr == old(pendingErr))
      ensures byteOffset == old(byteOffset) + (
        if item.Some? && item.value.Ok? then ReadFrame(journal.codec, journal.file.bytes, old(byteOffset)).size else 0)
      ensures journal.readTotal == old(journal.readTotal) + (if item.Some? && item.value.Ok? then 1 else 0)
      ensures journal.corruptFramesTotal
        == old(journal.corruptFramesTotal) + (if item.Some? && item.value.Err? then 1 else 0)
    {
      hide FromLe, ReadBody;
      if fused {
        return None;
      }
      if pendingErr.Some? {
        var error := pendingErr.value;
        pendingErr := None;
        item := FuseWithCorrupt(error);
        return;
      }
      ghost var data := journal.file.bytes;
      ghost var rest := data[byteOffset..];
      var frameStart := byteOffset;

      var lenBuf := new byte[4];
      var lenFilled, ok := reader.Fill(lenBuf);
      if !ok {
        item := FuseWithCorrupt(Io);
        return;
      }
      assert lenBuf[..lenFilled] == rest[..lenFilled];
      if lenFilled == 0 {
        return None;
      }
      if lenFilled != 4 {
        item := FuseWithCorrupt(TruncatedFrame(frameStart, 4, lenFilled));
        return;
      }
      assert lenBuf[..] == rest[..4];
      var length := FromLe(lenBuf[..]);

      var bad := ValidateFrameLength(length, frameStart);
      if bad.Some? {
        item := FuseWithCorrupt(bad.value);
        return;
      }

      item := ReadRecord(frameStart, length);
    }

    /** The rest of a frame whose length prefix has been read and accepted: payload, trailer, checks. */
    method ReadRecord(frameStart: nat, length: nat) returns (item: Item<P>)
      requires
        && reader != null
        && reader.file == journal.file
        && !fused
        && pendingErr == None
        && largestBuffer <= MAX_FRAME_LEN
      requires FILE_HEADER_LEN <= frameStart == byteOffset && reader.pos == frameStart + 4 <= |journal.file.bytes|
      requires
        && FromLe(journal.file.bytes[frameStart..][..4]) == length
        && ValidateFrameLength(length, frameStart) == None
      modifies this, reader, journal.file`faults, journal`readTotal, journal`corruptFramesTotal
      ensures Valid() && pendingErr == None
      ensures item == Some(Err(Io)) || item == ItemOf(ReadFrame(journal.codec, journal.file.bytes, frameStart))
      ensures journal.file.faults == old(journal.file.faults) + (if item == Some(Err(Io)) then 1 else 0)
      ensures item.Some? && fused == item.value.Err?
      ensures byteOffset == frameStart + (
        if item.value.Ok? then ReadFrame(journal.codec, journal.file.bytes, frameStart).size else 0)
      ensures journal.readTotal == old(journal.readTotal) + (if item.value.Ok? then 1 else 0)
      ensures journal.corruptFramesTotal == old(journal.corruptFramesTotal) + (if item.value.Err? then 1 else 0)
    {
      hide FromLe, ReadBody;
      ghost var data := journal.file.bytes;
      var payload := new byte[length];
      largestBuffer := if largestBuffer < length then length else largestBuffer;
      var payloadFilled, ok := reader.Fill(payload);
      if !ok {
        item := FuseWithCorrupt(Io);
        return;
      }
      if payloadFilled < payload.Length {
        item := FuseWithCorrupt(TruncatedFrame(frameStart, length, payloadFilled));
        return;
      }
      SliceOfDrop(data, frameStart, 4, 4 + length);
      assert payload[..] == payload[..payloadFilled];

      var crcBuf := new byte[4];
      var crcFilled;
      crcFilled, ok := reader.Fill(crcBuf);
      if !ok {
        item := FuseWithCorrupt(Io);
        return;
      }
      if crcFilled < 4 {
        item := FuseWithCorrupt(TruncatedFrame(frameStart, 4, crcFilled));
        return;
      }
      SliceOfDrop(data, frameStart, 4 + length, 8 + length);
      assert crcBuf[..] == crcBuf[..crcFilled];
      item := CheckBody(payload[..], crcBuf[..], frameStart);
    }

    /** Checksum, decoding and validation of a frame whose bytes have all been read. */
    method CheckBody(payload: seq<byte>, trailer: seq<byte>, frameStart: nat) returns (item: Item<P>)
      requires !fused && byteOffset == frameStart
      modifies this`byteOffset, this`fused, journal`readTotal, journal`corruptFramesTotal
      ensures item == ItemOf(ReadBody(journal.codec, payload, trailer, frameStart))
      ensures fused == item.value.Err?
      ensures byteOffset == frameStart + (if item.value.Ok? then FRAME_OVERHEAD + |payload| else 0)
      ensures journal.readTotal == old(journal.readTotal) + (if item.value.Ok? then 1 else 0)
      ensures journal.corruptFramesTotal == old(journal.corruptFramesTotal) + (if item.value.Err? then 1 else 0)
    {
      hide Crc32.Checksum, FromLe;
      var crcRead := FromLe(trailer);
      var crcComputed := Crc32.Checksum(journal.codec.crc, payload);
      if crcComputed != crcRead {
        item := FuseWithCorrupt(ChecksumMismatch(frameStart, crcComputed, crcRead));
        return;
      }
      var decoded := journal.codec.decode(payload);
      if decoded == None {
        item := FuseWithCorrupt(Rkyv);
        return;
      }
      var envelope := decoded.value;
      var violation := Validate(envelope);
      if violation.Some? {
        item := FuseWithCorrupt(JournalError.Types(violation.value));
        return;
      }
      byteOffset := frameStart + FRAME_OVERHEAD + |payload|;
      journal.readTotal := journal.readTotal + 1;
      item := Some(Ok(envelope));
    }

    /**
     * Drives a fresh iterator to its end. The records come out exactly as `Scan` lists them, the counters
     * move by the number of records and by at most one error, and at most a ninth of the bytes are records.
     */
    method Collect() returns (records: seq<Envelope<P>>, error: Option<JournalError>)
      requires Valid() && !fused && pendingErr == None
      modifies this, reader, journal.file`faults, journal`readTotal, journal`corruptFramesTotal
      ensures Valid()
      ensures error == Some(Io) <==> journal.file.faults > old(journal.file.faults)
      ensures error != Some(Io) ==>
        && var s := Scan(journal.codec, journal.file.bytes, old(byteOffset));
        && records == s.records && error == s.stop && byteOffset == s.next
      ensures error == Some(Io) ==> records <= Scan(journal.codec, journal.file.bytes, old(byteOffset)).records
      ensures journal.readTotal == old(journal.readTotal) + |records|
      ensures journal.corruptFramesTotal == old(journal.corruptFramesTotal) + (if error.Some? then 1 else 0)
      ensures journal.Stats() == old(journal.Stats()).(
                readTotal := old(journal.readTotal) + |records|,
                corruptFramesTotal := old(journal.corruptFramesTotal) + (if error.Some? then 1 else 0))
      ensures fused == error.Some?
      ensures 9 * |records| <= |journal.file.bytes| - old(byteOffset)
    {
      hide ReadFrame, Scan, Frames, IsValid;
      records, error := [], None;
      ghost var whole := Scan(journal.codec, journal.file.bytes, byteOffset);
      ScanIsExact(journal.codec, journal.file.bytes, byteOffset);
      while true
        invariant Valid() && !fused && pendingErr == None && error == None
        invariant whole == Prepend(records, Scan(journal.codec, journal.file.bytes, byteOffset))
        invariant journal.readTotal == old(journal.readTotal) + |records|
        invariant journal.appendedTotal == old(journal.appendedTotal)
        invariant journal.file.faults == old(journal.file.faults)
        invariant journal.bytesWrittenTotal == old(journal.bytesWrittenTotal)
        invariant journal.corruptFramesTotal == old(journal.corruptFramesTotal)
        decreases |journal.file.bytes| - byteOffset
      {
        ghost var off := byteOffset;
        ghost var data := journal.file.bytes;
        var item := Next();
        if !(item.Some? && item.value.Ok?) && item != Some(Err(Io)) {
          ScanStop(journal.codec, data, off);
          PrependNone(records, if item.Some? then Some(item.value.error) else None, off);
        }
        if item == None {
          break;
        }
        match item.value {
          case Err(e) =>
            error := Some(e);
            return;
          case Ok(record) =>
            ScanStep(journal.codec, data, off);
            PrependTwice(records, [record], Scan(journal.codec, data, byteOffset));
            records := records + [record];
        }
      }
    }
  }
}
