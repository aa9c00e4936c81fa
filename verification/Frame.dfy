/** The journal's byte format: file header, record frames, and what reading a file yields. */
module Frame {
  import opened Wrappers
  import opened Bytes
  import opened Types
  import Crc32

  const MAGIC: seq<byte> := [0x4C, 0x4D, 0x45, 0x4A]
  const FILE_FORMAT_VERSION: byte := 1
  const RESERVED_HEADER: seq<byte> := [0, 0, 0]
  const FILE_HEADER_LEN: nat := 8
  const MAX_FRAME_LEN: nat := 16 * 1024 * 1024
  const FRAME_OVERHEAD: nat := 8

  const HEADER: seq<byte> := MAGIC + [FILE_FORMAT_VERSION] + RESERVED_HEADER

  datatype JournalError =
    | Io
    | Types(error: TypesError)
    | Rkyv
    | ChecksumMismatch(offset: nat, expected: nat, found: nat)
    | InvalidFrameLength(offset: nat, length: nat, max: nat)
    | TruncatedFrame(offset: nat, needed: nat, got: nat)
    | InvalidFileHeader(magic: seq<byte>)
    | TruncatedFileHeader(header: seq<byte>)
    | UnsupportedFileVersion(version: byte)
    | InvalidReservedHeader(reserved: seq<byte>)

  /** What is kept abstract: the payload archive format, and which sound CRC constants are used. */
  datatype Codec<!P> = Codec(
    crc: Crc32.Params,
    encode: Envelope<P> -> Option<seq<byte>>,
    decode: seq<byte> -> Option<Envelope<P>>)

  ghost predicate Lawful<P(!new)>(c: Codec<P>) {
    && Crc32.Sound(c.crc)
    && forall e :: c.encode(e).Some? ==> c.decode(c.encode(e).value) == Some(e)
  }

  function ValidateFrameLength(length: nat, offset: nat): Option<JournalError> {
    if length == 0 || length > MAX_FRAME_LEN then Some(InvalidFrameLength(offset, length, MAX_FRAME_LEN)) else None
  }

  /** The checks on the eight header bytes, in the order they are made. */
  function ValidateHeader(h: seq<byte>): (r: Option<JournalError>)
    requires |h| == FILE_HEADER_LEN
    ensures r == None <==> h == HEADER
    ensures h[..4] != MAGIC ==> r == Some(InvalidFileHeader(h[..4]))
    ensures h[..4] == MAGIC && h[4] != FILE_FORMAT_VERSION ==> r == Some(UnsupportedFileVersion(h[4]))
    ensures h[..5] == MAGIC + [FILE_FORMAT_VERSION] && h[5..] != RESERVED_HEADER ==>
      r == Some(InvalidReservedHeader(h[5..]))
  {
    assert h == h[0..4] + [h[4]] + h[5..8];
    if h[0..4] != MAGIC then Some(InvalidFileHeader(h[0..4]))
    else if h[4] != FILE_FORMAT_VERSION then Some(UnsupportedFileVersion(h[4]))
    else if h[5..8] != RESERVED_HEADER then Some(InvalidReservedHeader(h[5..8]))
    else None
  }

  // ----- writing ----------------------------------------------------------------------------

  function FrameOf(p: Crc32.Params, payload: seq<byte>): (f: seq<byte>)
    ensures |f| == FRAME_OVERHEAD + |payload|
  {
    Le(4, |payload|) + payload + Le(4, Crc32.Checksum(p, payload))
  }

  function Frames(p: Crc32.Params, payloads: seq<seq<byte>>): seq<byte> {
    if payloads == [] then [] else FrameOf(p, payloads[0]) + Frames(p, payloads[1..])
  }

  // ----- reading ----------------------------------------------------------------------------

  datatype Read<P> = End | Fail(error: JournalError) | Got(record: Envelope<P>, size: nat)

  /** What one call of the iterator sees at `off` when no read fails. */
  function ReadFrame<P>(c: Codec<P>, data: seq<byte>, off: nat): (r: Read<P>)
    requires off <= |data|
    ensures r.Got? ==> r.size > FRAME_OVERHEAD && off + r.size <= |data|
    ensures r.End? <==> off == |data|
    ensures r != Fail(Io)
  {
    var rest := data[off..];
    if |rest| == 0 then End
    else if |rest| < 4 then Fail(TruncatedFrame(off, 4, |rest|))
    else
      var length := FromLe(rest[..4]);
      var bad := ValidateFrameLength(length, off);
      if bad.Some? then Fail(bad.value)
      else if |rest| < 4 + length then Fail(TruncatedFrame(off, length, |rest| - 4))
      else if |rest| < 8 + length then Fail(TruncatedFrame(off, 4, |rest| - 4 - length))
      else
        ReadBody(c, rest[4..4 + length], rest[4 + length..8 + length], off)
  }

  function ReadBody<P>(c: Codec<P>, payload: seq<byte>, trailer: seq<byte>, off: nat): (r: Read<P>)
    ensures r.Got? ==> r.size == FRAME_OVERHEAD + |payload|
    ensures r != End && r != Fail(Io)
  {
    var expected := Crc32.Checksum(c.crc, payload);
    if expected != FromLe(trailer) then Fail(ChecksumMismatch(off, expected, FromLe(trailer)))
    else match c.decode(payload)
      case None => Fail(Rkyv)
      case Some(e) =>
        match Validate(e)
        case Some(bad) => Fail(JournalError.Types(bad))
        case None => Got(e, FRAME_OVERHEAD + |payload|)
  }

  /** The whole iteration from `off`: the records, the error that ends it if any, and the final offset. */
  datatype Scanned<P> = Scanned(records: seq<Envelope<P>>, stop: Option<JournalError>, next: nat)

  function Scan<P>(c: Codec<P>, data: seq<byte>, off: nat): (s: Scanned<P>)
    requires off <= |data|
    ensures off <= s.next <= |data| && s.stop != Some(Io)
    decreases |data| - off
  {
    match ReadFrame(c, data, off)
    case End => Scanned([], None, off)
    case Fail(e) => Scanned([], Some(e), off)
    case Got(record, size) =>
      var s := Scan(c, data, off + size);
      Scanned([record] + s.records, s.stop, s.next)
  }
}
