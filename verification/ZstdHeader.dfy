/** The Zstandard frame header: section 3.1.1.1 of RFC 8878, the verdict of
    crates/kchat-backup/src/object/compression.rs on a whole header compared with it, and the incremental check
    proved to reach that verdict. */
module ZstdHeader {
  import opened Common
  import opened Bits

  // ---------------------------------------------------------------- RFC 8878, section 3.1.1.1

  const MAGIC: seq<byte> := [0x28, 0xb5, 0x2f, 0xfd]

  /** Frame_Header_Descriptor (section 3.1.1.1.1). */
  datatype FrameDescriptor = FrameDescriptor(
    sizeFlag: nat, singleSegment: bool, unused: bool, reserved: bool, checksum: bool, dictionaryFlag: nat)
  {
    /** Window_Descriptor is absent for single-segment frames. */
    function WindowBytes(): nat {
      if singleSegment then 0 else 1
    }

    /** Frame_Content_Size field size (section 3.1.1.1.4). */
    function SizeBytes(): nat {
      if sizeFlag == 0 then (if singleSegment then 1 else 0)
      else if sizeFlag == 1 then 2
      else if sizeFlag == 2 then 4
      else 8
    }

    /** Dictionary_ID field size (section 3.1.1.1.1.6). */
    function DictionaryBytes(): nat {
      if dictionaryFlag == 3 then 4 else dictionaryFlag
    }

    /** Length of the header including the magic number, without a Dictionary_ID. */
    function HeaderBytes(): nat {
      4 + 1 + WindowBytes() + SizeBytes()
    }
  }

  function ParseDescriptor(d: byte): FrameDescriptor {
    var n: nat := d;
    FrameDescriptor(n / 64, n / 32 % 2 == 1, n / 16 % 2 == 1, n / 8 % 2 == 1, n / 4 % 2 == 1, n % 4)
  }

  /** Window_Descriptor (section 3.1.1.1.2): exponent and mantissa. */
  function WindowSize(w: byte): nat {
    var n: nat := w;
    var windowBase := Pow2(10 + n / 8);
    windowBase + windowBase / 8 * (n % 8)
  }

  function LittleEndian(b: seq<byte>): nat {
    if b == [] then 0 else b[0] as nat + 256 * LittleEndian(b[1..])
  }

  /** Frame_Content_Size (section 3.1.1.1.4); an absent field reads as zero. */
  function ContentSize(field: seq<byte>): nat {
    LittleEndian(field) + if |field| == 2 then 256 else 0
  }

  /** Content sizes against the ranges the standard gives: 0 to 255 in one byte, 256 to 65,791 in two, low byte
      first. */
  lemma ContentValues(x: byte, y: byte)
    ensures ContentSize([x]) == x as nat <= 255
    ensures ContentSize([x, y]) == x as nat + 256 * (y as nat + 1) && 256 <= ContentSize([x, y]) <= 65_791
  {
    assert [x][1..] == [] && [x, y][1..] == [y] && [y][1..] == [];
    assert LittleEndian([y]) == y as nat && LittleEndian([x, y]) == x as nat + 256 * LittleEndian([y]);
  }

  /** Windows against those it gives: from 1 KiB in eighths of a power of two up to 3.75 TiB. */
  lemma WindowValues()
    ensures WindowSize(0) == 1024 && WindowSize(1) == 1024 + 128 && WindowSize(8) == 2048
    ensures WindowSize(255) == 0x3c0_0000_0000
  {
    Pow2Small();
    Pow2Adds(8, 2);
    Pow2Adds(8, 3);
    Pow2Large();
  }

  /** A frame header by the standard; a frame need not state its content size. */
  datatype FrameHeader = FrameHeader(length: nat, window: nat, content: Option<nat>, dictionaryBytes: nat)

  /** Magic number, descriptor, Window_Descriptor, Dictionary_ID, Frame_Content_Size, in this order. The reserved
      bit must be zero (section 3.1.1.1.1.4); the unused bit is ignored (section 3.1.1.1.1.3). */
  function ReadFrameHeader(b: seq<byte>): Option<FrameHeader> {
    if |b| < 5 || b[..4] != MAGIC then None else
    var d := ParseDescriptor(b[4]);
    var sizeAt := 5 + d.WindowBytes() + d.DictionaryBytes();
    var length := sizeAt + d.SizeBytes();
    if d.reserved || |b| < length then None else
    var content := if d.SizeBytes() == 0 then None else Some(ContentSize(b[sizeAt..length]));
    var window := if d.singleSegment then content.value else WindowSize(b[5]);
    Some(FrameHeader(length, window, content, d.DictionaryBytes()))
  }

  /** A complete header of a frame that needs no dictionary and keeps to both caps. */
  predicate Acceptable(b: seq<byte>) {
    match ReadFrameHeader(b)
    case None => false
    case Some(h) =>
      && h.dictionaryBytes == 0 && h.window <= MAX_WINDOW
      && (h.content.Some? ==> h.content.value <= MAX_PLAINTEXT)
  }

  // ---------------------------------------------------------------- the code's verdict

  /** No dictionary, and neither the unused nor the reserved bit. */
  predicate Plain(d: FrameDescriptor) {
    d.dictionaryFlag == 0 && !d.unused && !d.reserved
  }

  /** The content-size field of a complete header. */
  function SizeField(b: seq<byte>): seq<byte>
    requires |b| >= 5 && |b| >= ParseDescriptor(b[4]).HeaderBytes()
  {
    var d := ParseDescriptor(b[4]);
    b[d.HeaderBytes() - d.SizeBytes() .. d.HeaderBytes()]
  }

  function HeaderWindow(b: seq<byte>): nat
    requires |b| >= 5 && |b| >= ParseDescriptor(b[4]).HeaderBytes()
  {
    if ParseDescriptor(b[4]).singleSegment then ContentSize(SizeField(b)) else WindowSize(b[5])
  }

  datatype Scan = NeedMore | Reject(code: ErrorCode) | Accept(length: nat)

  /** The code's verdict on a whole input, read in one go. */
  function ScanHeader(b: seq<byte>): (s: Scan)
    ensures s.Accept? ==> 5 < s.length <= 14 && s.length <= |b|
  {
    if |b| < 5 then NeedMore
    else if b[..4] != MAGIC || !Plain(ParseDescriptor(b[4])) then Reject(InvalidCompressedData)
    else if |b| < ParseDescriptor(b[4]).HeaderBytes() then NeedMore
    else if HeaderWindow(b) > MAX_WINDOW || ContentSize(SizeField(b)) > MAX_PLAINTEXT
    then Reject(ResourceLimitExceeded)
    else Accept(ParseDescriptor(b[4]).HeaderBytes())
  }

  /** Against the standard: exactly the acceptable headers are accepted, at their length, except those that set the
      unused bit. */
  lemma AcceptsAllButUnusedBit(b: seq<byte>)
    ensures ScanHeader(b).Accept? <==> Acceptable(b) && !ParseDescriptor(b[4]).unused
    ensures ScanHeader(b).Accept? ==> ScanHeader(b).length == ReadFrameHeader(b).value.length
    ensures Acceptable(b) && ParseDescriptor(b[4]).unused ==> ScanHeader(b) == Reject(InvalidCompressedData)
  {
    if |b| >= 5 && b[..4] == MAGIC {
      var d := ParseDescriptor(b[4]);
      if d.dictionaryFlag == 0 && |b| >= d.HeaderBytes() {
        assert SizeField(b) == b[5 + d.WindowBytes()..d.HeaderBytes()];
      }
    }
  }

  /** The refusals: invalid from the fifth byte on for a wrong magic number, a dictionary, or the reserved or unused
      bit; over the limit as soon as the header is complete and states more than a cap; otherwise, while the
      header is incomplete, more is asked for. */
  lemma HeaderRefusals(b: seq<byte>)
    ensures ScanHeader(b) == Reject(InvalidCompressedData) <==>
            |b| >= 5 &&
            var d := ParseDescriptor(b[4]);
            b[..4] != MAGIC || d.dictionaryFlag > 0 || d.reserved || d.unused
    ensures ScanHeader(b) == Reject(ResourceLimitExceeded) <==>
            match ReadFrameHeader(b)
            case None => false
            case Some(h) =>
              && h.dictionaryBytes == 0 && !ParseDescriptor(b[4]).unused
              && (h.window > 8 * 1024 * 1024 || (h.content.Some? && h.content.value > 1024 * 1024 * 1024))
    ensures ScanHeader(b).Reject? ==> ScanHeader(b).code in {InvalidCompressedData, ResourceLimitExceeded}
    ensures ScanHeader(b) == NeedMore ==> |b| < 14
  {
    if |b| >= 5 && b[..4] == MAGIC {
      var d := ParseDescriptor(b[4]);
      if d.dictionaryFlag == 0 && |b| >= d.HeaderBytes() {
        assert SizeField(b) == b[5 + d.WindowBytes()..d.HeaderBytes()];
      }
    }
  }

  /** A single-segment header of a one-byte frame, with the unused bit set: acceptable and refused. */
  lemma UnusedBitIsRefused()
    ensures var b: seq<byte> := MAGIC + [0x30, 0x01];
            && Acceptable(b) && ReadFrameHeader(b).value.content == Some(1)
            && ScanHeader(b) == Reject(InvalidCompressedData)
  {
    var b: seq<byte> := MAGIC + [0x30, 0x01];
    assert b[..4] == MAGIC && b[4] == 0x30 && b[5..6] == [1];
    assert LittleEndian([1]) == 1 + 256 * LittleEndian([]);
    AcceptsAllButUnusedBit(b);
  }

  /** A verdict is final: more input does not change it. */
  lemma ScanIsStable(b: seq<byte>, more: seq<byte>)
    requires ScanHeader(b) != NeedMore
    ensures ScanHeader(b + more) == ScanHeader(b)
  {
    var c := b + more;
    assert c[..4] == b[..4] && c[4] == b[4];
    if Plain(ParseDescriptor(b[4])) && |b| >= ParseDescriptor(b[4]).HeaderBytes() {
      assert SizeField(c) == SizeField(b);
    }
  }

  /** A header is accepted at exactly its own length. */
  lemma ScanStopsAtHeader(b: seq<byte>, n: nat)
    requires ScanHeader(b).Accept? && n <= |b|
    ensures ScanHeader(b[..n]) == if n < ScanHeader(b).length then NeedMore else ScanHeader(b)
  {
    var p := b[..n];
    if n >= 5 {
      assert p[..4] == b[..4] && p[4] == b[4];
      if n >= ScanHeader(b).length {
        assert SizeField(p) == SizeField(b);
      }
    }
  }

  // ---------------------------------------------------------------- the incremental check

  lemma {:induction false} LittleEndianSnoc(b: seq<byte>, last: byte)
    ensures LittleEndian(b + [last]) == LittleEndian(b) + last as nat * Pow2(8 * |b|)
  {
    if b == [] {
      assert b + [last] == [last];
    } else {
      assert (b + [last])[1..] == b[1..] + [last];
      LittleEndianSnoc(b[1..], last);
      Pow2Small();
      Pow2Adds(8, 8 * |b[1..]|);
      assert 256 * (last * Pow2(8 * |b[1..]|)) == last * Pow2(8 * |b|);
    }
  }

  lemma {:induction false} LittleEndianBound(b: seq<byte>)
    ensures LittleEndian(b) < Pow2(8 * |b|)
  {
    if b != [] {
      LittleEndianBound(b[1..]);
      Pow2Small();
      Pow2Adds(8, 8 * |b[1..]|);
    }
  }

  lemma TopByteFits(field: seq<byte>, i: nat)
    requires i < |field| <= 8
    ensures LittleEndian(field[..i]) + field[i] as nat * Pow2(8 * i) < U64_RANGE
  {
    assert field[..i + 1] == field[..i] + [field[i]];
    LittleEndianSnoc(field[..i], field[i]);
    LittleEndianBound(field[..i + 1]);
    Pow2Large();
    Pow2Monotone(8 * (i + 1), 64);
  }

  /** One byte of `size |= (byte as u64) << (8 * i)`: it neither wraps nor collides. */
  lemma AccumulateByte(field: seq<byte>, i: nat)
    requires i < |field| <= 8
    ensures Or(LittleEndian(field[..i]), Shl64(field[i], 8 * i)) == LittleEndian(field[..i + 1]) < U64_RANGE
  {
    var low, x: nat := LittleEndian(field[..i]), field[i];
    TopByteFits(field, i);
    Shl64Exact(x, 8 * i);
    LittleEndianBound(field[..i]);
    OrAbove(low, x, 8 * i);
    assert field[..i + 1] == field[..i] + [field[i]];
    LittleEndianSnoc(field[..i], field[i]);
  }

  lemma WindowBase(w: byte)
    ensures Shl64(1, 10 + Shr(w, 3)) == Pow2(10 + w / 8) <= 0x200_0000_0000
  {
    ShrSmall(w);
    Pow2Large();
    Pow2Monotone(10 + w / 8, 41);
  }

  /** The largest window, (1 << 41) + 7 * (1 << 38), is far below 2^64. */
  lemma WindowFits(windowBase: nat, mantissa: nat)
    requires windowBase <= 0x200_0000_0000 && mantissa < 8
    ensures (windowBase + windowBase / 8 * mantissa) % U64_RANGE == windowBase + windowBase / 8 * mantissa < U64_RANGE
  {
    var eighth := windowBase / 8;
    assert eighth * mantissa <= 0x40_0000_0000 * 8 by {
      assert eighth * mantissa <= eighth * 8;
    }
  }

  /** The content-size loop. */
  method ReadSize(field: seq<byte>) returns (size: nat)
    requires |field| <= 8
    ensures size == ContentSize(field) < U64_RANGE
  {
    size := 0;
    for i := 0 to |field|
      invariant size == LittleEndian(field[..i]) < U64_RANGE
    {
      AccumulateByte(field, i);
      size := Or(size, Shl64(field[i], 8 * i));
    }
    assert field[..|field|] == field;
    if |field| == 2 {
      LittleEndianBound(field);
      Pow2Adds(8, 8);
      Pow2Small();
      size := (size + 256) % U64_RANGE;
    }
  }

  method ReadWindow(w: byte) returns (window: nat)
    ensures window == WindowSize(w) < U64_RANGE
  {
    WindowBase(w);
    MaskLow3(w);
    var windowBase := Shl64(1, 10 + Shr(w, 3));
    WindowFits(windowBase, And(w, 7));
    window := (windowBase + windowBase / 8 * And(w, 7)) % U64_RANGE;
  }

  /** The three descriptor checks as the code writes them. */
  lemma DescriptorBits(d: byte)
    ensures And(d, 0x1b) == 0 <==> Plain(ParseDescriptor(d))
    ensures And(d, 0x20) != 0 <==> ParseDescriptor(d).singleSegment
    ensures Shr(d, 6) == ParseDescriptor(d).sizeFlag
  {
    MaskReserved(d);
    MaskSingle(d);
    ShrSmall(d);
  }

  /** `check_header`: `Ok(false)` asks for more bytes. It gives the verdict above on every input. */
  method CheckHeader(header: seq<byte>) returns (r: Result<bool>)
    ensures r == match ScanHeader(header)
                 case NeedMore => Ok(false)
                 case Reject(e) => Err(e)
                 case Accept(_) => Ok(true)
  {
    if |header| < 5 {
      return Ok(false);
    }
    if header[..4] != MAGIC {
      return Err(InvalidCompressedData);
    }
    var descriptor := header[4];
    DescriptorBits(descriptor);
    if And(descriptor, 0x1b) != 0 {
      return Err(InvalidCompressedData);
    }
    var single := And(descriptor, 0x20) != 0;
    var flag := Shr(descriptor, 6);
    var sizeBytes :=
      if flag == 0 then (if single then 1 else 0) else if flag == 1 then 2 else if flag == 2 then 4 else 8;
    var sizeOffset := if single then 5 else 6;
    if |header| < sizeOffset + sizeBytes {
      return Ok(false);
    }
    var size := ReadSize(header[sizeOffset .. sizeOffset + sizeBytes]);
    var window := size;
    if !single {
      window := ReadWindow(header[5]);
    }
    if window > MAX_WINDOW || size > MAX_PLAINTEXT {
      return Err(ResourceLimitExceeded);
    }
    r := Ok(true);
  }
}
