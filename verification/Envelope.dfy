/** The KCBK V1 wire format of crates/kchat-backup/src/object/envelope.rs: a 29-byte header
    followed by length-prefixed AEAD-STREAM frames, all of them full except the last. */
module Envelope {
  import opened Common

  const HEADER_BYTES: nat := 29
  const NONCE_PREFIX_BYTES: nat := 19
  const BLOCK: nat := 65536
  const TAG: nat := 16
  const FULL_FRAME: nat := BLOCK + TAG
  const VERSION: nat := 1
  const SUITE: nat := 1
  const COMPRESSION: nat := 1

  type NoncePrefix = p: seq<byte> | |p| == NONCE_PREFIX_BYTES witness seq(NONCE_PREFIX_BYTES, _ => 0)

  const MAGIC: seq<byte> := [0x4b, 0x43, 0x42, 0x4b]

  function Be16(n: nat): seq<byte>
    requires n < 0x1_0000
  {
    [n / 256, n % 256]
  }

  function Be32(n: nat): seq<byte>
    requires n < 0x1_0000_0000
  {
    [n / 0x100_0000, n / 0x1_0000 % 256, n / 256 % 256, n % 256]
  }

  function FromBe32(b: seq<byte>): nat
    requires |b| == 4
  {
    (b[0] as int) * 0x100_0000 + (b[1] as int) * 0x1_0000 + (b[2] as int) * 256 + b[3] as int
  }

  lemma Be32RoundTrip(n: nat)
    requires n < 0x1_0000_0000
    ensures FromBe32(Be32(n)) == n
  {
    var a, b, c := n / 256, n / 0x1_0000, n / 0x100_0000;
    assert b == a / 256 && c == b / 256;
    assert n == 256 * a + n % 256;
    assert a == 256 * b + a % 256;
    assert b == 256 * c + b % 256;
  }

  /** `FromBe32` forgets nothing: the four bytes are those of the number. */
  lemma Be32Injective(b: seq<byte>)
    requires |b| == 4
    ensures FromBe32(b) < 0x1_0000_0000 && Be32(FromBe32(b)) == b
  {
    var n := FromBe32(b);
    var hi, mid, lo := b[0] as int, b[1] as int, b[2] as int;
    assert n / 256 == hi * 0x1_0000 + mid * 256 + lo;
    assert n / 0x1_0000 == hi * 256 + mid;
    assert n / 0x100_0000 == hi;
  }

  function SerializeHeader(prefix: NoncePrefix): (h: seq<byte>)
    ensures |h| == HEADER_BYTES
  {
    MAGIC + Be16(VERSION) + Be16(SUITE) + Be16(COMPRESSION) + prefix
  }

  function ParseHeader(h: seq<byte>): Result<NoncePrefix>
    requires |h| == HEADER_BYTES
  {
    if h[..4] != MAGIC || h[4..6] != Be16(VERSION) || h[6..8] != Be16(SUITE) || h[8..10] != Be16(COMPRESSION)
    then Err(UnsupportedFormat)
    else Ok(h[10..])
  }

  /** The first ten bytes of every object: "KCBK", then version, suite and compression 1, each high byte first. */
  const PREAMBLE: seq<byte> := [0x4b, 0x43, 0x42, 0x4b, 0, 1, 0, 1, 0, 1]

  /** The header byte by byte: what is written, and exactly what is accepted. */
  lemma HeaderLayout(prefix: NoncePrefix, h: seq<byte>)
    requires |h| == 29
    ensures SerializeHeader(prefix) == PREAMBLE + prefix && |prefix| == 19
    ensures ParseHeader(h) == if h[..10] == PREAMBLE then Ok(h[10..]) else Err(UnsupportedFormat)
  {
    var s := SerializeHeader(prefix);
    assert s[..10] == PREAMBLE by {
      assert s[..4] == MAGIC && s[4..6] == Be16(1) && s[6..8] == Be16(1) && s[8..10] == Be16(1);
      assert s[..10] == s[..4] + s[4..6] + s[6..8] + s[8..10];
    }
    assert s == s[..10] + s[10..] && s[10..] == prefix;
    assert h[..10] == h[..4] + h[4..6] + h[6..8] + h[8..10];
    assert PREAMBLE[..4] == MAGIC && PREAMBLE[4..6] == PREAMBLE[6..8] == PREAMBLE[8..10] == [0, 1] == Be16(1);
    if h[..10] == PREAMBLE {
      assert h[..4] == PREAMBLE[..4] && h[4..6] == PREAMBLE[4..6];
      assert h[6..8] == PREAMBLE[6..8] && h[8..10] == PREAMBLE[8..10];
    }
  }

  /** The number a byte string stands for, high byte first. */
  function BigEndian(b: seq<byte>): nat {
    if b == [] then 0 else 256 * BigEndian(b[..|b| - 1]) + b[|b| - 1] as nat
  }

  /** Lengths on the wire are four bytes, high byte first, read and written. */
  lemma LengthLayout(n: nat, b: seq<byte>)
    requires n < 0x1_0000_0000 && |b| == 4
    ensures |Be32(n)| == 4 && BigEndian(Be32(n)) == n && FromBe32(b) == BigEndian(b)
  {
    Be32RoundTrip(n);
    BigEndianOfFour(Be32(n));
    BigEndianOfFour(b);
  }

  lemma BigEndianOfFour(b: seq<byte>)
    requires |b| == 4
    ensures FromBe32(b) == BigEndian(b)
  {
    assert b[..3][..2] == b[..2] && b[..2][..1] == b[..1] && b[..1][..0] == [];
    assert BigEndian(b[..1]) == b[0] as nat;
    assert BigEndian(b[..2]) == 256 * BigEndian(b[..1]) + b[1] as nat;
    assert BigEndian(b[..3]) == 256 * BigEndian(b[..2]) + b[2] as nat;
  }

  /** Parsing accepts exactly the serialized headers, and recovers the nonce prefix. */
  lemma HeaderRoundTrip(h: seq<byte>, prefix: NoncePrefix)
    requires |h| == HEADER_BYTES
    ensures ParseHeader(h) == Ok(prefix) <==> h == SerializeHeader(prefix)
  {
    var s := SerializeHeader(prefix);
    assert s[..4] == MAGIC && s[4..6] == Be16(VERSION) && s[6..8] == Be16(SUITE) && s[8..10] == Be16(COMPRESSION);
    assert s[10..] == prefix;
    if ParseHeader(h) == Ok(prefix) {
      assert h == h[..4] + h[4..6] + h[6..8] + h[8..10] + h[10..];
    }
  }

  /** XChaCha20-Poly1305 in STREAM-BE32 mode for one key and one canonical context:
      nonce prefix, block counter, final flag and message or ciphertext. */
  datatype Aead = Aead(
    encrypt: (NoncePrefix, nat, bool, seq<byte>) -> seq<byte>,
    decrypt: (NoncePrefix, nat, bool, seq<byte>) -> Option<seq<byte>>)
  {
    /** The tag takes 16 bytes. */
    ghost predicate Sized() {
      && (forall p: NoncePrefix, i: nat, last: bool, m: seq<byte> :: |encrypt(p, i, last, m)| == |m| + TAG)
      && (forall p: NoncePrefix, i: nat, last: bool, c: seq<byte> ::
            decrypt(p, i, last, c).Some? ==> |c| == |decrypt(p, i, last, c).value| + TAG)
    }

    /** Correctness of a real cipher: decryption at the same position undoes encryption. */
    ghost predicate Correct() {
      && Sized()
      && (forall p: NoncePrefix, i: nat, last: bool, m: seq<byte> ::
            decrypt(p, i, last, encrypt(p, i, last, m)) == Some(m))
    }
  }

  /** Block `i` of a compressed stream; the one after the last full block is the (shorter) final block. */
  function Block(stream: seq<byte>, i: nat): (b: seq<byte>)
    requires Offset(i) <= |stream|
    ensures |b| <= BLOCK
  {
    stream[Offset(i) .. Min(Offset(i + 1), |stream|)]
  }

  /** Where block `i` starts in the compressed stream. */
  function Offset(i: nat): nat {
    i * 65536
  }

  /** Wire size of `n` full frames: 4 bytes of length, 65,536 of block and 16 of tag each. */
  function Frames(n: nat): nat {
    n * 65556
  }

  function FullBlocks(stream: seq<byte>): nat {
    |stream| / 65536
  }

  /** One frame on the wire: big-endian length, then ciphertext. */
  function Frame(ciphertext: seq<byte>): seq<byte>
    requires |ciphertext| < 0x1_0000_0000
  {
    Be32(|ciphertext|) + ciphertext
  }

  /** The first `n` frames, all non-final. */
  function NextFrames(a: Aead, prefix: NoncePrefix, stream: seq<byte>, n: nat): (f: seq<byte>)
    requires a.Sized()
    requires Offset(n) <= |stream|
    ensures |f| == Frames(n)
  {
    if n == 0 then [] else
    NextFrames(a, prefix, stream, n - 1) + Frame(a.encrypt(prefix, n - 1, false, Block(stream, n - 1)))
  }

  function FinalFrame(a: Aead, prefix: NoncePrefix, stream: seq<byte>): (f: seq<byte>)
    requires a.Sized()
    ensures |f| == 4 + TAG + |stream| % 65536
  {
    Frame(a.encrypt(prefix, FullBlocks(stream), true, Block(stream, FullBlocks(stream))))
  }

  /** One call of the STREAM encryptor: position, final flag and block. */
  datatype Call = Call(position: nat, last: bool, message: seq<byte>)

  /** The calls that seal the first `n` blocks. */
  function NextCalls(stream: seq<byte>, n: nat): (calls: seq<Call>)
    requires Offset(n) <= |stream|
    ensures |calls| == n
  {
    if n == 0 then [] else NextCalls(stream, n - 1) + [Call(n - 1, false, Block(stream, n - 1))]
  }

  /** What one writer sealed under its nonce prefix. An aborted writer never seals a final block; one that fails
      has done so only if it failed while sending that block. */
  datatype Session = Session(stream: seq<byte>, finished: bool)
  {
    predicate SealedAt(i: nat, last: bool) {
      if last then finished && i == FullBlocks(stream) else i < FullBlocks(stream)
    }

    /** The calls of the encryptor, in order. */
    function Calls(): seq<Call> {
      var n := FullBlocks(stream);
      NextCalls(stream, n) + if finished then [Call(n, true, Block(stream, n))] else []
    }
  }

  /** The recorded calls are exactly the session's blocks, each in its place. */
  lemma CallsAreSealed(s: Session, c: Call)
    ensures c in s.Calls() <==> s.SealedAt(c.position, c.last) && c.message == Block(s.stream, c.position)
  {
    NextCallsAre(s.stream, FullBlocks(s.stream), c);
  }

  lemma {:induction false} NextCallsAre(stream: seq<byte>, n: nat, c: Call)
    requires Offset(n) <= |stream|
    ensures c in NextCalls(stream, n) <==> c.position < n && c == Call(c.position, false, Block(stream, c.position))
  {
    if n > 0 {
      NextCallsAre(stream, n - 1, c);
    }
  }

  lemma {:induction false} NextCallsDependOnPrefix(s: seq<byte>, t: seq<byte>, n: nat)
    requires s <= t && Offset(n) <= |s|
    ensures NextCalls(s, n) == NextCalls(t, n)
  {
    if n > 0 {
      NextCallsDependOnPrefix(s, t, n - 1);
      assert Block(s, n - 1) == Block(t, n - 1);
    }
  }

  /** Calls for the first blocks only are those of an unfinished session that got that far. */
  lemma NextCallsAreASession(stream: seq<byte>, n: nat)
    requires Offset(n) <= |stream|
    ensures Session(stream[..Offset(n)], false).Calls() == NextCalls(stream, n)
  {
    var part := stream[..Offset(n)];
    assert FullBlocks(part) == n;
    NextCallsDependOnPrefix(part, stream, n);
    assert Session(part, false).Calls() == NextCalls(part, n) + [];
  }

  /** Header and the first `n` non-final frames. */
  function Opening(a: Aead, prefix: NoncePrefix, stream: seq<byte>, n: nat): (e: seq<byte>)
    requires a.Sized()
    requires Offset(n) <= |stream|
    ensures |e| == HEADER_BYTES + Frames(n)
  {
    SerializeHeader(prefix) + NextFrames(a, prefix, stream, n)
  }

  /** The sealed object for a compressed stream. */
  function Sealed(a: Aead, prefix: NoncePrefix, stream: seq<byte>): (e: seq<byte>)
    requires a.Sized()
    ensures |e| == SealedSize(|stream|)
  {
    Opening(a, prefix, stream, FullBlocks(stream)) + FinalFrame(a, prefix, stream)
  }

  /** 29 bytes of header, the stream, and 20 bytes per frame. */
  function SealedSize(c: nat): nat {
    HEADER_BYTES + c + 20 * (c / 65536 + 1)
  }

  /** `NextFrames` reads only the blocks it covers. */
  lemma {:induction false} NextFramesDependOnPrefix(a: Aead, prefix: NoncePrefix, s: seq<byte>, t: seq<byte>, n: nat)
    requires a.Sized()
    requires s <= t && Offset(n) <= |s|
    ensures NextFrames(a, prefix, s, n) == NextFrames(a, prefix, t, n)
  {
    if n > 0 {
      NextFramesDependOnPrefix(a, prefix, s, t, n - 1);
      assert Block(s, n - 1) == Block(t, n - 1);
    }
  }

  lemma {:induction false} NextFramesNest(a: Aead, prefix: NoncePrefix, s: seq<byte>, m: nat, n: nat)
    requires a.Sized()
    requires m <= n && Offset(n) <= |s|
    ensures NextFrames(a, prefix, s, m) <= NextFrames(a, prefix, s, n)
    decreases n
  {
    if m < n {
      NextFramesNest(a, prefix, s, m, n - 1);
      assert NextFrames(a, prefix, s, n - 1) <= NextFrames(a, prefix, s, n);
    }
  }

  /** The blocks of a stream, glued back together, are the stream. */
  function BlocksUpTo(stream: seq<byte>, n: nat): seq<seq<byte>>
    requires n <= FullBlocks(stream) + 1
  {
    seq(n, i requires 0 <= i < n => Block(stream, i))
  }

  lemma {:induction false} BlocksGlue(stream: seq<byte>, n: nat)
    requires n <= FullBlocks(stream) + 1
    ensures Flatten(BlocksUpTo(stream, n)) == stream[..Min(Offset(n), |stream|)]
  {
    if n > 0 {
      BlocksGlue(stream, n - 1);
      assert BlocksUpTo(stream, n)[..n - 1] == BlocksUpTo(stream, n - 1);
      var lo, hi := Offset(n - 1), Min(Offset(n), |stream|);
      assert stream[..lo] + stream[lo..hi] == stream[..hi];
    }
  }
}
