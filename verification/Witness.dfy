/** The contracts assumed of codec, encoder and ciphers can be met, and together: a codec that stores every content byte
    by byte, a cipher with a blank tag, and an ideal cipher for any ledger. So the theorems that assume them are
    not empty. */
module Witness {
  import opened Common
  import opened Bits
  import opened Envelope
  import opened ZstdHeader
  import opened Decoder
  import opened DecoderLaws
  import opened Sealing
  import opened Integrity
  import opened EndToEnd

  // ---------------------------------------------------------------- a codec for every content

  /** Magic number, a descriptor without flags, and the smallest window. */
  const HEADER: seq<byte> := ZstdHeader.MAGIC + [0, 0]

  /** Each content byte is announced by a one; a zero ends the frame. */
  function Escape(content: seq<byte>): (b: seq<byte>)
    ensures |b| > 0
  {
    if content == [] then [0] else [1, content[0]] + Escape(content[1..])
  }

  /** The content bytes found so far. */
  function Body(b: seq<byte>): (content: seq<byte>) {
    if |b| < 2 || b[0] != 1 then [] else [b[1]] + Body(b[2..])
  }

  /** Announced bytes and one zero, and nothing after it. */
  predicate Whole(b: seq<byte>) {
    b != [] && if b[0] == 0 then |b| == 1 else b[0] == 1 && |b| >= 2 && Whole(b[2..])
  }

  lemma {:induction false} EscapeRoundTrip(content: seq<byte>)
    ensures Whole(Escape(content)) && Body(Escape(content)) == content
  {
    if content != [] {
      EscapeRoundTrip(content[1..]);
      assert Escape(content)[2..] == Escape(content[1..]);
    }
  }

  /** One more byte completes at most one content byte. */
  lemma {:induction false} BodySnoc(b: seq<byte>, x: byte)
    ensures Body(b) <= Body(b + [x]) && |Body(b + [x])| <= |Body(b)| + 1
  {
    if |b| >= 2 {
      BodySnoc(b[2..], x);
      assert (b + [x])[2..] == b[2..] + [x];
    } else if |b| == 1 {
      assert (b + [x])[2..] == [];
    }
  }

  lemma {:induction false} BodyGrows(b: seq<byte>, c: seq<byte>)
    requires b <= c
    ensures Body(b) <= Body(c)
  {
    if |b| >= 2 {
      BodyGrows(b[2..], c[2..]);
    }
  }

  /** No whole string continues another. */
  lemma {:induction false} WholeIsPrefixFree(b: seq<byte>, c: seq<byte>)
    requires b <= c && Whole(b) && Whole(c)
    ensures b == c
  {
    if b[0] != 0 {
      WholeIsPrefixFree(b[2..], c[2..]);
      assert b == b[..2] + b[2..] && c == c[..2] + c[2..];
    }
  }

  predicate IsFrame(b: seq<byte>) {
    |b| >= 6 && b[..6] == HEADER && Whole(b[6..])
  }

  function Produced(consumed: seq<byte>): seq<byte> {
    if |consumed| < 6 then [] else Body(consumed[6..])
  }

  lemma ProducedSnoc(b: seq<byte>, x: byte)
    ensures Produced(b) <= Produced(b + [x]) && |Produced(b + [x])| <= |Produced(b)| + 1
  {
    if |b| >= 6 {
      assert (b + [x])[6..] == b[6..] + [x];
      BodySnoc(b[6..], x);
    } else if |b| == 5 {
      assert (b + [x])[6..] == [];
    }
  }

  lemma PartOfFrame(b: seq<byte>, frame: seq<byte>)
    requires b <= frame && IsFrame(frame)
    ensures Produced(b) <= Produced(frame)
    ensures IsFrame(b) <==> b == frame
  {
    if |b| >= 6 {
      BodyGrows(b[6..], frame[6..]);
      if IsFrame(b) {
        WholeIsPrefixFree(b[6..], frame[6..]);
        assert b == b[..6] + b[6..] && frame == frame[..6] + frame[6..];
      }
    }
  }

  // ---------------------------------------------------------------- its decoder

  /** A byte string as a number, in bijective base 256: the decoder's state is all it has consumed. */
  function Code(b: seq<byte>): nat {
    if b == [] then 0 else 256 * Code(b[..|b| - 1]) + b[|b| - 1] as nat + 1
  }

  function FromCode(n: nat): seq<byte> {
    if n == 0 then [] else FromCode((n - 1) / 256) + [(n - 1) % 256]
  }

  lemma {:induction false} CodeRoundTrip(b: seq<byte>)
    ensures FromCode(Code(b)) == b
  {
    if b != [] {
      var n := |b| - 1;
      CodeRoundTrip(b[..n]);
      assert (Code(b) - 1) / 256 == Code(b[..n]) && (Code(b) - 1) % 256 == b[n];
      assert b == b[..n] + [b[n]];
    }
  }

  /** It takes one byte at a time, and stays put at the end of the frame. */
  function RawRun(s: nat, input: seq<byte>, cap: nat): Run {
    var consumed := FromCode(s);
    if IsFrame(consumed) then Ran(s, 0, [], 0)
    else if input == [] || cap == 0 then Ran(s, 0, [], 1)
    else
      var next := consumed + [input[0]];
      Ran(Code(next), 1, Produced(next)[Min(|Produced(consumed)|, |Produced(next)|)..], if IsFrame(next) then 0 else 1)
  }

  function RawZstd(): Zstd {
    Zstd(0, (s: nat, input: seq<byte>, cap: nat) => RawRun(s, input, cap))
  }

  function RawView(s: nat): Progress {
    Progress(FromCode(s), Produced(FromCode(s)))
  }

  function RawFormat(): Format {
    Format((s: nat) => RawView(s), (b: seq<byte>) => if IsFrame(b) then Some(Produced(b)) else None)
  }

  lemma TakeByte(consumed: seq<byte>, x: byte, s: nat)
    requires s == Code(consumed + [x])
    ensures FromCode(s) == consumed + [x]
    ensures var before, after := Produced(consumed), Produced(consumed + [x]);
            |before| <= |after| <= |before| + 1 && after == before + after[|before|..]
  {
    ProducedSnoc(consumed, x);
    CodeRoundTrip(consumed + [x]);
  }

  lemma RawRunMoves(s: nat, input: seq<byte>, cap: nat)
    ensures var run := RawRun(s, input, cap);
            && run.Ran? && run.read <= |input| && |run.out| <= cap
            && RawView(run.next) == Progress(FromCode(s) + input[..run.read], Produced(FromCode(s)) + run.out)
            && (run.remaining == 0 <==> IsFrame(FromCode(run.next)))
            && (run.read == 0 ==> run.next == s && (IsFrame(FromCode(s)) || input == [] || cap == 0))
  {
    var consumed := FromCode(s);
    if IsFrame(consumed) || input == [] || cap == 0 {
      assert consumed + input[..0] == consumed && Produced(consumed) + [] == Produced(consumed);
    } else {
      TakeByte(consumed, input[0], Code(consumed + [input[0]]));
      assert input[..1] == [input[0]];
    }
  }

  lemma RawDecodes(frame: seq<byte>)
    requires IsFrame(frame)
    ensures RawFormat().Decodes(RawZstd(), frame, Produced(frame))
  {
    var z, f, content := RawZstd(), RawFormat(), Produced(frame);
    forall s: nat, input: seq<byte>, cap: nat | cap > 0 && f.Midway(s, input, frame, content)
      ensures var run := z.run(s, input, cap);
              && run.Ran? && f.view(run.next).produced <= content
              && (run.remaining == 0 <==> f.view(run.next) == Progress(frame, content))
              && (run.read == 0 && run.out == [] ==> input == [] && f.view(s).consumed != frame)
    {
      RawRunMoves(s, input, cap);
      var run := RawRun(s, input, cap);
      PartOfFrame(FromCode(s), frame);
      assert FromCode(s) + input[..run.read] <= FromCode(s) + input;
      PartOfFrame(FromCode(run.next), frame);
    }
  }

  lemma RawImplements()
    ensures RawFormat().Implements(RawZstd())
  {
    var z, f := RawZstd(), RawFormat();
    forall s: nat, input: seq<byte>, cap: nat
      ensures var run := z.run(s, input, cap);
              && run.Ran? && run.read <= |input| && |run.out| <= cap
              && f.view(run.next) == Progress(f.view(s).consumed + input[..run.read], f.view(s).produced + run.out)
              && (run.remaining == 0 ==> f.plain(f.view(run.next).consumed) == Some(f.view(run.next).produced))
    {
      RawRunMoves(s, input, cap);
    }
    forall frame: seq<byte> | f.plain(frame).Some?
      ensures f.Decodes(z, frame, f.plain(frame).value)
    {
      RawDecodes(frame);
    }
  }

  // ---------------------------------------------------------------- its encoder

  /** It keeps everything back until it is closed. */
  function RawEncoder(): Encoder {
    Encoder((past: seq<seq<byte>>, chunk: seq<byte>) => [],
            (chunks: seq<seq<byte>>) => [HEADER + Escape(Flatten(chunks))])
  }

  lemma {:induction false} RawCompressed(chunks: seq<seq<byte>>)
    ensures RawEncoder().Emitted(chunks) == []
    ensures RawEncoder().Compressed(chunks) == HEADER + Escape(Flatten(chunks))
  {
    if chunks != [] {
      RawCompressed(chunks[..|chunks| - 1]);
      assert Flatten([]) == [];
    }
    var last := HEADER + Escape(Flatten(chunks));
    var writes: seq<seq<byte>> := [last];
    assert writes[..0] == [];
    assert Flatten(writes) == [] + last;
  }

  lemma HeaderAccepted(rest: seq<byte>)
    ensures ScanHeader(HEADER + rest).Accept?
  {
    assert ParseDescriptor(0) == FrameDescriptor(0, false, false, false, false, 0);
    assert HEADER[..4] == ZstdHeader.MAGIC && HEADER[4] == 0 && HEADER[5] == 0;
    assert SizeField(HEADER) == [];
    Pow2Small();
    Pow2Adds(8, 2);
    assert Pow2(10) == 1024;
    ScanIsStable(HEADER, rest);
  }

  lemma RawEncodes()
    ensures Encodes(RawEncoder(), RawFormat())
  {
    forall chunks: seq<seq<byte>>
      ensures RawFormat().plain(RawEncoder().Compressed(chunks)) == Some(Flatten(chunks))
      ensures ScanHeader(RawEncoder().Compressed(chunks)).Accept?
    {
      RawCompressed(chunks);
      var body := Escape(Flatten(chunks));
      EscapeRoundTrip(Flatten(chunks));
      assert (HEADER + body)[..6] == HEADER && (HEADER + body)[6..] == body;
      HeaderAccepted(body);
    }
  }

  // ---------------------------------------------------------------- ciphers

  function BlankTag(): (t: seq<byte>)
    ensures |t| == TAG
  {
    seq(TAG, _ => 0)
  }

  /** A cipher that appends a blank tag and checks it. */
  function BlankCipher(): Aead {
    Aead((p: NoncePrefix, i: nat, last: bool, m: seq<byte>) => m + BlankTag(),
         (p: NoncePrefix, i: nat, last: bool, c: seq<byte>) =>
           if |c| >= TAG && c[|c| - TAG..] == BlankTag() then Some(c[..|c| - TAG]) else None)
  }

  /** One that appends a blank tag and decrypts only what the ledger holds. */
  function LedgerCipher(ledger: map<NoncePrefix, Session>): Aead {
    Aead((p: NoncePrefix, i: nat, last: bool, m: seq<byte>) => m + BlankTag(),
         (p: NoncePrefix, i: nat, last: bool, c: seq<byte>) =>
           if p in ledger && ledger[p].SealedAt(i, last) && c == Block(ledger[p].stream, i) + BlankTag()
           then Some(Block(ledger[p].stream, i)) else None)
  }

  /** Everything `EndToEnd.SealThenOpen` assumes, at once. */
  lemma RoundTripContractsAreSatisfiable()
    ensures BlankCipher().Correct() && RawFormat().Implements(RawZstd()) && Encodes(RawEncoder(), RawFormat())
  {
    RawImplements();
    RawEncodes();
    forall p: NoncePrefix, i: nat, last: bool, m: seq<byte>
      ensures BlankCipher().decrypt(p, i, last, BlankCipher().encrypt(p, i, last, m)) == Some(m)
    {
      var c := m + BlankTag();
      assert c[|c| - TAG..] == BlankTag() && c[..|c| - TAG] == m;
    }
  }

  /** Everything the integrity theorems assume, for any ledger. */
  lemma IntegrityContractsAreSatisfiable(ledger: map<NoncePrefix, Session>)
    ensures Ideal(LedgerCipher(ledger), ledger) && RawFormat().Implements(RawZstd())
  {
    RawImplements();
  }
}
