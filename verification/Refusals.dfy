/** How damaged objects are refused, error code included: cut short, extended, altered, or compressed from too much. */
module Refusals {
  import opened Common
  import opened Envelope
  import opened ZstdHeader
  import opened Decoder
  import opened DecoderLaws
  import opened Reader
  import opened ObjectTheorems
  import opened Integrity

  // ---------------------------------------------------------------- one frame

  /** The bytes of a frame and of the length after it decide before anything is decrypted: data that ends too early is
      malformed (or over the limit, if there is more of it than 256 MiB), and so is a length outside 16..65552 or one
      after a frame that is not full. What is left is decrypted, or refused as not authentic. */
  lemma FrameRefusals(a: Aead, k: Consumer, prefix: NoncePrefix, data: seq<byte>, p: nat, length: nat, i: nat, d: Dec)
    requires p <= |data|
    ensures var q, limit := p + length, 256 * 1024 * 1024;
            var short := if |data| > limit then ResourceLimitExceeded else MalformedObject;
            OneFrame(a, k, prefix, data, p, length, i, d) ==
              if q > |data| || q > limit then Refuse(d, short)
              else if q < |data| && (q + 4 > |data| || q + 4 > limit) then Refuse(d, short)
              else if q < |data| && !(16 <= BigEndian(data[q..q + 4]) <= 65552 && length == 65552)
              then Refuse(d, MalformedObject)
              else
                match a.decrypt(prefix, i, q == |data|, data[p..q])
                case None => Refuse(d, AuthenticationFailed)
                case Some(block) =>
                  if k(d, block).verdict.Fail? || q == |data| then Halt(k(d, block))
                  else Onward(k(d, block), BigEndian(data[q..q + 4]))
  {
    var q := p + length;
    if q + 4 <= |data| {
      BigEndianOfFour(data[q..q + 4]);
    }
  }

  /** A frame that ends the data, or a full one with a proper length after it, is decrypted. */
  lemma ProperFrame(a: Aead, k: Consumer, prefix: NoncePrefix, data: seq<byte>, p: nat, length: nat, i: nat, d: Dec)
    requires p + length <= |data| <= MAX_CIPHERTEXT
    requires p + length < |data| ==>
               p + length + 4 <= |data| && length == FULL_FRAME && NextLength(data, p + length).Ok?
    ensures a.decrypt(prefix, i, p + length == |data|, data[p..p + length]).None? ==>
              OneFrame(a, k, prefix, data, p, length, i, d) == Refuse(d, AuthenticationFailed)
  {
  }

  lemma AgreeEarlier(x: seq<byte>, y: seq<byte>, n: nat, m: nat)
    requires m <= n <= |x| && n <= |y| && x[..n] == y[..n]
    ensures x[..m] == y[..m]
  {
    assert x[..n][..m] == x[..m] && y[..n][..m] == y[..m];
  }

  /** Headers: too short an object is malformed, another format is unsupported. */
  lemma HeaderRefusals(a: Aead, k: Consumer, start: Dec, data: seq<byte>)
    ensures |data| < 29 ==> Authenticate(a, k, start, data) == Pushed(start, [], Fail(MalformedObject))
    ensures 29 <= |data| && data[..10] != PREAMBLE ==>
              Authenticate(a, k, start, data) == Pushed(start, [], Fail(UnsupportedFormat))
    ensures 29 <= |data| < 33 && data[..10] == PREAMBLE ==>
              Authenticate(a, k, start, data) == Pushed(start, [], Fail(MalformedObject))
  {
    if 29 <= |data| {
      HeaderLayout(data[10..29], data[..29]);
      assert data[0..29] == data[..29] && data[..29][..10] == data[..10];
    }
  }

  // ---------------------------------------------------------------- up to the damage

  /** A frame is read from its own bytes and the length after it. */
  lemma OneFrameAgrees(a: Aead, k: Consumer, prefix: NoncePrefix, x: seq<byte>, y: seq<byte>, p: nat, length: nat,
                       i: nat, d: Dec)
    requires p + length + 4 <= |x| <= MAX_CIPHERTEXT && p + length + 4 <= |y| <= MAX_CIPHERTEXT
    requires x[..p + length + 4] == y[..p + length + 4]
    ensures OneFrame(a, k, prefix, x, p, length, i, d) == OneFrame(a, k, prefix, y, p, length, i, d)
  {
    var q := p + length;
    assert x[p..q] == x[..q + 4][p..q] && y[p..q] == y[..q + 4][p..q];
    assert x[q..q + 4] == x[..q + 4][q..] && y[q..q + 4] == y[..q + 4][q..];
  }

  /** `data` agrees with the sealed object up to and including the length of frame `j`. */
  ghost predicate SoundUpTo(a: Aead, prefix: NoncePrefix, stream: seq<byte>, data: seq<byte>, j: nat)
    requires a.Sized()
  {
    && j <= FullBlocks(stream) && FrameStart(j) + 4 <= |data| <= MAX_CIPHERTEXT
    && FrameStart(j) + 4 <= |Sealed(a, prefix, stream)| <= MAX_CIPHERTEXT
    && data[..FrameStart(j) + 4] == Sealed(a, prefix, stream)[..FrameStart(j) + 4]
  }

  lemma PassesBefore(k: Consumer, start: Dec, stream: seq<byte>, i: nat, j: nat)
    requires i <= j <= |AllBlocks(stream)| && PushAll(k, start, AllBlocks(stream)[..j]).verdict.Pass?
    ensures PushAll(k, start, AllBlocks(stream)[..i]).verdict.Pass?
  {
    var part := AllBlocks(stream)[..j];
    assert part[..i] == AllBlocks(stream)[..i];
    if PushAll(k, start, part[..i]).verdict.Fail? {
      FailureSticks(k, start, part, i);
    }
  }

  lemma SoundEarlier(a: Aead, prefix: NoncePrefix, stream: seq<byte>, data: seq<byte>, i: nat, j: nat)
    requires a.Sized() && SoundUpTo(a, prefix, stream, data, j) && i <= j
    ensures SoundUpTo(a, prefix, stream, data, i)
  {
    assert FrameStart(i) <= FrameStart(j);
    AgreeEarlier(data, Sealed(a, prefix, stream), FrameStart(j) + 4, FrameStart(i) + 4);
  }

  lemma SoundFrame(a: Aead, k: Consumer, prefix: NoncePrefix, stream: seq<byte>, data: seq<byte>, i: nat, d: Dec)
    requires Decrypts(a, prefix, stream) && SoundUpTo(a, prefix, stream, data, i + 1)
    requires k(d, Block(stream, i)).verdict.Pass?
    ensures OneFrame(a, k, prefix, data, FrameStart(i) + 4, |Ciphertext(a, prefix, stream, i)|, i, d) ==
            Onward(k(d, Block(stream, i)), |Ciphertext(a, prefix, stream, i + 1)|)
  {
    FrameOpens(a, k, prefix, stream, i, d);
    OneFrameAgrees(a, k, prefix, data, Sealed(a, prefix, stream), FrameStart(i) + 4,
                   |Ciphertext(a, prefix, stream, i)|, i, d);
  }

  /** Frame `j` is refused with this error. */
  ghost predicate RefusesFrame(a: Aead, k: Consumer, prefix: NoncePrefix, stream: seq<byte>, data: seq<byte>, j: nat,
                               d: Dec, e: ErrorCode)
    requires j <= FullBlocks(stream)
  {
    && FrameStart(j) + 4 <= |data|
    && OneFrame(a, k, prefix, data, FrameStart(j) + 4, |Ciphertext(a, prefix, stream, j)|, j, d) == Refuse(d, e)
  }

  /** What is refused at frame `j` after a sound beginning: the blocks before it have been decoded, and its error is the
      outcome. */
  lemma RefusedAt(a: Aead, k: Consumer, start: Dec, prefix: NoncePrefix, stream: seq<byte>, data: seq<byte>, j: nat,
                  there: Pushed, e: ErrorCode)
    requires Decrypts(a, prefix, stream) && SoundUpTo(a, prefix, stream, data, j)
    requires there == PushAll(k, start, AllBlocks(stream)[..j]) && there.verdict.Pass?
    requires RefusesFrame(a, k, prefix, stream, data, j, there.dec, e)
    ensures Authenticate(a, k, start, data) == Pushed(there.dec, there.emitted, Fail(e))
  {
    assert AllBlocks(stream)[..0] == [] && FrameStart(0) == 29 <= FrameStart(j);
    RefusalIsInductive(a, k, start, prefix, stream, data, j, there, e);
    LoopFromStart(a, k, start, prefix, stream, data, UpToFrame(a, k, start, prefix, stream, j),
                  Ends(Pushed(there.dec, there.emitted, Fail(e))));
    SoundStart(a, k, start, prefix, stream, data, j);
  }

  ghost function UpToFrame(a: Aead, k: Consumer, start: Dec, prefix: NoncePrefix, stream: seq<byte>, j: nat):
    (nat, nat, nat, Pushed) -> bool
  {
    (p: nat, length: nat, i: nat, before: Pushed) =>
      i <= j && AtFrame(a, k, start, prefix, stream, p, length, i, before)
  }

  ghost function Ends(end: Pushed): Pushed -> bool {
    (r: Pushed) => r == end
  }

  lemma RefusalIsInductive(a: Aead, k: Consumer, start: Dec, prefix: NoncePrefix, stream: seq<byte>, data: seq<byte>,
                           j: nat, there: Pushed, e: ErrorCode)
    requires Decrypts(a, prefix, stream) && SoundUpTo(a, prefix, stream, data, j)
    requires there == PushAll(k, start, AllBlocks(stream)[..j]) && there.verdict.Pass?
    requires RefusesFrame(a, k, prefix, stream, data, j, there.dec, e)
    ensures Inductive(a, k, prefix, data, UpToFrame(a, k, start, prefix, stream, j),
                      Ends(Pushed(there.dec, there.emitted, Fail(e))))
  {
    var inv, post := UpToFrame(a, k, start, prefix, stream, j), Ends(Pushed(there.dec, there.emitted, Fail(e)));
    forall p: nat, length: nat, i: nat, before: Pushed | inv(p, length, i, before)
      ensures p <= |data|
      ensures HandsOn(OneFrame(a, k, prefix, data, p, length, i, before.dec), inv, post, p, length, i, before)
    {
      var step := OneFrameOf(a, k, start, prefix, stream, data, j, there, e, p, length, i, before);
      assert HandsOn(step, inv, post, p, length, i, before);
    }
  }

  lemma OneFrameOf(a: Aead, k: Consumer, start: Dec, prefix: NoncePrefix, stream: seq<byte>, data: seq<byte>, j: nat,
                   there: Pushed, e: ErrorCode, p: nat, length: nat, i: nat, before: Pushed)
    returns (step: Step)
    requires Decrypts(a, prefix, stream) && SoundUpTo(a, prefix, stream, data, j) && i <= j
    requires there == PushAll(k, start, AllBlocks(stream)[..j]) && there.verdict.Pass?
    requires RefusesFrame(a, k, prefix, stream, data, j, there.dec, e)
    requires AtFrame(a, k, start, prefix, stream, p, length, i, before)
    ensures p <= |data| && step == OneFrame(a, k, prefix, data, p, length, i, before.dec)
    ensures step.Halt? ==> Joined(before, step.pushed) == Pushed(there.dec, there.emitted, Fail(e))
    ensures step.Onward? ==>
              && i < j
              && AtFrame(a, k, start, prefix, stream, p + length + 4, step.length, i + 1, Joined(before, step.pushed))
  {
    if i < j {
      SoundEarlier(a, prefix, stream, data, i, j);
      SoundFrameHandsOn(a, k, start, prefix, stream, data, p, length, i, j, before);
      step := OneFrame(a, k, prefix, data, p, length, i, before.dec);
    } else {
      step := RefusedFrameEnds(a, k, start, prefix, stream, data, j, there, e, p, length, before);
    }
  }

  lemma RefusedFrameEnds(a: Aead, k: Consumer, start: Dec, prefix: NoncePrefix, stream: seq<byte>, data: seq<byte>,
                         j: nat, there: Pushed, e: ErrorCode, p: nat, length: nat, before: Pushed)
    returns (step: Step)
    requires j <= FullBlocks(stream) && RefusesFrame(a, k, prefix, stream, data, j, there.dec, e)
    requires there == PushAll(k, start, AllBlocks(stream)[..j])
    requires AtFrame(a, k, start, prefix, stream, p, length, j, before)
    ensures p <= |data| && step == OneFrame(a, k, prefix, data, p, length, j, before.dec) && step.Halt?
    ensures Joined(before, step.pushed) == Pushed(there.dec, there.emitted, Fail(e))
  {
    step := Refuse(there.dec, e);
    assert there.emitted + [] == there.emitted;
  }

  /** Frame `i` of the damaged data, which lies before the damage. */
  lemma SoundFrameHandsOn(a: Aead, k: Consumer, start: Dec, prefix: NoncePrefix, stream: seq<byte>, data: seq<byte>,
                          p: nat, length: nat, i: nat, j: nat, before: Pushed)
    requires Decrypts(a, prefix, stream) && SoundUpTo(a, prefix, stream, data, j) && i < j
    requires AtFrame(a, k, start, prefix, stream, p, length, i, before) && p <= |data|
    requires PushAll(k, start, AllBlocks(stream)[..j]).verdict.Pass?
    ensures var step := OneFrame(a, k, prefix, data, p, length, i, before.dec);
            step.Onward? &&
            AtFrame(a, k, start, prefix, stream, p + length + 4, step.length, i + 1, Joined(before, step.pushed))
  {
    SoundEarlier(a, prefix, stream, data, i + 1, j);
    PushOneMore(k, start, stream, i);
    PassesBefore(k, start, stream, i + 1, j);
    SoundFrame(a, k, prefix, stream, data, i, before.dec);
    assert FrameStart(i) + 4 + FULL_FRAME == FrameStart(i + 1);
  }

  lemma SoundStart(a: Aead, k: Consumer, start: Dec, prefix: NoncePrefix, stream: seq<byte>, data: seq<byte>, j: nat)
    requires a.Sized() && SoundUpTo(a, prefix, stream, data, j)
    ensures Authenticate(a, k, start, data) == FirstFrames(a, k, start, prefix, stream, data)
  {
    var whole := Sealed(a, prefix, stream);
    SoundEarlier(a, prefix, stream, data, 0, j);
    assert FrameStart(0) == 29;
    FrameReads(a, prefix, stream, 0);
    SealedHeader(a, prefix, stream, whole);
    assert data[0..29] == data[..33][0..29] && whole[0..29] == whole[..33][0..29];
    assert data[29..33] == data[..33][29..33] && whole[29..33] == whole[..33][29..33];
  }

  // ---------------------------------------------------------------- truncation, extension, alteration

  /** Cut within frame `j`, or right after it when more frames should follow. */
  lemma CutInFrame(a: Aead, k: Consumer, start: Dec, ledger: map<NoncePrefix, Session>, prefix: NoncePrefix, n: nat,
                   j: nat, there: Pushed)
    requires Ideal(a, ledger) && prefix in ledger && ledger[prefix].finished
    requires var stream := ledger[prefix].stream;
             && SealedSize(|stream|) <= MAX_CIPHERTEXT && j <= FullBlocks(stream)
             && FrameStart(j) + 4 <= n < |Sealed(a, prefix, stream)|
             && (j < FullBlocks(stream) ==> n < FrameStart(j + 1) + 4)
             && there == PushAll(k, start, AllBlocks(stream)[..j]) && there.verdict.Pass?
    ensures var stream := ledger[prefix].stream;
            var code := if n == FrameStart(j + 1) then AuthenticationFailed else MalformedObject;
            Authenticate(a, k, start, Sealed(a, prefix, stream)[..n]) == Pushed(there.dec, there.emitted, Fail(code))
  {
    var stream := ledger[prefix].stream;
    var whole := Sealed(a, prefix, stream);
    var data := whole[..n];
    IdealDecrypts(a, ledger, prefix);
    assert data[..FrameStart(j) + 4] == whole[..FrameStart(j) + 4];
    FrameInPlace(a, prefix, stream, j);
    var p, length := FrameStart(j) + 4, |Ciphertext(a, prefix, stream, j)|;
    FrameRefusals(a, k, prefix, data, p, length, j, there.dec);
    assert FrameStart(j + 1) == FrameStart(j) + 4 + FULL_FRAME;
    RefusedAt(a, k, start, prefix, stream, data, j, there,
              if n == FrameStart(j + 1) then AuthenticationFailed else MalformedObject);
  }

  /** Truncation. A finished object that decodes, cut to any shorter length, is refused: as not authentic when cut
      exactly between two frames, and as malformed everywhere else. What was emitted comes from the whole frames
      before. */
  lemma TruncationIsRefused(a: Aead, k: Consumer, start: Dec, ledger: map<NoncePrefix, Session>, prefix: NoncePrefix,
                            n: nat)
    requires Ideal(a, ledger) && prefix in ledger && ledger[prefix].finished
    requires SealedSize(|ledger[prefix].stream|) <= MAX_CIPHERTEXT
    requires PushAll(k, start, AllBlocks(ledger[prefix].stream)).verdict.Pass?
    requires n < |Sealed(a, prefix, ledger[prefix].stream)|
    ensures var r := Authenticate(a, k, start, Sealed(a, prefix, ledger[prefix].stream)[..n]);
            && r.verdict == Fail(if Between(n) then AuthenticationFailed else MalformedObject)
            && r.emitted <= PushAll(k, start, AllBlocks(ledger[prefix].stream)).emitted
  {
    var stream := ledger[prefix].stream;
    var whole := Sealed(a, prefix, stream);
    if n < 33 {
      HeaderRefusals(a, k, start, whole[..n]);
      if n >= 29 {
        HeaderLayout(prefix, whole[..29]);
        assert whole[..n][..10] == whole[..10] == SerializeHeader(prefix)[..10] by {
          assert whole[..29] == SerializeHeader(prefix);
        }
      }
    } else {
      var j := Min((n - 33) / 65556, FullBlocks(stream));
      var blocks := AllBlocks(stream);
      assert blocks[..|blocks|] == blocks;
      PassesBefore(k, start, stream, j, |blocks|);
      PushAllPrefix(k, start, blocks, j);
      assert FrameStart(j) + 4 <= n && (j < FullBlocks(stream) ==> n < FrameStart(j + 1) + 4);
      CutInFrame(a, k, start, ledger, prefix, n, j, PushAll(k, start, blocks[..j]));
      BetweenFrames(n, j);
    }
  }

  /** Lengths that end exactly with a full frame. */
  predicate Between(n: nat) {
    n > 29 && (n - 29) % 65556 == 0
  }

  lemma BetweenFrames(n: nat, j: nat)
    requires FrameStart(j) + 4 <= n
    ensures n == FrameStart(j + 1) ==> Between(n)
    ensures n < FrameStart(j + 1) + 4 && Between(n) ==> n == FrameStart(j + 1)
  {
    if n < FrameStart(j + 1) + 4 && Between(n) {
      var m := (n - 29) / 65556;
      assert n - 29 == m * 65556;
    }
  }

  /** Extension. Bytes after a finished object that decodes are malformed, whatever they are, within the size limit. All
      blocks but the last have been emitted. */
  lemma ExtensionIsRefused(a: Aead, k: Consumer, start: Dec, ledger: map<NoncePrefix, Session>, prefix: NoncePrefix,
                           extra: seq<byte>)
    requires Ideal(a, ledger) && prefix in ledger && ledger[prefix].finished && extra != []
    requires SealedSize(|ledger[prefix].stream|) + |extra| <= MAX_CIPHERTEXT
    requires PushAll(k, start, AllBlocks(ledger[prefix].stream)).verdict.Pass?
    ensures var stream := ledger[prefix].stream;
            var r := Authenticate(a, k, start, Sealed(a, prefix, stream) + extra);
            && r.verdict == Fail(MalformedObject)
            && r.emitted == PushAll(k, start, AllBlocks(stream)[..FullBlocks(stream)]).emitted
  {
    var stream := ledger[prefix].stream;
    var whole, n := Sealed(a, prefix, stream), FullBlocks(stream);
    var data := whole + extra;
    IdealDecrypts(a, ledger, prefix);
    FrameInPlace(a, prefix, stream, n);
    assert data[..FrameStart(n) + 4] == whole[..FrameStart(n) + 4];
    var blocks := AllBlocks(stream);
    assert blocks[..|blocks|] == blocks;
    PassesBefore(k, start, stream, n, |blocks|);
    var there := PushAll(k, start, blocks[..n]);
    FrameRefusals(a, k, prefix, data, FrameStart(n) + 4, |Ciphertext(a, prefix, stream, n)|, n, there.dec);
    RefusedAt(a, k, start, prefix, stream, data, n, there, MalformedObject);
  }

  /** The sealed object with other bytes in place of the ciphertext of frame `j`. */
  ghost function Altered(a: Aead, prefix: NoncePrefix, stream: seq<byte>, j: nat, c: seq<byte>): seq<byte>
    requires a.Sized() && j <= FullBlocks(stream) && |c| == |Ciphertext(a, prefix, stream, j)|
  {
    FrameInPlace(a, prefix, stream, j);
    var whole, p := Sealed(a, prefix, stream), FrameStart(j) + 4;
    whole[..p] + c + whole[p + |c|..]
  }

  /** Alteration. A finished object with any other bytes for the ciphertext of one frame is refused as not authentic,
      after the blocks before that frame and nothing else have been emitted. */
  lemma AlterationIsRefused(a: Aead, k: Consumer, start: Dec, ledger: map<NoncePrefix, Session>, prefix: NoncePrefix,
                            j: nat, c: seq<byte>)
    requires Ideal(a, ledger) && prefix in ledger && ledger[prefix].finished
    requires var stream := ledger[prefix].stream;
             && SealedSize(|stream|) <= MAX_CIPHERTEXT && j <= FullBlocks(stream)
             && |c| == |Ciphertext(a, prefix, stream, j)| && c != Ciphertext(a, prefix, stream, j)
    requires PushAll(k, start, AllBlocks(ledger[prefix].stream)[..j]).verdict.Pass?
    ensures var stream := ledger[prefix].stream;
            var r := Authenticate(a, k, start, Altered(a, prefix, stream, j, c));
            r.verdict == Fail(AuthenticationFailed) && r.emitted == PushAll(k, start, AllBlocks(stream)[..j]).emitted
  {
    var stream := ledger[prefix].stream;
    var whole, p, data := Sealed(a, prefix, stream), FrameStart(j) + 4, Altered(a, prefix, stream, j, c);
    IdealDecrypts(a, ledger, prefix);
    FrameInPlace(a, prefix, stream, j);
    assert data[..p] == whole[..p] && data[p..p + |c|] == c && data[p + |c|..] == whole[p + |c|..];
    var there := PushAll(k, start, AllBlocks(stream)[..j]);
    AlteredFrame(a, k, ledger, prefix, j, c, data, there.dec);
    RefusedAt(a, k, start, prefix, stream, data, j, there, AuthenticationFailed);
  }

  lemma AlteredFrame(a: Aead, k: Consumer, ledger: map<NoncePrefix, Session>, prefix: NoncePrefix, j: nat, c: seq<byte>,
                     data: seq<byte>, d: Dec)
    requires Ideal(a, ledger) && prefix in ledger && ledger[prefix].finished
    requires var stream := ledger[prefix].stream;
             && SealedSize(|stream|) <= MAX_CIPHERTEXT && j <= FullBlocks(stream)
             && |c| == |Ciphertext(a, prefix, stream, j)| && c != Ciphertext(a, prefix, stream, j)
             && |data| == |Sealed(a, prefix, stream)| && FrameStart(j) + 4 + |c| <= |data|
             && data[FrameStart(j) + 4..FrameStart(j) + 4 + |c|] == c
             && data[FrameStart(j) + 4 + |c|..] == Sealed(a, prefix, stream)[FrameStart(j) + 4 + |c|..]
    ensures OneFrame(a, k, prefix, data, FrameStart(j) + 4, |c|, j, d) == Refuse(d, AuthenticationFailed)
  {
    var stream := ledger[prefix].stream;
    FrameInPlace(a, prefix, stream, j);
    if j < FullBlocks(stream) {
      assert FrameStart(j) + 4 + |c| == FrameStart(j + 1);
      LengthUnaltered(a, prefix, stream, j + 1, data);
    }
    NotAuthentic(a, ledger, prefix, j, c);
    ProperFrame(a, k, prefix, data, FrameStart(j) + 4, |c|, j, d);
  }

  lemma LengthUnaltered(a: Aead, prefix: NoncePrefix, stream: seq<byte>, j: nat, data: seq<byte>)
    requires a.Sized() && SealedSize(|stream|) <= MAX_CIPHERTEXT && j <= FullBlocks(stream)
    requires |data| == |Sealed(a, prefix, stream)| && FrameStart(j) <= |data|
    requires data[FrameStart(j)..] == Sealed(a, prefix, stream)[FrameStart(j)..]
    ensures FrameStart(j) + 4 <= |data| && NextLength(data, FrameStart(j)).Ok?
  {
    var whole, q := Sealed(a, prefix, stream), FrameStart(j);
    FrameReads(a, prefix, stream, j);
    assert data[q..q + 4] == data[q..][..4] && whole[q..q + 4] == whole[q..][..4];
  }

  lemma NotAuthentic(a: Aead, ledger: map<NoncePrefix, Session>, prefix: NoncePrefix, j: nat, c: seq<byte>)
    requires Ideal(a, ledger) && prefix in ledger && ledger[prefix].finished && j <= FullBlocks(ledger[prefix].stream)
    requires c != Ciphertext(a, prefix, ledger[prefix].stream, j)
    ensures a.decrypt(prefix, j, j == FullBlocks(ledger[prefix].stream), c).None?
  {
  }

  // ---------------------------------------------------------------- the decoder

  /** One round fails as over the limit exactly if it would pass 1 GiB of plaintext, and as invalid exactly if the
      decoder faults, or stops with input left over: at the end of its frame, or because it can do nothing with it. */
  lemma RoundRefusals(z: Zstd, c: Core, bytes: seq<byte>)
    requires z.Bounded() && c.total <= MAX_PLAINTEXT
    ensures var run := z.run(c.state, bytes, Capacity(c.total));
            var over := run.Ran? && c.total + |run.out| > 1024 * 1024 * 1024;
            var stops := run.Ran? && !over && (run.remaining == 0 || (run.read == 0 && run.out == []));
            var round := OneRound(z, c, bytes);
            && (round.Stop? && round.verdict == Fail(ResourceLimitExceeded) <==> over)
            && (round.Stop? && round.verdict == Fail(InvalidCompressedData) <==>
                  run.Fault? || (stops && run.read < |bytes|))
            && (round.Stop? && round.verdict.Pass? <==> stops && run.read == |bytes|)
            && (over || run.Fault? ==> round.out == []) && (!over && run.Ran? ==> round.out == run.out)
  {
  }

  /** Once the frame is complete, anything more is invalid and emits nothing. */
  lemma TrailingBytesAreRefused(z: Zstd, d: Dec, bytes: seq<byte>)
    requires z.Bounded() && d.Valid() && d.checked && d.core.complete && bytes != []
    ensures Push(z, d, bytes) == Pushed(d, [], Fail(InvalidCompressedData))
  {
  }

  /** Part of a frame whose content is too long: all of it is taken without completing the frame, which the last byte
      cannot be, or the limit is reported with part of the content emitted. */
  ghost predicate TooLong(f: Format, c: Core, bytes: seq<byte>, frame: seq<byte>, content: seq<byte>, d: Decoded) {
    var v := f.view(c.state);
    if d.verdict.Pass?
    then && f.view(d.core.state) == Progress(v.consumed + bytes, v.produced + d.emitted)
         && OnTrack(f, d.core, frame, content) && v.consumed + bytes != frame
    else d.verdict == Fail(ResourceLimitExceeded) && v.produced + d.emitted <= content
  }

  lemma {:induction false} DecodeTooLong(z: Zstd, f: Format, frame: seq<byte>, content: seq<byte>, c: Core,
                                         bytes: seq<byte>)
    requires z.Bounded() && f.Tracks(z) && f.Decodes(z, frame, content) && |content| > MAX_PLAINTEXT
    requires OnTrack(f, c, frame, content) && c.total <= MAX_PLAINTEXT && f.view(c.state).consumed + bytes <= frame
    ensures TooLong(f, c, bytes, frame, content, Decode(z, c, bytes))
    decreases |bytes| + (MAX_PLAINTEXT - c.total)
  {
    var v := f.view(c.state);
    var run := z.run(c.state, bytes, Capacity(c.total));
    assert f.Midway(c.state, bytes, frame, content);
    assert run.Ran?;
    var w := f.view(run.next);
    assert w == Progress(v.consumed + bytes[..run.read], v.produced + run.out);
    Associates(v.consumed, bytes[..run.read], bytes[run.read..]);
    assert bytes[..run.read] + bytes[run.read..] == bytes;
    var round := OneRound(z, c, bytes);
    if c.total + |run.out| > MAX_PLAINTEXT {
      assert v.produced + [] == v.produced;
    } else if run.read == 0 && run.out == [] {
      assert bytes == [] && v.consumed + bytes == v.consumed && v.produced + [] == v.produced;
    } else {
      assert run.remaining != 0;
      assert round == More(Core(run.next, c.total + |run.out|, false), run.out, bytes[run.read..]);
      DecodeTooLong(z, f, frame, content, round.core, round.rest);
      Associates(v.produced, run.out, Decode(z, round.core, round.rest).emitted);
    }
  }

  /** A decoder on the way through such a frame, or stopped at the limit. */
  ghost predicate TooLongSoFar(z: Zstd, f: Format, p: Pushed, seen: seq<byte>, frame: seq<byte>, content: seq<byte>) {
    if p.verdict.Pass?
    then && p.dec.Valid() && seen <= frame
         && (if !p.dec.checked then p.dec == Dec(seen, false, Core(z.start, 0, false)) && p.emitted == []
             else && f.view(p.dec.core.state) == Progress(seen, p.emitted)
                  && OnTrack(f, p.dec.core, frame, content) && seen != frame)
    else p.verdict == Fail(ResourceLimitExceeded) && p.emitted <= content
  }

  lemma PushTooLong(z: Zstd, f: Format, p: Pushed, seen: seq<byte>, bytes: seq<byte>, frame: seq<byte>,
                    content: seq<byte>)
    requires z.Bounded() && f.Tracks(z) && f.Decodes(z, frame, content) && |content| > MAX_PLAINTEXT
    requires ScanHeader(frame).Accept? && TooLongSoFar(z, f, p, seen, frame, content)
    requires p.verdict.Pass? && seen + bytes <= frame
    ensures var q := Push(z, p.dec, bytes);
            TooLongSoFar(z, f, Pushed(q.dec, p.emitted + q.emitted, q.verdict), seen + bytes, frame, content)
  {
    if p.dec.checked {
      DecodeTooLong(z, f, frame, content, p.dec.core, bytes);
    } else {
      var all := seen + bytes;
      assert all == frame[..|all|];
      ScanStopsAtHeader(frame, |all|);
      if ScanHeader(all).Accept? {
        HeaderTooLong(z, f, all, ScanHeader(all).length, frame, content);
      }
      assert [] + Push(z, p.dec, bytes).emitted == Push(z, p.dec, bytes).emitted;
    }
  }

  lemma HeaderTooLong(z: Zstd, f: Format, all: seq<byte>, n: nat, frame: seq<byte>, content: seq<byte>)
    requires z.Bounded() && f.Tracks(z) && f.Decodes(z, frame, content) && |content| > MAX_PLAINTEXT
    requires all <= frame && n <= |all|
    ensures var first := Decode(z, Core(z.start, 0, false), all[..n]);
            var second := Decode(z, first.core, all[n..]);
            if first.verdict.Pass?
            then TooLong(f, Core(z.start, 0, false), all, frame, content,
                         Decoded(second.core, first.emitted + second.emitted, second.verdict))
            else first.verdict == Fail(ResourceLimitExceeded) && first.emitted <= content
  {
    var c := Core(z.start, 0, false);
    assert all[..n] + all[n..] == all && [] + all == all && [] + all[..n] == all[..n];
    DecodeTooLong(z, f, frame, content, c, all[..n]);
    var first := Decode(z, c, all[..n]);
    assert [] + first.emitted == first.emitted;
    if first.verdict.Pass? {
      DecodeTooLong(z, f, frame, content, first.core, all[n..]);
      Associates([], first.emitted, Decode(z, first.core, all[n..]).emitted);
    }
  }

  /** Too much plaintext. A frame whose content is longer than 1 GiB, cut into any blocks, is refused as over the
      limit, and what has been emitted is the beginning of its content. */
  lemma TooMuchContentIsRefused(z: Zstd, f: Format, blocks: seq<seq<byte>>, content: seq<byte>)
    requires f.Implements(z) && f.plain(Flatten(blocks)) == Some(content) && |content| > MAX_PLAINTEXT
    requires ScanHeader(Flatten(blocks)).Accept?
    ensures var p := PushAll(Feed(z), Fresh(z), blocks);
            p.verdict == Fail(ResourceLimitExceeded) && p.emitted <= content
  {
    PushAllTooLong(z, f, blocks, |blocks|, content);
    assert blocks[..|blocks|] == blocks;
  }

  lemma {:induction false} PushAllTooLong(z: Zstd, f: Format, blocks: seq<seq<byte>>, n: nat, content: seq<byte>)
    requires f.Implements(z) && f.plain(Flatten(blocks)) == Some(content) && |content| > MAX_PLAINTEXT
    requires ScanHeader(Flatten(blocks)).Accept? && n <= |blocks|
    ensures TooLongSoFar(z, f, PushAll(Feed(z), Fresh(z), blocks[..n]), Flatten(blocks[..n]), Flatten(blocks), content)
  {
    if n == 0 {
      assert blocks[..0] == [];
    } else {
      PushAllTooLong(z, f, blocks, n - 1, content);
      assert blocks[..n][..n - 1] == blocks[..n - 1];
      FlattenedPart(blocks, n);
      var before := PushAll(Feed(z), Fresh(z), blocks[..n - 1]);
      if before.verdict.Pass? {
        PushTooLong(z, f, before, Flatten(blocks[..n - 1]), blocks[n - 1], Flatten(blocks), content);
      }
    }
  }

  /** The same for the object of such a frame. */
  lemma OversizedObjectIsRefused(a: Aead, z: Zstd, f: Format, prefix: NoncePrefix, stream: seq<byte>,
                                 content: seq<byte>)
    requires Decrypts(a, prefix, stream) && f.Implements(z) && SealedSize(|stream|) <= MAX_CIPHERTEXT
    requires f.plain(stream) == Some(content) && ScanHeader(stream).Accept? && |content| > MAX_PLAINTEXT
    ensures var o := Open(a, z, Sealed(a, prefix, stream));
            o.verdict == Fail(ResourceLimitExceeded) && o.emitted <= content
  {
    SealedAuthenticates(a, Feed(z), Fresh(z), prefix, stream);
    AllBlocksGlue(stream);
    TooMuchContentIsRefused(z, f, AllBlocks(stream), content);
  }

  /** An object whose compressed stream stops short of the end of its frame is invalid, with part of the content
      emitted. */
  lemma CutFrameIsRefused(a: Aead, z: Zstd, f: Format, prefix: NoncePrefix, stream: seq<byte>, rest: seq<byte>,
                          content: seq<byte>)
    requires f.Implements(z) && f.plain(stream + rest) == Some(content) && ScanHeader(stream + rest).Accept?
    requires rest != [] && |content| <= MAX_PLAINTEXT
    requires Decrypts(a, prefix, stream) && SealedSize(|stream|) <= MAX_CIPHERTEXT
    ensures var o := Open(a, z, Sealed(a, prefix, stream));
            o.verdict == Fail(InvalidCompressedData) && o.emitted <= content
  {
    SealedAuthenticates(a, Feed(z), Fresh(z), prefix, stream);
    AllBlocksGlue(stream);
    PartNeverCompletes(z, f, AllBlocks(stream), rest, stream + rest, content);
    OpenIncomplete(a, z, Sealed(a, prefix, stream), PushAll(Feed(z), Fresh(z), AllBlocks(stream)));
  }

  lemma OpenIncomplete(a: Aead, z: Zstd, data: seq<byte>, r: Pushed)
    requires r == Authenticate(a, Feed(z), Fresh(z), data) && r.verdict.Pass? && !(r.dec.checked && r.dec.core.complete)
    ensures Open(a, z, data) == Opened(r.emitted, Fail(InvalidCompressedData))
  {
  }

  lemma PartNeverCompletes(z: Zstd, f: Format, some: seq<seq<byte>>, rest: seq<byte>, frame: seq<byte>,
                           content: seq<byte>)
    requires f.Implements(z) && f.plain(frame) == Some(content) && |content| <= MAX_PLAINTEXT
    requires ScanHeader(frame).Accept? && Flatten(some) + rest == frame && rest != []
    ensures var p := PushAll(Feed(z), Fresh(z), some);
            p.verdict.Pass? && !(p.dec.checked && p.dec.core.complete) && p.emitted <= content
  {
    var blocks := some + [rest];
    FlattenSnoc(some, rest);
    assert blocks[..|some|] == some;
    PushAllFollows(z, f, blocks, |some|, content);
  }
}
