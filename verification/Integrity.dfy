/** Integrity under an ideal cipher, the reader's bounds, and the writer's caps in closed form. */
module Integrity {
  import opened Common
  import opened Envelope
  import opened ZstdHeader
  import opened Decoder
  import opened DecoderLaws
  import opened Reader
  import opened Writer
  import opened ObjectTheorems

  /** The ideal position-bound cipher: it decrypts exactly what the key's writers sealed, where they sealed it. */
  ghost predicate Ideal(a: Aead, ledger: map<NoncePrefix, Session>) {
    && a.Sized()
    && forall p: NoncePrefix, i: nat, last: bool, c: seq<byte> ::
         a.decrypt(p, i, last, c) ==
           if p in ledger && ledger[p].SealedAt(i, last) && c == a.encrypt(p, i, last, Block(ledger[p].stream, i))
           then Some(Block(ledger[p].stream, i))
           else None
  }

  lemma IdealDecrypts(a: Aead, ledger: map<NoncePrefix, Session>, prefix: NoncePrefix)
    requires Ideal(a, ledger) && prefix in ledger && ledger[prefix].finished
    ensures Decrypts(a, prefix, ledger[prefix].stream)
  {
  }

  /** The reader stands after `i` authentic frames and the length of the next one. */
  ghost predicate Standing(a: Aead, k: Consumer, start: Dec, prefix: NoncePrefix, stream: seq<byte>, data: seq<byte>,
                           p: nat, length: nat, i: nat, d: Dec)
    requires a.Sized()
  {
    && i <= FullBlocks(stream) && p == FrameStart(i) + 4 <= |data|
    && length < 0x1_0000_0000
    && data[..p] == Opening(a, prefix, stream, i) + Be32(length)
    && PushAll(k, start, AllBlocks(stream)[..i]).verdict.Pass?
    && d == PushAll(k, start, AllBlocks(stream)[..i]).dec
  }

  /** What an authenticated frame proves about the bytes read so far. */
  lemma AuthenticFrame(a: Aead, k: Consumer, start: Dec, ledger: map<NoncePrefix, Session>, prefix: NoncePrefix,
                       data: seq<byte>, p: nat, length: nat, i: nat, last: bool, d: Dec)
    requires Ideal(a, ledger) && prefix in ledger
    requires Standing(a, k, start, prefix, ledger[prefix].stream, data, p, length, i, d)
    requires p + length <= |data| && a.decrypt(prefix, i, last, data[p..p + length]).Some?
    ensures var s := ledger[prefix];
            && s.SealedAt(i, last)
            && a.decrypt(prefix, i, last, data[p..p + length]).value == Block(s.stream, i)
            && data[..p + length] ==
                 if last then Sealed(a, prefix, s.stream) else Opening(a, prefix, s.stream, i + 1)
  {
    var s := ledger[prefix];
    var c := data[p..p + length];
    assert c == a.encrypt(prefix, i, last, Block(s.stream, i));
    assert data[..p + length] == data[..p] + c;
    Associates(Opening(a, prefix, s.stream, i), Be32(length), c);
    assert data[..p + length] == Opening(a, prefix, s.stream, i) + Frame(c);
    if !last {
      Associates(SerializeHeader(prefix), NextFrames(a, prefix, s.stream, i), Frame(c));
    }
  }

  /** The reader that authenticates one more non-final frame stands one frame further. */
  lemma StandingAdvances(a: Aead, k: Consumer, start: Dec, prefix: NoncePrefix, stream: seq<byte>, data: seq<byte>,
                         p: nat, i: nat, d: Dec, next: nat)
    requires a.Sized()
    requires Standing(a, k, start, prefix, stream, data, p, FULL_FRAME, i, d) && i < FullBlocks(stream)
    requires p + FULL_FRAME <= |data| && data[..p + FULL_FRAME] == Opening(a, prefix, stream, i + 1)
    requires NextLength(data, p + FULL_FRAME) == Ok(Some(next))
    requires k(d, Block(stream, i)).verdict.Pass?
    ensures var pushed := k(d, Block(stream, i));
            && Standing(a, k, start, prefix, stream, data, p + FULL_FRAME + 4, next, i + 1, pushed.dec)
            && PushAll(k, start, AllBlocks(stream)[..i + 1]).emitted ==
                 PushAll(k, start, AllBlocks(stream)[..i]).emitted + pushed.emitted
  {
    var q := p + FULL_FRAME;
    var b := data[q..q + 4];
    Be32Injective(b);
    assert data[..q + 4] == data[..q] + b;
    assert FrameStart(i) + 4 + FULL_FRAME == FrameStart(i + 1);
    var blocks := AllBlocks(stream);
    assert blocks[..i + 1][..i] == blocks[..i] && blocks[i] == Block(stream, i);
  }

  /** Acceptance means the data is the finished session's object, and whatever happens, what is emitted is part of what
      that session's blocks decode to. */
  ghost predicate Upheld(a: Aead, prefix: NoncePrefix, s: Session, data: seq<byte>, whole: seq<byte>, r: Pushed) {
    && a.Sized() && r.emitted <= whole
    && (r.verdict.Pass? ==> s.finished && data == Sealed(a, prefix, s.stream))
  }

  /** A standing point, with everything pushed so far. */
  ghost predicate StandsAt(a: Aead, k: Consumer, start: Dec, prefix: NoncePrefix, stream: seq<byte>, data: seq<byte>,
                           p: nat, length: nat, i: nat, before: Pushed)
  {
    && a.Sized() && Standing(a, k, start, prefix, stream, data, p, length, i, before.dec)
    && before == PushAll(k, start, AllBlocks(stream)[..i])
  }

  /** One frame read from a standing point, `before` being what the earlier blocks gave and `whole` all of them. */
  lemma FrameIntegrity(a: Aead, k: Consumer, start: Dec, ledger: map<NoncePrefix, Session>, prefix: NoncePrefix,
                       data: seq<byte>, p: nat, length: nat, i: nat, before: Pushed, whole: Pushed, step: Step)
    requires Ideal(a, ledger) && prefix in ledger
    requires StandsAt(a, k, start, prefix, ledger[prefix].stream, data, p, length, i, before)
    requires whole == PushAll(k, start, AllBlocks(ledger[prefix].stream))
    requires step == OneFrame(a, k, prefix, data, p, length, i, before.dec)
    ensures step.Halt? ==> Upheld(a, prefix, ledger[prefix], data, whole.emitted, Joined(before, step.pushed))
    ensures step.Onward? ==>
              StandsAt(a, k, start, prefix, ledger[prefix].stream, data, p + length + 4, step.length, i + 1,
                       Joined(before, step.pushed))
  {
    var stream := ledger[prefix].stream;
    var blocks := AllBlocks(stream);
    FrameIsAuthenticOrRefused(a, k, start, ledger, prefix, data, p, length, i, before.dec, step);
    if step.pushed == k(before.dec, Block(stream, i)) && i <= FullBlocks(stream) {
      BlockHandsOn(k, start, stream, i, before, step.pushed);
      PushAllPrefix(k, start, blocks, i + 1);
    } else {
      PushAllPrefix(k, start, blocks, i);
      assert before.emitted + [] == before.emitted;
    }
  }

  /** A frame is refused with nothing emitted, or it is the session's next block, in its place. */
  lemma FrameIsAuthenticOrRefused(a: Aead, k: Consumer, start: Dec, ledger: map<NoncePrefix, Session>,
                                  prefix: NoncePrefix, data: seq<byte>, p: nat, length: nat, i: nat, d: Dec,
                                  step: Step)
    requires Ideal(a, ledger) && prefix in ledger
    requires Standing(a, k, start, prefix, ledger[prefix].stream, data, p, length, i, d)
    requires step == OneFrame(a, k, prefix, data, p, length, i, d)
    ensures (step.pushed.verdict.Fail? && step == Refuse(d, step.pushed.verdict.code)) ||
            (i <= FullBlocks(ledger[prefix].stream) && step.pushed == k(d, Block(ledger[prefix].stream, i)))
    ensures step.Halt? && step.pushed.verdict.Pass? ==>
              ledger[prefix].finished && data == Sealed(a, prefix, ledger[prefix].stream)
    ensures step.Onward? ==>
              && step.pushed == k(d, Block(ledger[prefix].stream, i))
              && Standing(a, k, start, prefix, ledger[prefix].stream, data, p + length + 4, step.length, i + 1,
                          step.pushed.dec)
  {
    if Settled(data, p, length)
       && a.decrypt(prefix, i, NextLength(data, p + length).value.None?, data[p..p + length]).Some?
    {
      var next := NextLength(data, p + length).value;
      AuthenticFrame(a, k, start, ledger, prefix, data, p, length, i, next.None?, d);
      if next.None? {
        assert data[..p + length] == data;
      } else if step.Onward? {
        StandingAdvances(a, k, start, prefix, ledger[prefix].stream, data, p, i, d, next.value);
      }
    }
  }

  /** Frame and lookahead are well formed, so decryption is tried. */
  ghost predicate Settled(data: seq<byte>, p: nat, length: nat)
    requires p <= |data|
  {
    && ReadAt(data, p, length).Ok? && NextLength(data, p + length).Ok?
    && (NextLength(data, p + length).value.Some? ==> length == FULL_FRAME)
  }

  /** From any standing point the guarantee is upheld. */
  lemma FramesIntegrity(a: Aead, k: Consumer, start: Dec, ledger: map<NoncePrefix, Session>, prefix: NoncePrefix,
                        data: seq<byte>, p: nat, length: nat, i: nat, before: Pushed, whole: Pushed)
    requires Ideal(a, ledger) && prefix in ledger && whole == PushAll(k, start, AllBlocks(ledger[prefix].stream))
    requires StandsAt(a, k, start, prefix, ledger[prefix].stream, data, p, length, i, before)
    ensures Upheld(a, prefix, ledger[prefix], data, whole.emitted,
                   Joined(before, OpenFrames(a, k, prefix, data, p, length, i, before.dec)))
  {
    var s := ledger[prefix];
    StandingIsInductive(a, k, start, ledger, prefix, data, whole);
    LoopInduction(a, k, prefix, data, Stands(a, k, start, prefix, s.stream, data),
                  Upholds(a, prefix, s, data, whole.emitted), p, length, i, before);
  }

  ghost function Stands(a: Aead, k: Consumer, start: Dec, prefix: NoncePrefix, stream: seq<byte>, data: seq<byte>):
    (nat, nat, nat, Pushed) -> bool
  {
    (p: nat, length: nat, i: nat, before: Pushed) => StandsAt(a, k, start, prefix, stream, data, p, length, i, before)
  }

  ghost function Upholds(a: Aead, prefix: NoncePrefix, s: Session, data: seq<byte>, whole: seq<byte>): Pushed -> bool {
    (r: Pushed) => Upheld(a, prefix, s, data, whole, r)
  }

  lemma StandingIsInductive(a: Aead, k: Consumer, start: Dec, ledger: map<NoncePrefix, Session>, prefix: NoncePrefix,
                            data: seq<byte>, whole: Pushed)
    requires Ideal(a, ledger) && prefix in ledger && whole == PushAll(k, start, AllBlocks(ledger[prefix].stream))
    ensures Inductive(a, k, prefix, data, Stands(a, k, start, prefix, ledger[prefix].stream, data),
                      Upholds(a, prefix, ledger[prefix], data, whole.emitted))
  {
    var s := ledger[prefix];
    var inv, post := Stands(a, k, start, prefix, s.stream, data), Upholds(a, prefix, s, data, whole.emitted);
    forall p: nat, length: nat, i: nat, before: Pushed | inv(p, length, i, before)
      ensures p <= |data|
      ensures HandsOn(OneFrame(a, k, prefix, data, p, length, i, before.dec), inv, post, p, length, i, before)
    {
      FrameIntegrity(a, k, start, ledger, prefix, data, p, length, i, before, whole,
                     OneFrame(a, k, prefix, data, p, length, i, before.dec));
    }
  }

  /** The session a byte string claims to belong to. */
  ghost function ClaimedSession(ledger: map<NoncePrefix, Session>, data: seq<byte>): Option<NoncePrefix> {
    if |data| < HEADER_BYTES then None else
    match ParseHeader(data[..HEADER_BYTES])
    case Ok(prefix) => if prefix in ledger then Some(prefix) else None
    case Err(_) => None
  }

  /** Integrity: under the ideal cipher a byte string opens only if it is, byte for byte, the sealed object
      of a finished session. Every other string (reordered, duplicated, truncated, extended, altered)
      fails, and what has reached the sink is then a prefix of the claimed session's plaintext, or
      nothing when no session has that nonce prefix. */
  lemma OpensOnlyWhatWasSealed(a: Aead, z: Zstd, ledger: map<NoncePrefix, Session>, data: seq<byte>)
    requires Ideal(a, ledger)
    ensures var o := Open(a, z, data);
            match ClaimedSession(ledger, data)
            case None => o.verdict.Fail? && o.emitted == []
            case Some(prefix) =>
              var s := ledger[prefix];
              && (o.verdict.Pass? ==> s.finished && data == Sealed(a, prefix, s.stream))
              && o.emitted <= PushAll(Feed(z), Fresh(z), AllBlocks(s.stream)).emitted
  {
    var header := ReadAt(data, 0, HEADER_BYTES);
    if header.Ok? && ParseHeader(header.value).Ok? && NextLength(data, HEADER_BYTES).Ok?
       && NextLength(data, HEADER_BYTES).value.Some?
    {
      var prefix := ParseHeader(header.value).value;
      var length := NextLength(data, HEADER_BYTES).value.value;
      assert header.value == data[..HEADER_BYTES];
      if prefix in ledger {
        HeaderRoundTrip(header.value, prefix);
        StandingStart(a, Feed(z), Fresh(z), prefix, ledger[prefix].stream, data, length);
        var r := OpenFrames(a, Feed(z), prefix, data, HEADER_BYTES + 4, length, 0, Fresh(z));
        FramesIntegrity(a, Feed(z), Fresh(z), ledger, prefix, data, HEADER_BYTES + 4, length, 0,
                        Pushed(Fresh(z), [], Pass), PushAll(Feed(z), Fresh(z), AllBlocks(ledger[prefix].stream)));
        assert [] + r.emitted == r.emitted;
      } else {
        assert OneFrame(a, Feed(z), prefix, data, HEADER_BYTES + 4, length, 0, Fresh(z)).pushed.emitted == [];
      }
    }
  }

  lemma StandingStart(a: Aead, k: Consumer, start: Dec, prefix: NoncePrefix, stream: seq<byte>, data: seq<byte>,
                      length: nat)
    requires a.Sized() && |data| >= HEADER_BYTES
    requires data[..HEADER_BYTES] == SerializeHeader(prefix) && NextLength(data, HEADER_BYTES) == Ok(Some(length))
    ensures Standing(a, k, start, prefix, stream, data, HEADER_BYTES + 4, length, 0, start)
    ensures AllBlocks(stream)[..0] == []
  {
    var b := data[HEADER_BYTES..HEADER_BYTES + 4];
    Be32Injective(b);
    assert data[..HEADER_BYTES + 4] == data[..HEADER_BYTES] + b;
    assert Opening(a, prefix, stream, 0) == SerializeHeader(prefix);
  }

  /** Against tampering, in terms of plaintext: a ledger of properly compressed sessions, any byte string. */
  lemma OpensToSealedPlaintext(a: Aead, z: Zstd, f: Format, ledger: map<NoncePrefix, Session>, data: seq<byte>,
                               content: seq<byte>)
    requires Ideal(a, ledger) && f.Implements(z)
    requires ClaimedSession(ledger, data).Some?
    requires var s := ledger[ClaimedSession(ledger, data).value];
             && f.plain(s.stream) == Some(content) && ScanHeader(s.stream).Accept?
             && |content| <= MAX_PLAINTEXT && SealedSize(|s.stream|) <= MAX_CIPHERTEXT
    ensures var prefix := ClaimedSession(ledger, data).value;
            && Open(a, z, data).emitted <= content
            && (Open(a, z, data).verdict.Pass? <==>
                  ledger[prefix].finished && data == Sealed(a, prefix, ledger[prefix].stream))
            && (Open(a, z, data).verdict.Pass? ==> Open(a, z, data).emitted == content)
  {
    var prefix := ClaimedSession(ledger, data).value;
    var stream := ledger[prefix].stream;
    OpensOnlyWhatWasSealed(a, z, ledger, data);
    AllBlocksGlue(stream);
    PushAllRoundTrip(z, f, AllBlocks(stream), content);
    if ledger[prefix].finished {
      IdealDecrypts(a, ledger, prefix);
      RoundTrip(a, z, f, prefix, stream, content);
    }
  }

  /** Success always means one whole compressed frame, nothing after it, and all of its content. */
  lemma OpenYieldsOneFrame(a: Aead, z: Zstd, f: Format, ledger: map<NoncePrefix, Session>, data: seq<byte>)
    requires Ideal(a, ledger) && z.Bounded() && f.Tracks(z) && f.Sound(z)
    ensures Open(a, z, data).verdict.Pass? ==>
              && ClaimedSession(ledger, data).Some?
              && f.plain(ledger[ClaimedSession(ledger, data).value].stream) == Some(Open(a, z, data).emitted)
  {
    if Open(a, z, data).verdict.Pass? {
      OpensOnlyWhatWasSealed(a, z, ledger, data);
      var prefix := ClaimedSession(ledger, data).value;
      AcceptedSize(a, Feed(z), Fresh(z), data);
      IdealDecrypts(a, ledger, prefix);
      SealedAuthenticates(a, Feed(z), Fresh(z), prefix, ledger[prefix].stream);
      BlocksYieldOneFrame(z, f, ledger[prefix].stream);
    }
  }

  lemma BlocksYieldOneFrame(z: Zstd, f: Format, stream: seq<byte>)
    requires z.Bounded() && f.Tracks(z) && f.Sound(z)
    ensures var r := PushAll(Feed(z), Fresh(z), AllBlocks(stream));
            r.verdict.Pass? && r.dec.checked && r.dec.core.complete ==> f.plain(stream) == Some(r.emitted)
  {
    AllBlocksGlue(stream);
    if PushAll(Feed(z), Fresh(z), AllBlocks(stream)).verdict.Pass? {
      PushAllSound(z, f, AllBlocks(stream));
    }
  }

  // ---------------------------------------------------------------- the reader's bounds

  /** How many frames follow from a frame of `length` bytes at `p`, and how many payload bytes they hold. */
  function FrameCount(data: seq<byte>, p: nat, length: nat): nat
    decreases |data| - p
  {
    if p + length > |data| then 0 else
    match NextLength(data, p + length)
    case Ok(Some(next)) => 1 + FrameCount(data, p + length + 4, next)
    case _ => 1
  }

  function PayloadBytes(data: seq<byte>, p: nat, length: nat): int
    decreases |data| - p
  {
    if p + length > |data| then 0 else
    match NextLength(data, p + length)
    case Ok(Some(next)) => length - TAG + PayloadBytes(data, p + length + 4, next)
    case _ => length - TAG
  }

  /** Every non-final frame being full, the position fixes the index; so the cap bounds both. */
  lemma {:induction false} FramesBounded(a: Aead, k: Consumer, prefix: NoncePrefix, data: seq<byte>, p: nat,
                                         length: nat, i: nat, d: Dec)
    requires p == FrameStart(i) + 4 <= |data| && length >= TAG
    requires OpenFrames(a, k, prefix, data, p, length, i, d).verdict.Pass?
    ensures |data| <= MAX_CIPHERTEXT
    ensures i + FrameCount(data, p, length) <= 4095
    ensures |data| == p - 4 + 20 * FrameCount(data, p, length) + PayloadBytes(data, p, length)
    decreases |data| - p
  {
    match OneFrame(a, k, prefix, data, p, length, i, d) {
      case Halt(_) =>
      case Onward(pushed, next) =>
        assert FrameStart(i) + 4 + FULL_FRAME + 4 == FrameStart(i + 1) + 4;
        FramesBounded(a, k, prefix, data, p + length + 4, next, i + 1, pushed.dec);
    }
  }

  /** Any accepted object, under any cipher: at most 256 MiB, at most 4,095 frames, and 29 + 20 bytes per frame
      of overhead, hence less than 256 MiB of payload; no separate counters are needed. */
  lemma AcceptedSize(a: Aead, k: Consumer, start: Dec, data: seq<byte>)
    requires Authenticate(a, k, start, data).verdict.Pass?
    ensures HEADER_BYTES + 4 <= |data| <= MAX_CIPHERTEXT
    ensures NextLength(data, HEADER_BYTES).Ok? && NextLength(data, HEADER_BYTES).value.Some?
    ensures var length := NextLength(data, HEADER_BYTES).value.value;
            var frames := FrameCount(data, HEADER_BYTES + 4, length);
            var payload := PayloadBytes(data, HEADER_BYTES + 4, length);
            && 1 <= frames <= 4095
            && payload == |data| - HEADER_BYTES - 20 * frames < MAX_COMPRESSED
  {
    var prefix := ParseHeader(ReadAt(data, 0, HEADER_BYTES).value).value;
    FramesBounded(a, k, prefix, data, HEADER_BYTES + 4, NextLength(data, HEADER_BYTES).value.value, 0, start);
  }

  // ---------------------------------------------------------------- the writer's caps

  /** The ciphertext cap in terms of the compressed stream; at the largest stream the object is exactly 256 MiB. */
  lemma CiphertextCapClosedForm(c: nat)
    ensures SealedSize(c) <= MAX_CIPHERTEXT <==> c <= 268_353_527
    ensures SealedSize(268_353_527) == MAX_CIPHERTEXT
  {
    if c <= 268_353_527 {
      assert c / 65536 <= 4094;
    } else {
      assert c / 65536 >= 4094;
    }
  }

  /** The framing in closed form: every frame but the last carries a full block, the last one always less (possibly
      nothing), and the frames together carry the stream. */
  lemma FramingClosedForm(a: Aead, prefix: NoncePrefix, stream: seq<byte>, i: nat)
    requires a.Sized() && i <= FullBlocks(stream)
    ensures |Block(stream, i)| == if i < FullBlocks(stream) then BLOCK else |stream| % 65536
    ensures |AllBlocks(stream)| == |stream| / 65536 + 1 && Flatten(AllBlocks(stream)) == stream
    ensures var at, c := FrameStart(i), Ciphertext(a, prefix, stream, i);
            && at + 4 + |c| <= |Sealed(a, prefix, stream)|
            && Sealed(a, prefix, stream)[at..at + 4 + |c|] == Be32(|c|) + c
  {
    FrameInPlace(a, prefix, stream, i);
    var data, at, c := Sealed(a, prefix, stream), FrameStart(i), Ciphertext(a, prefix, stream, i);
    Slices(data, at, at + 4, at + 4 + |c|);
    AllBlocksGlue(stream);
  }

  /** A stream within the ciphertext cap is far within the other two: at most 4,095 blocks, under 256 MiB. */
  lemma OtherCapsNeverBind(c: nat)
    requires SealedSize(c) <= MAX_CIPHERTEXT
    ensures c < MAX_COMPRESSED && c / 65536 + 1 <= 4095 < MAX_BLOCKS
    ensures OpeningSize(c) <= MAX_CIPHERTEXT
  {
    CiphertextCapClosedForm(c);
    assert c / 65536 <= 4094;
  }
}
