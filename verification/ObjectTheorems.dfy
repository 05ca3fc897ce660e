/** What the writer and the reader guarantee together: integrity, round trip and bounds. */
module ObjectTheorems {
  import opened Common
  import opened Envelope
  import opened ZstdHeader
  import opened Decoder
  import opened DecoderLaws
  import opened Reader

  // ---------------------------------------------------------------- where frames lie

  function Ciphertext(a: Aead, prefix: NoncePrefix, stream: seq<byte>, i: nat): seq<byte>
    requires i <= FullBlocks(stream)
  {
    a.encrypt(prefix, i, i == FullBlocks(stream), Block(stream, i))
  }

  /** The cipher undoes itself on the blocks of this stream. */
  ghost predicate Decrypts(a: Aead, prefix: NoncePrefix, stream: seq<byte>) {
    && a.Sized()
    && forall i: nat :: i <= FullBlocks(stream) ==>
         a.decrypt(prefix, i, i == FullBlocks(stream), Ciphertext(a, prefix, stream, i)) == Some(Block(stream, i))
  }

  function FrameStart(i: nat): nat {
    HEADER_BYTES + Frames(i)
  }

  lemma FrameFollowsOpening(a: Aead, prefix: NoncePrefix, stream: seq<byte>, i: nat)
    requires a.Sized() && i <= FullBlocks(stream)
    ensures Opening(a, prefix, stream, i) + Frame(Ciphertext(a, prefix, stream, i)) <= Sealed(a, prefix, stream)
  {
    var n := FullBlocks(stream);
    if i < n {
      var header, frame := SerializeHeader(prefix), Frame(Ciphertext(a, prefix, stream, i));
      Associates(header, NextFrames(a, prefix, stream, i), frame);
      NextFramesNest(a, prefix, stream, i + 1, n);
      assert header + NextFrames(a, prefix, stream, i + 1) <= Opening(a, prefix, stream, n);
    }
  }

  /** The sealed object up to and including frame `i`. */
  lemma FrameInPlace(a: Aead, prefix: NoncePrefix, stream: seq<byte>, i: nat)
    requires a.Sized() && i <= FullBlocks(stream)
    ensures var data, c := Sealed(a, prefix, stream), Ciphertext(a, prefix, stream, i);
            && FrameStart(i) + 4 + |c| <= |data|
            && data[FrameStart(i)..FrameStart(i) + 4] == Be32(|c|)
            && data[FrameStart(i) + 4..FrameStart(i) + 4 + |c|] == c
            && |c| <= FULL_FRAME
            && (if i < FullBlocks(stream) then |c| == FULL_FRAME else FrameStart(i) + 4 + |c| == |data|)
  {
    var data, c := Sealed(a, prefix, stream), Ciphertext(a, prefix, stream, i);
    var before := Opening(a, prefix, stream, i);
    FrameFollowsOpening(a, prefix, stream, i);
    SliceOfPrefix(before, Be32(|c|), c, data);
  }

  lemma SliceOfPrefix(before: seq<byte>, x: seq<byte>, y: seq<byte>, whole: seq<byte>)
    requires before + (x + y) <= whole
    ensures |before| + |x| + |y| <= |whole|
    ensures whole[|before|..|before| + |x|] == x
    ensures whole[|before| + |x|..|before| + |x| + |y|] == y
  {
    var w := before + (x + y);
    assert w[|before|..|before| + |x|] == x;
    assert w[|before| + |x|..] == y;
  }

  /** What the reader sees at frame `i` of a sealed object within the cap. */
  lemma FrameReads(a: Aead, prefix: NoncePrefix, stream: seq<byte>, i: nat)
    requires a.Sized() && i <= FullBlocks(stream) && SealedSize(|stream|) <= MAX_CIPHERTEXT
    ensures var data, c := Sealed(a, prefix, stream), Ciphertext(a, prefix, stream, i);
            && FrameStart(i) + 4 <= |data|
            && NextLength(data, FrameStart(i)) == Ok(Some(|c|))
            && ReadAt(data, FrameStart(i) + 4, |c|) == Ok(c)
  {
    FrameInPlace(a, prefix, stream, i);
    Be32RoundTrip(|Ciphertext(a, prefix, stream, i)|);
  }

  /** Frame `i` opens to block `i`, and the loop goes on exactly while full blocks remain. */
  lemma FrameOpens(a: Aead, k: Consumer, prefix: NoncePrefix, stream: seq<byte>, i: nat, d: Dec)
    requires Decrypts(a, prefix, stream)
    requires i <= FullBlocks(stream) && SealedSize(|stream|) <= MAX_CIPHERTEXT
    ensures var data := Sealed(a, prefix, stream);
            var length := |Ciphertext(a, prefix, stream, i)|;
            var pushed := k(d, Block(stream, i));
            && FrameStart(i) + 4 <= |data|
            && OneFrame(a, k, prefix, data, FrameStart(i) + 4, length, i, d) ==
                 if pushed.verdict.Fail? || i == FullBlocks(stream) then Halt(pushed)
                 else Onward(pushed, |Ciphertext(a, prefix, stream, i + 1)|)
  {
    FrameInPlace(a, prefix, stream, i);
    FrameReads(a, prefix, stream, i);
    if i < FullBlocks(stream) {
      FrameReads(a, prefix, stream, i + 1);
      assert FrameStart(i) + 4 + FULL_FRAME == FrameStart(i + 1);
    }
  }

  // ---------------------------------------------------------------- reading what was written

  function AllBlocks(stream: seq<byte>): seq<seq<byte>> {
    BlocksUpTo(stream, FullBlocks(stream) + 1)
  }

  lemma AllBlocksGlue(stream: seq<byte>)
    ensures Flatten(AllBlocks(stream)) == stream
  {
    BlocksGlue(stream, FullBlocks(stream) + 1);
    assert stream[..|stream|] == stream;
  }

  /** Once a push fails, later blocks change nothing. */
  lemma {:induction false} FailureSticks(k: Consumer, d: Dec, blocks: seq<seq<byte>>, n: nat)
    requires n <= |blocks|
    requires PushAll(k, d, blocks[..n]).verdict.Fail?
    ensures PushAll(k, d, blocks) == PushAll(k, d, blocks[..n])
    decreases |blocks|
  {
    if n == |blocks| {
      assert blocks[..n] == blocks;
    } else {
      var init := blocks[..|blocks| - 1];
      assert init[..n] == blocks[..n];
      FailureSticks(k, d, init, n);
    }
  }

  lemma PushOneMore(k: Consumer, start: Dec, stream: seq<byte>, i: nat)
    requires i <= FullBlocks(stream)
    requires PushAll(k, start, AllBlocks(stream)[..i]).verdict.Pass?
    ensures var before := PushAll(k, start, AllBlocks(stream)[..i]);
            var pushed := k(before.dec, Block(stream, i));
            PushAll(k, start, AllBlocks(stream)[..i + 1]) ==
              Pushed(pushed.dec, before.emitted + pushed.emitted, pushed.verdict)
  {
    var blocks := AllBlocks(stream);
    assert blocks[..i + 1][..i] == blocks[..i] && blocks[i] == Block(stream, i);
  }

  /** What was pushed first, and then the rest. */
  function Joined(first: Pushed, rest: Pushed): Pushed {
    Pushed(rest.dec, first.emitted + rest.emitted, rest.verdict)
  }

  lemma JoinedAssociates(x: Pushed, y: Pushed, z: Pushed)
    ensures Joined(Joined(x, y), z) == Joined(x, Joined(y, z))
  {
    Associates(x.emitted, y.emitted, z.emitted);
  }

  /** A property of the points the frame loop passes (offset, length, index, and everything pushed so far) that
      each frame hands on, and that gives `post` for everything pushed where the loop ends. */
  ghost predicate Inductive(a: Aead, k: Consumer, prefix: NoncePrefix, data: seq<byte>,
                            inv: (nat, nat, nat, Pushed) -> bool, post: Pushed -> bool)
  {
    forall p: nat, length: nat, i: nat, before: Pushed :: inv(p, length, i, before) ==>
      p <= |data| && HandsOn(OneFrame(a, k, prefix, data, p, length, i, before.dec), inv, post, p, length, i, before)
  }

  ghost predicate HandsOn(step: Step, inv: (nat, nat, nat, Pushed) -> bool, post: Pushed -> bool, p: nat, length: nat,
                          i: nat, before: Pushed)
  {
    match step
    case Halt(pushed) => post(Joined(before, pushed))
    case Onward(pushed, next) => inv(p + length + 4, next, i + 1, Joined(before, pushed))
  }

  /** Induction over the frame loop. */
  lemma {:induction false} LoopInduction(a: Aead, k: Consumer, prefix: NoncePrefix, data: seq<byte>,
                                         inv: (nat, nat, nat, Pushed) -> bool, post: Pushed -> bool,
                                         p: nat, length: nat, i: nat, before: Pushed)
    requires Inductive(a, k, prefix, data, inv, post) && inv(p, length, i, before) && p <= |data|
    ensures post(Joined(before, OpenFrames(a, k, prefix, data, p, length, i, before.dec)))
    decreases |data| - p
  {
    var step := OneFrame(a, k, prefix, data, p, length, i, before.dec);
    if step.Onward? {
      var q, onward := p + length + 4, Joined(before, step.pushed);
      LoopInduction(a, k, prefix, data, inv, post, q, step.length, i + 1, onward);
      JoinedAssociates(before, step.pushed, OpenFrames(a, k, prefix, data, q, step.length, i + 1, onward.dec));
    }
  }

  /** The loop stands at frame `i` of a sealed object, with the blocks before it pushed. */
  ghost predicate AtFrame(a: Aead, k: Consumer, start: Dec, prefix: NoncePrefix, stream: seq<byte>, p: nat, length: nat,
                          i: nat, before: Pushed)
  {
    && i <= FullBlocks(stream) && p == FrameStart(i) + 4 && length == |Ciphertext(a, prefix, stream, i)|
    && before == PushAll(k, start, AllBlocks(stream)[..i]) && before.verdict.Pass?
  }

  /** One frame of a sealed object: the loop ends having pushed all that will be pushed, or stands at the next. */
  lemma SealedFrameHandsOn(a: Aead, k: Consumer, start: Dec, prefix: NoncePrefix, stream: seq<byte>, data: seq<byte>,
                           p: nat, length: nat, i: nat, before: Pushed)
    returns (step: Step)
    requires Decrypts(a, prefix, stream) && SealedSize(|stream|) <= MAX_CIPHERTEXT && data == Sealed(a, prefix, stream)
    requires AtFrame(a, k, start, prefix, stream, p, length, i, before)
    ensures p <= |data| && step == OneFrame(a, k, prefix, data, p, length, i, before.dec)
    ensures step.Halt? ==> Joined(before, step.pushed) == PushAll(k, start, AllBlocks(stream))
    ensures step.Onward? ==>
              AtFrame(a, k, start, prefix, stream, p + length + 4, step.length, i + 1, Joined(before, step.pushed))
  {
    FrameOpens(a, k, prefix, stream, i, before.dec);
    var pushed := k(before.dec, Block(stream, i));
    BlockHandsOn(k, start, stream, i, before, pushed);
    if pushed.verdict.Fail? || i == FullBlocks(stream) {
      step := Halt(pushed);
    } else {
      assert FrameStart(i) + 4 + length + 4 == FrameStart(i + 1) + 4;
      step := Onward(pushed, |Ciphertext(a, prefix, stream, i + 1)|);
    }
  }

  lemma BlockHandsOn(k: Consumer, start: Dec, stream: seq<byte>, i: nat, before: Pushed, pushed: Pushed)
    requires i <= FullBlocks(stream) && before == PushAll(k, start, AllBlocks(stream)[..i]) && before.verdict.Pass?
    requires pushed == k(before.dec, Block(stream, i))
    ensures PushAll(k, start, AllBlocks(stream)[..i + 1]) == Joined(before, pushed)
    ensures pushed.verdict.Fail? || i == FullBlocks(stream) ==>
              PushAll(k, start, AllBlocks(stream)) == Joined(before, pushed)
  {
    var blocks := AllBlocks(stream);
    PushOneMore(k, start, stream, i);
    if pushed.verdict.Fail? {
      FailureSticks(k, start, blocks, i + 1);
    } else if i == FullBlocks(stream) {
      assert blocks[..i + 1] == blocks;
    }
  }

  /** Reading a sealed object feeds the decoder exactly the blocks that were written, in order. */
  lemma SealedAuthenticates(a: Aead, k: Consumer, start: Dec, prefix: NoncePrefix, stream: seq<byte>)
    requires Decrypts(a, prefix, stream) && SealedSize(|stream|) <= MAX_CIPHERTEXT
    ensures Authenticate(a, k, start, Sealed(a, prefix, stream)) == PushAll(k, start, AllBlocks(stream))
  {
    var data := Sealed(a, prefix, stream);
    AuthenticateStartsLoop(a, k, start, prefix, stream, data);
    LoopPushesAll(a, k, start, prefix, stream, data);
  }

  lemma LoopPushesAll(a: Aead, k: Consumer, start: Dec, prefix: NoncePrefix, stream: seq<byte>, data: seq<byte>)
    requires Decrypts(a, prefix, stream) && SealedSize(|stream|) <= MAX_CIPHERTEXT && data == Sealed(a, prefix, stream)
    ensures FirstFrames(a, k, start, prefix, stream, data) == PushAll(k, start, AllBlocks(stream))
  {
    var inv := (p: nat, length: nat, i: nat, before: Pushed) =>
      AtFrame(a, k, start, prefix, stream, p, length, i, before);
    var all := PushAll(k, start, AllBlocks(stream));
    var post := (r: Pushed) => r == all;
    forall p: nat, length: nat, i: nat, before: Pushed | inv(p, length, i, before)
      ensures p <= |data|
      ensures HandsOn(OneFrame(a, k, prefix, data, p, length, i, before.dec), inv, post, p, length, i, before)
    {
      var step := SealedFrameHandsOn(a, k, start, prefix, stream, data, p, length, i, before);
      assert HandsOn(step, inv, post, p, length, i, before);
    }
    FrameReads(a, prefix, stream, 0);
    assert AllBlocks(stream)[..0] == [];
    LoopFromStart(a, k, start, prefix, stream, data, inv, post);
  }

  /** The frame loop from the first frame on. */
  function FirstFrames(a: Aead, k: Consumer, start: Dec, prefix: NoncePrefix, stream: seq<byte>,
                       data: seq<byte>): Pushed
  {
    if |data| < 33 then Pushed(start, [], Pass)
    else OpenFrames(a, k, prefix, data, 33, |Ciphertext(a, prefix, stream, 0)|, 0, start)
  }

  lemma LoopFromStart(a: Aead, k: Consumer, start: Dec, prefix: NoncePrefix, stream: seq<byte>, data: seq<byte>,
                      inv: (nat, nat, nat, Pushed) -> bool, post: Pushed -> bool)
    requires Inductive(a, k, prefix, data, inv, post) && |data| >= 33
    requires inv(33, |Ciphertext(a, prefix, stream, 0)|, 0, Pushed(start, [], Pass))
    ensures post(FirstFrames(a, k, start, prefix, stream, data))
  {
    LoopInduction(a, k, prefix, data, inv, post, 33, |Ciphertext(a, prefix, stream, 0)|, 0, Pushed(start, [], Pass));
    var r := FirstFrames(a, k, start, prefix, stream, data);
    assert [] + r.emitted == r.emitted;
  }

  lemma AuthenticateStartsLoop(a: Aead, k: Consumer, start: Dec, prefix: NoncePrefix, stream: seq<byte>,
                               data: seq<byte>)
    requires Decrypts(a, prefix, stream) && SealedSize(|stream|) <= MAX_CIPHERTEXT && data == Sealed(a, prefix, stream)
    ensures Authenticate(a, k, start, data) == FirstFrames(a, k, start, prefix, stream, data)
  {
    FrameReads(a, prefix, stream, 0);
    SealedHeader(a, prefix, stream, data);
    assert FrameStart(0) == HEADER_BYTES;
  }

  lemma SealedHeader(a: Aead, prefix: NoncePrefix, stream: seq<byte>, data: seq<byte>)
    requires a.Sized() && SealedSize(|stream|) <= MAX_CIPHERTEXT && data == Sealed(a, prefix, stream)
    ensures ReadAt(data, 0, HEADER_BYTES) == Ok(SerializeHeader(prefix))
    ensures ParseHeader(SerializeHeader(prefix)) == Ok(prefix)
  {
    assert data[0..HEADER_BYTES] == SerializeHeader(prefix);
    HeaderRoundTrip(SerializeHeader(prefix), prefix);
  }

  /** Round trip: opening the sealed object of a compressed frame succeeds and emits exactly its content. */
  lemma RoundTrip(a: Aead, z: Zstd, f: Format, prefix: NoncePrefix, stream: seq<byte>, content: seq<byte>)
    requires Decrypts(a, prefix, stream) && f.Implements(z)
    requires f.plain(stream) == Some(content) && ScanHeader(stream).Accept?
    requires |content| <= MAX_PLAINTEXT && SealedSize(|stream|) <= MAX_CIPHERTEXT
    ensures Open(a, z, Sealed(a, prefix, stream)) == Opened(content, Pass)
  {
    SealedAuthenticates(a, Feed(z), Fresh(z), prefix, stream);
    AllBlocksGlue(stream);
    PushAllRoundTrip(z, f, AllBlocks(stream), content);
    OpenedBy(a, z, Sealed(a, prefix, stream), PushAll(Feed(z), Fresh(z), AllBlocks(stream)));
  }

  lemma OpenedBy(a: Aead, z: Zstd, data: seq<byte>, r: Pushed)
    requires r == Authenticate(a, Feed(z), Fresh(z), data) && r.verdict.Pass? && r.dec.checked && r.dec.core.complete
    ensures Open(a, z, data) == Opened(r.emitted, Pass)
  {
  }
}
