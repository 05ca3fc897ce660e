/** What the bounded decoder guarantees, given the documented contract of a Zstd decoder. */
module DecoderLaws {
  import opened Common
  import opened ZstdHeader
  import opened Decoder

  /** Everything a decoder state has read and written so far. */
  datatype Progress = Progress(consumed: seq<byte>, produced: seq<byte>)

  /** The compressed format: which byte strings are exactly one complete frame, and of what content;
      and how a decoder's states relate to it. */
  datatype Format = Format(view: nat -> Progress, plain: seq<byte> -> Option<seq<byte>>)
  {
    /** A run moves the view by exactly the bytes it reports. */
    ghost predicate Tracks(z: Zstd) {
      && view(z.start) == Progress([], [])
      && forall s: nat, input: seq<byte>, cap: nat ::
           var run := z.run(s, input, cap);
           run.Ran? && run.read <= |input| ==>
             view(run.next) == Progress(view(s).consumed + input[..run.read], view(s).produced + run.out)
    }

    /** `remaining == 0` is reported only at the end of a frame whose content has been written out. */
    ghost predicate Sound(z: Zstd) {
      forall s: nat, input: seq<byte>, cap: nat ::
        var run := z.run(s, input, cap);
        run.Ran? && run.remaining == 0 ==> plain(view(run.next).consumed) == Some(view(run.next).produced)
    }

    /** In the middle of this frame, more of it never faults, output stays on the content, the end is
        reported exactly when all is read and written, and the decoder only idles for want of input. */
    ghost predicate Decodes(z: Zstd, frame: seq<byte>, content: seq<byte>) {
      forall s: nat, input: seq<byte>, cap: nat ::
        cap > 0 && Midway(s, input, frame, content) ==>
          var run := z.run(s, input, cap);
          && run.Ran?
          && view(run.next).produced <= content
          && (run.remaining == 0 <==> view(run.next) == Progress(frame, content))
          && (run.read == 0 && run.out == [] ==> input == [] && view(s).consumed != frame)
    }

    ghost predicate Midway(s: nat, input: seq<byte>, frame: seq<byte>, content: seq<byte>) {
      && view(s).consumed + input <= frame
      && view(s).produced <= content
      && view(s) != Progress(frame, content)
    }

    /** The whole decoder contract. */
    ghost predicate Implements(z: Zstd) {
      && z.Bounded() && Tracks(z) && Sound(z)
      && forall frame: seq<byte> :: plain(frame).Some? && ScanHeader(frame).Accept? ==>
           Decodes(z, frame, plain(frame).value)
    }
  }

  // ---------------------------------------------------------------- soundness

  /** A successful decode has consumed all its input, and completing means a whole frame was seen. */
  lemma {:induction false} DecodeSound(z: Zstd, f: Format, c: Core, bytes: seq<byte>)
    requires z.Bounded() && f.Tracks(z) && f.Sound(z) && c.total <= MAX_PLAINTEXT
    requires Decode(z, c, bytes).verdict.Pass?
    ensures var d := Decode(z, c, bytes);
            && f.view(d.core.state) == Progress(f.view(c.state).consumed + bytes, f.view(c.state).produced + d.emitted)
            && (d.core.complete && !c.complete ==>
                  f.plain(f.view(d.core.state).consumed) == Some(f.view(d.core.state).produced))
            && (c.complete ==> d.core.complete && bytes == [])
    decreases |bytes| + (MAX_PLAINTEXT - c.total)
  {
    if !c.complete {
      var run := z.run(c.state, bytes, Capacity(c.total));
      var v := f.view(c.state);
      assert f.view(run.next) == Progress(v.consumed + bytes[..run.read], v.produced + run.out);
      var round := OneRound(z, c, bytes);
      match round {
        case Stop(_, _, _) =>
          assert bytes[..run.read] == bytes;
        case More(core, out, rest) =>
          DecodeSound(z, f, core, rest);
          Associates(v.consumed, bytes[..run.read], rest);
          assert bytes[..run.read] + rest == bytes;
          Associates(v.produced, out, Decode(z, core, rest).emitted);
      }
    }
  }

  lemma DecodeTwiceSound(z: Zstd, f: Format, c: Core, a: seq<byte>, b: seq<byte>)
    requires z.Bounded() && f.Tracks(z) && f.Sound(z) && c.total <= MAX_PLAINTEXT && !c.complete
    requires Decode(z, c, a).verdict.Pass? && Decode(z, Decode(z, c, a).core, b).verdict.Pass?
    ensures var first := Decode(z, c, a);
            var second := Decode(z, first.core, b);
            var v := Progress(f.view(c.state).consumed + (a + b),
                              f.view(c.state).produced + (first.emitted + second.emitted));
            && f.view(second.core.state) == v
            && (second.core.complete ==> f.plain(v.consumed) == Some(v.produced))
  {
    var first := Decode(z, c, a);
    var second := Decode(z, first.core, b);
    DecodeSound(z, f, c, a);
    DecodeSound(z, f, first.core, b);
    Associates(f.view(c.state).consumed, a, b);
    Associates(f.view(c.state).produced, first.emitted, second.emitted);
    if first.core.complete {
      assert a + b == a && first.emitted + second.emitted == first.emitted;
    }
  }

  /** `pushed` and `emitted` are the whole history of a decoder. */
  ghost predicate Fed(z: Zstd, f: Format, d: Dec, pushed: seq<byte>, emitted: seq<byte>) {
    && d.Valid()
    && if !d.checked then d == Dec(pushed, false, Core(z.start, 0, false)) && emitted == []
       else && f.view(d.core.state) == Progress(pushed, emitted)
            && (d.core.complete ==> f.plain(pushed) == Some(emitted))
  }

  lemma PushSound(z: Zstd, f: Format, d: Dec, pushed: seq<byte>, emitted: seq<byte>, bytes: seq<byte>)
    requires z.Bounded() && f.Tracks(z) && f.Sound(z)
    requires Fed(z, f, d, pushed, emitted)
    requires Push(z, d, bytes).verdict.Pass?
    ensures Fed(z, f, Push(z, d, bytes).dec, pushed + bytes, emitted + Push(z, d, bytes).emitted)
  {
    if d.checked {
      PushOnSound(z, f, d, pushed, emitted, bytes);
    } else {
      PushFirstSound(z, f, d, bytes, ScanHeader(d.header + bytes));
      assert [] + Push(z, d, bytes).emitted == Push(z, d, bytes).emitted;
    }
  }

  lemma PushFirstSound(z: Zstd, f: Format, d: Dec, bytes: seq<byte>, scan: Scan)
    requires z.Bounded() && f.Tracks(z) && f.Sound(z) && d.Valid()
    requires !d.checked && d.core == Core(z.start, 0, false) && scan == ScanHeader(d.header + bytes)
    requires Push(z, d, bytes).verdict.Pass?
    ensures Fed(z, f, Push(z, d, bytes).dec, d.header + bytes, Push(z, d, bytes).emitted)
  {
    if scan.Accept? {
      PushHeaderSound(z, f, d.header + bytes, scan.length);
    }
  }

  lemma PushOnSound(z: Zstd, f: Format, d: Dec, pushed: seq<byte>, emitted: seq<byte>, bytes: seq<byte>)
    requires z.Bounded() && f.Tracks(z) && f.Sound(z)
    requires Fed(z, f, d, pushed, emitted) && d.checked
    requires Push(z, d, bytes).verdict.Pass?
    ensures Fed(z, f, Push(z, d, bytes).dec, pushed + bytes, emitted + Push(z, d, bytes).emitted)
  {
    DecodeSound(z, f, d.core, bytes);
    if d.core.complete {
      assert pushed + bytes == pushed;
      assert emitted + Push(z, d, bytes).emitted == emitted;
    }
  }

  lemma PushHeaderSound(z: Zstd, f: Format, all: seq<byte>, n: nat)
    requires z.Bounded() && f.Tracks(z) && f.Sound(z) && n <= |all|
    ensures var first := Decode(z, Core(z.start, 0, false), all[..n]);
            var second := Decode(z, first.core, all[n..]);
            first.verdict.Pass? && second.verdict.Pass? ==>
              Fed(z, f, Dec([], true, second.core), all, first.emitted + second.emitted)
  {
    var c := Core(z.start, 0, false);
    var first := Decode(z, c, all[..n]);
    var second := Decode(z, first.core, all[n..]);
    if first.verdict.Pass? && second.verdict.Pass? {
      DecodeTwiceSound(z, f, c, all[..n], all[n..]);
      assert all[..n] + all[n..] == all && [] + all == all;
      assert [] + (first.emitted + second.emitted) == first.emitted + second.emitted;
    }
  }

  /** Pushing a sequence of blocks, stopping at the first failure. */
  function PushAll(k: Consumer, d: Dec, blocks: seq<seq<byte>>): Pushed {
    if blocks == [] then Pushed(d, [], Pass) else
    var before := PushAll(k, d, blocks[..|blocks| - 1]);
    if before.verdict.Fail? then before
    else
      var last := k(before.dec, blocks[|blocks| - 1]);
      Pushed(last.dec, before.emitted + last.emitted, last.verdict)
  }

  /** What the first blocks emit is a prefix of what all of them emit. */
  lemma {:induction false} PushAllPrefix(k: Consumer, d: Dec, blocks: seq<seq<byte>>, n: nat)
    requires n <= |blocks|
    ensures PushAll(k, d, blocks[..n]).emitted <= PushAll(k, d, blocks).emitted
    decreases |blocks|
  {
    if n == |blocks| {
      assert blocks[..n] == blocks;
    } else {
      var init := blocks[..|blocks| - 1];
      assert init[..n] == blocks[..n];
      PushAllPrefix(k, d, init, n);
      assert PushAll(k, d, init).emitted <= PushAll(k, d, blocks).emitted;
    }
  }

  /** Success over any sequence of pushes, ending complete, means the pushed bytes are exactly one frame
      and the emitted bytes exactly its content. */
  lemma {:induction false} PushAllSound(z: Zstd, f: Format, blocks: seq<seq<byte>>)
    requires z.Bounded() && f.Tracks(z) && f.Sound(z)
    requires PushAll(Feed(z), Fresh(z), blocks).verdict.Pass?
    ensures var p := PushAll(Feed(z), Fresh(z), blocks);
            Fed(z, f, p.dec, Flatten(blocks), p.emitted)
  {
    if blocks != [] {
      var init := blocks[..|blocks| - 1];
      PushAllSound(z, f, init);
      var before := PushAll(Feed(z), Fresh(z), init);
      PushSound(z, f, before.dec, Flatten(init), before.emitted, blocks[|blocks| - 1]);
    }
  }

  // ---------------------------------------------------------------- completeness

  /** A core midway through, or exactly at the end of, the frame. */
  ghost predicate OnTrack(f: Format, c: Core, frame: seq<byte>, content: seq<byte>) {
    var v := f.view(c.state);
    && v.consumed <= frame && v.produced <= content
    && c.total == |v.produced|
    && (c.complete <==> v == Progress(frame, content))
  }

  lemma {:induction false} DecodeComplete(z: Zstd, f: Format, frame: seq<byte>, content: seq<byte>, c: Core,
                                          bytes: seq<byte>)
    requires z.Bounded() && f.Tracks(z) && f.Decodes(z, frame, content) && |content| <= MAX_PLAINTEXT
    requires OnTrack(f, c, frame, content) && !c.complete
    requires f.view(c.state).consumed + bytes <= frame
    ensures var d := Decode(z, c, bytes);
            && d.verdict.Pass?
            && f.view(d.core.state) == Progress(f.view(c.state).consumed + bytes, f.view(c.state).produced + d.emitted)
            && OnTrack(f, d.core, frame, content)
            && (f.view(c.state).consumed + bytes == frame ==> d.core.complete)
    decreases |bytes| + (MAX_PLAINTEXT - c.total)
  {
    var v := f.view(c.state);
    var run := z.run(c.state, bytes, Capacity(c.total));
    assert f.Midway(c.state, bytes, frame, content);
    assert run.Ran?;
    var w := f.view(run.next);
    assert w == Progress(v.consumed + bytes[..run.read], v.produced + run.out);
    Associates(v.consumed, bytes[..run.read], bytes[run.read..]);
    assert bytes[..run.read] + bytes[run.read..] == bytes;
    var round := OneRound(z, c, bytes);
    if run.remaining == 0 {
      assert bytes[run.read..] == [];
    } else if run.read == 0 && run.out == [] {
      assert bytes == [];
    } else {
      assert round == More(Core(run.next, c.total + |run.out|, false), run.out, bytes[run.read..]);
      DecodeComplete(z, f, frame, content, round.core, round.rest);
      Associates(v.produced, run.out, Decode(z, round.core, round.rest).emitted);
    }
  }

  /** A decoder that has been pushed the part `seen` of the frame. */
  ghost predicate Following(z: Zstd, f: Format, d: Dec, seen: seq<byte>, emitted: seq<byte>,
                            frame: seq<byte>, content: seq<byte>)
  {
    && d.Valid() && seen <= frame
    && if !d.checked then d == Dec(seen, false, Core(z.start, 0, false)) && emitted == []
       else && f.view(d.core.state) == Progress(seen, emitted)
            && OnTrack(f, d.core, frame, content)
            && (seen == frame ==> d.core.complete)
  }

  /** The decoder in the middle of the frame takes more of it. */
  lemma PushOn(z: Zstd, f: Format, d: Dec, seen: seq<byte>, emitted: seq<byte>, bytes: seq<byte>, frame: seq<byte>,
               content: seq<byte>)
    requires z.Bounded() && f.Tracks(z) && f.Decodes(z, frame, content) && |content| <= MAX_PLAINTEXT
    requires Following(z, f, d, seen, emitted, frame, content) && d.checked && seen + bytes <= frame
    ensures var p := Push(z, d, bytes);
            && p.verdict.Pass?
            && Following(z, f, p.dec, seen + bytes, emitted + p.emitted, frame, content)
  {
    if d.core.complete {
      assert bytes == [] && seen + bytes == seen;
      assert emitted + Push(z, d, bytes).emitted == emitted;
    } else {
      DecodeComplete(z, f, frame, content, d.core, bytes);
    }
  }

  /** The decoder whose header is now complete takes it and what follows. */
  lemma PushHeader(z: Zstd, f: Format, all: seq<byte>, n: nat, frame: seq<byte>, content: seq<byte>)
    requires z.Bounded() && f.Tracks(z) && f.Decodes(z, frame, content) && |content| <= MAX_PLAINTEXT
    requires all <= frame && n <= |all| && OnTrack(f, Core(z.start, 0, false), frame, content)
    ensures var first := Decode(z, Core(z.start, 0, false), all[..n]);
            var second := Decode(z, first.core, all[n..]);
            && first.verdict.Pass? && second.verdict.Pass?
            && Following(z, f, Dec([], true, second.core), all, first.emitted + second.emitted, frame, content)
  {
    var c := Core(z.start, 0, false);
    assert all[..n] + all[n..] == all && [] + all == all;
    DecodeTwice(z, f, frame, content, c, all[..n], all[n..]);
    var first := Decode(z, c, all[..n]);
    var emitted := first.emitted + Decode(z, first.core, all[n..]).emitted;
    assert [] + emitted == emitted;
  }

  lemma PushComplete(z: Zstd, f: Format, d: Dec, seen: seq<byte>, emitted: seq<byte>, bytes: seq<byte>,
                     frame: seq<byte>, content: seq<byte>)
    requires f.Implements(z) && f.plain(frame) == Some(content) && |content| <= MAX_PLAINTEXT
    requires ScanHeader(frame).Accept?
    requires Following(z, f, d, seen, emitted, frame, content) && seen + bytes <= frame
    ensures var p := Push(z, d, bytes);
            && p.verdict.Pass?
            && Following(z, f, p.dec, seen + bytes, emitted + p.emitted, frame, content)
  {
    if d.checked {
      PushOn(z, f, d, seen, emitted, bytes, frame, content);
    } else {
      PushFirst(z, f, d, bytes, frame, content, ScanHeader(d.header + bytes));
      assert [] + Push(z, d, bytes).emitted == Push(z, d, bytes).emitted;
    }
  }

  lemma PushFirst(z: Zstd, f: Format, d: Dec, bytes: seq<byte>, frame: seq<byte>, content: seq<byte>, scan: Scan)
    requires z.Bounded() && f.Tracks(z) && f.Decodes(z, frame, content) && |content| <= MAX_PLAINTEXT
    requires ScanHeader(frame).Accept? && d.Valid() && d.header + bytes <= frame
    requires !d.checked && d.core == Core(z.start, 0, false) && scan == ScanHeader(d.header + bytes)
    requires OnTrack(f, d.core, frame, content)
    ensures var p := Push(z, d, bytes);
            && p.verdict.Pass?
            && Following(z, f, p.dec, d.header + bytes, p.emitted, frame, content)
  {
    var all := d.header + bytes;
    assert all == frame[..|all|];
    ScanStopsAtHeader(frame, |all|);
    if scan.Accept? {
      PushHeader(z, f, all, scan.length, frame, content);
    }
  }

  /** Decoding two stretches of the frame, one after the other. */
  lemma DecodeTwice(z: Zstd, f: Format, frame: seq<byte>, content: seq<byte>, c: Core, a: seq<byte>, b: seq<byte>)
    requires z.Bounded() && f.Tracks(z) && f.Decodes(z, frame, content) && |content| <= MAX_PLAINTEXT
    requires OnTrack(f, c, frame, content) && !c.complete
    requires f.view(c.state).consumed + (a + b) <= frame
    ensures var first := Decode(z, c, a);
            var second := Decode(z, first.core, b);
            && first.verdict.Pass? && second.verdict.Pass?
            && f.view(second.core.state) ==
                 Progress(f.view(c.state).consumed + (a + b),
                          f.view(c.state).produced + (first.emitted + second.emitted))
            && OnTrack(f, second.core, frame, content)
            && (f.view(c.state).consumed + (a + b) == frame ==> second.core.complete)
  {
    var v := f.view(c.state);
    Associates(v.consumed, a, b);
    DecodeComplete(z, f, frame, content, c, a);
    var first := Decode(z, c, a);
    if first.core.complete {
      assert b == [] && a + b == a;
      assert first.emitted + [] == first.emitted;
    } else {
      DecodeComplete(z, f, frame, content, first.core, b);
      Associates(v.produced, first.emitted, Decode(z, first.core, b).emitted);
    }
  }

  /** However a frame is cut into blocks, pushing them emits exactly its content and ends complete. */
  lemma PushAllRoundTrip(z: Zstd, f: Format, blocks: seq<seq<byte>>, content: seq<byte>)
    requires f.Implements(z) && f.plain(Flatten(blocks)) == Some(content) && |content| <= MAX_PLAINTEXT
    requires ScanHeader(Flatten(blocks)).Accept?
    ensures var p := PushAll(Feed(z), Fresh(z), blocks);
            p.verdict.Pass? && p.emitted == content && p.dec.checked && p.dec.core.complete
  {
    PushAllFollows(z, f, blocks, |blocks|, content);
    assert blocks[..|blocks|] == blocks;
  }

  lemma FlattenedPart(blocks: seq<seq<byte>>, n: nat)
    requires 0 < n <= |blocks|
    ensures Flatten(blocks[..n]) == Flatten(blocks[..n - 1]) + blocks[n - 1] <= Flatten(blocks)
  {
    assert blocks[..n][..n - 1] == blocks[..n - 1];
    FlattenSplit(blocks, n);
  }

  lemma {:induction false} PushAllFollows(z: Zstd, f: Format, blocks: seq<seq<byte>>, n: nat, content: seq<byte>)
    requires f.Implements(z) && f.plain(Flatten(blocks)) == Some(content) && |content| <= MAX_PLAINTEXT
    requires ScanHeader(Flatten(blocks)).Accept? && n <= |blocks|
    ensures var p := PushAll(Feed(z), Fresh(z), blocks[..n]);
            && p.verdict.Pass?
            && Following(z, f, p.dec, Flatten(blocks[..n]), p.emitted, Flatten(blocks), content)
  {
    if n == 0 {
      assert blocks[..0] == [];
    } else {
      PushAllFollows(z, f, blocks, n - 1, content);
      var init := blocks[..n - 1];
      assert blocks[..n][..n - 1] == init;
      FlattenedPart(blocks, n);
      var before := PushAll(Feed(z), Fresh(z), init);
      PushComplete(z, f, before.dec, Flatten(init), before.emitted, blocks[n - 1], Flatten(blocks), content);
    }
  }
}
