/** `BoundedDecoder` of crates/kchat-backup/src/object/compression.rs: header gate, bounded
    decode loop, single frame, no trailing bytes. */
module Decoder {
  import opened Common
  import opened Io
  import opened ZstdHeader

  /** One `run_on_buffers` call: bytes read, bytes written, and zero `remaining` once the frame is
      decoded and flushed. */
  datatype Run = Fault | Ran(next: nat, read: nat, out: seq<byte>, remaining: nat)

  /** The raw Zstd decoder as a step machine over coded states: state, input, output capacity. */
  datatype Zstd = Zstd(start: nat, run: (nat, seq<byte>, nat) -> Run)
  {
    /** It never reads or writes outside the buffers it is given. */
    ghost predicate Bounded() {
      forall s: nat, input: seq<byte>, cap: nat :: run(s, input, cap).Ran? ==>
        run(s, input, cap).read <= |input| && |run(s, input, cap).out| <= cap
    }
  }

  datatype Core = Core(state: nat, total: nat, complete: bool)

  /** Result of feeding bytes: the new state, what was emitted, and the verdict. */
  datatype Decoded = Decoded(core: Core, emitted: seq<byte>, verdict: Verdict)

  function NoTrailing(rest: seq<byte>): Verdict {
    if rest == [] then Pass else Fail(InvalidCompressedData)
  }

  /** Room offered to the decoder: one byte past the plaintext limit is probed, never emitted. */
  function Capacity(total: nat): nat
    requires total <= MAX_PLAINTEXT
  {
    Min(MAX_IO_CHUNK, MAX_PLAINTEXT - total + 1)
  }

  /** One round of the `decode` loop: it ends the loop, or leaves input for another round. */
  datatype Round =
    | Stop(core: Core, out: seq<byte>, verdict: Verdict)
    | More(core: Core, out: seq<byte>, rest: seq<byte>)

  function OneRound(z: Zstd, c: Core, bytes: seq<byte>): (r: Round)
    requires z.Bounded() && c.total <= MAX_PLAINTEXT
    ensures r.core.total == c.total + |r.out| <= MAX_PLAINTEXT && |r.out| <= MAX_IO_CHUNK
    ensures r.More? ==> !r.core.complete && |r.rest| - r.core.total < |bytes| - c.total
  {
    var run := z.run(c.state, bytes, Capacity(c.total));
    if run.Fault? then Stop(c, [], Fail(InvalidCompressedData))
    else if c.total + |run.out| > MAX_PLAINTEXT then Stop(c, [], Fail(ResourceLimitExceeded))
    else
      var core := Core(run.next, c.total + |run.out|, run.remaining == 0);
      var rest := bytes[run.read..];
      if run.remaining == 0 || (run.read == 0 && run.out == []) then Stop(core, run.out, NoTrailing(rest))
      else More(core, run.out, rest)
  }

  /** The `decode` loop. Every round that continues consumes input or plaintext budget. */
  function Decode(z: Zstd, c: Core, bytes: seq<byte>): (d: Decoded)
    requires z.Bounded() && c.total <= MAX_PLAINTEXT
    ensures d.core.total == c.total + |d.emitted| <= MAX_PLAINTEXT
    decreases |bytes| + (MAX_PLAINTEXT - c.total)
  {
    if c.complete then Decoded(c, [], NoTrailing(bytes)) else
    match OneRound(z, c, bytes)
    case Stop(core, out, verdict) => Decoded(core, out, verdict)
    case More(core, out, rest) =>
      var tail := Decode(z, core, rest);
      Decoded(tail.core, out + tail.emitted, tail.verdict)
  }

  /** After emitting `sent`, decoding `bytes` from `c` completes `whole`. */
  ghost predicate DecodeRemains(z: Zstd, c: Core, bytes: seq<byte>, sent: seq<byte>, whole: Decoded)
    requires z.Bounded() && c.total <= MAX_PLAINTEXT
  {
    var d := Decode(z, c, bytes);
    whole == Decoded(d.core, sent + d.emitted, d.verdict)
  }

  lemma RoundAdvances(z: Zstd, c: Core, bytes: seq<byte>, sent: seq<byte>, whole: Decoded)
    requires z.Bounded() && c.total <= MAX_PLAINTEXT && !c.complete
    requires DecodeRemains(z, c, bytes, sent, whole)
    ensures var round := OneRound(z, c, bytes);
            && sent + round.out <= whole.emitted
            && match round
               case More(core, out, rest) => DecodeRemains(z, core, rest, sent + out, whole)
               case Stop(core, out, verdict) => whole == Decoded(core, sent + out, verdict)
  {
    var round := OneRound(z, c, bytes);
    if round.More? {
      var tail := Decode(z, round.core, round.rest);
      assert sent + (round.out + tail.emitted) == (sent + round.out) + tail.emitted;
    }
  }

  /** Header bytes collected so far, whether the header has passed, and the decoder proper. */
  datatype Dec = Dec(header: seq<byte>, checked: bool, core: Core)
  {
    predicate Valid() {
      && core.total <= MAX_PLAINTEXT
      && (if checked then header == [] else ScanHeader(header) == NeedMore)
    }
  }

  function Fresh(z: Zstd): (d: Dec)
    ensures d.Valid()
  {
    Dec([], false, Core(z.start, 0, false))
  }

  datatype Pushed = Pushed(dec: Dec, emitted: seq<byte>, verdict: Verdict)

  /** `push`, with the header read in one go: the header bytes are handed to the decoder first, then the rest. */
  function Push(z: Zstd, d: Dec, bytes: seq<byte>): (p: Pushed)
    requires z.Bounded() && d.Valid()
    ensures p.dec.Valid()
  {
    if d.checked then
      var r := Decode(z, d.core, bytes);
      Pushed(Dec([], true, r.core), r.emitted, r.verdict)
    else
      var all := d.header + bytes;
      match ScanHeader(all)
      case NeedMore => Pushed(Dec(all, false, d.core), [], Pass)
      case Reject(e) => Pushed(d, [], Fail(e))
      case Accept(n) =>
        var first := Decode(z, d.core, all[..n]);
        if first.verdict.Fail? then Pushed(Dec([], true, first.core), first.emitted, first.verdict)
        else
          var second := Decode(z, first.core, all[n..]);
          Pushed(Dec([], true, second.core), first.emitted + second.emitted, second.verdict)
  }

  /** Anything that takes blocks one by one, as the frame loop sees the decoder. */
  type Consumer = (Dec, seq<byte>) -> Pushed

  /** The bounded decoder as such a consumer. */
  ghost function Feed(z: Zstd): Consumer {
    (d: Dec, b: seq<byte>) => if z.Bounded() && d.Valid() then Push(z, d, b) else Pushed(d, [], Fail(InvalidState))
  }

  class BoundedDecoder {
    const z: Zstd
    var header: seq<byte>
    var headerChecked: bool
    var complete: bool
    var total: nat
    var state: nat

    ghost function View(): Dec
      reads this
    {
      Dec(header, headerChecked, Core(state, total, complete))
    }

    ghost predicate Valid()
      reads this
    {
      z.Bounded() && View().Valid()
    }

    constructor (z: Zstd)
      requires z.Bounded()
      ensures this.z == z && Valid() && View() == Fresh(z)
    {
      this.z, header, headerChecked, complete, total, state := z, [], false, false, 0, z.start;
    }

    /** One round against a sink and a caller that may interfere; `got` is what the sink received. */
    method RunRound(bytes: seq<byte>, sink: ByteSink, source: ByteSource)
      returns (v: Verdict, more: bool, rest: seq<byte>, ghost got: seq<byte>)
      requires z.Bounded() && total <= MAX_PLAINTEXT && !complete
      modifies this`complete, this`total, this`state, sink
      ensures sink.bytes == old(sink.bytes) + got
      ensures var round := OneRound(z, old(View().core), bytes);
              && got <= round.out
              && (v.Pass? ==> View().core == round.core && got == round.out)
              && (v.Pass? ==> if more then round.More? && rest == round.rest else round.Stop? && round.verdict.Pass?)
              && (v.Fail? ==> source.Cancels(v.code) || sink.Blamed(v.code) || (round.Stop? && round.verdict == v))
              && (sink.reliable && !source.cancellable ==> got == round.out)
    {
      more, rest, got := false, bytes, [];
      var cancelled := source.IsCancelled();
      if cancelled { return Fail(Cancelled), more, rest, got; }
      var run := z.run(state, bytes, Capacity(total));
      if run.Fault? { return Fail(InvalidCompressedData), more, rest, got; }
      state := run.next;
      if total + |run.out| > MAX_PLAINTEXT { return Fail(ResourceLimitExceeded), more, rest, got; }
      total := total + |run.out|;
      cancelled := source.IsCancelled();
      if cancelled { return Fail(Cancelled), more, rest, got; }
      if run.out != [] {
        var w := sink.WriteChunk(run.out);
        got := sink.bytes[|old(sink.bytes)|..];
        if w.Err? { return Fail(w.code), more, rest, got; }
      }
      cancelled := source.IsCancelled();
      if cancelled { return Fail(Cancelled), more, rest, got; }
      rest := bytes[run.read..];
      if run.remaining == 0 {
        complete := true;
        return NoTrailing(rest), more, rest, got;
      }
      if run.read == 0 && |run.out| == 0 {
        return NoTrailing(rest), more, rest, got;
      }
      v, more := Pass, true;
    }

    /** Whatever the sink and the caller do, the sink has received a prefix of what the loop would emit;
        on success all of it, and with a reliable sink and no cancellation the outcome is the loop's own. */
    method DecodeBytes(input: seq<byte>, sink: ByteSink, source: ByteSource) returns (v: Verdict, ghost got: seq<byte>)
      requires z.Bounded() && total <= MAX_PLAINTEXT
      modifies this`complete, this`total, this`state, sink
      ensures sink.bytes == old(sink.bytes) + got
      ensures var d := Decode(z, old(View().core), input);
              && got <= d.emitted
              && (v.Pass? ==> d.verdict.Pass? && View().core == d.core && got == d.emitted)
              && (v.Fail? ==> source.Cancels(v.code) || sink.Blamed(v.code) || v == d.verdict)
              && (sink.reliable && !source.cancellable ==> got == d.emitted)
    {
      got := [];
      if complete {
        return NoTrailing(input), got;
      }
      var bytes, more := input, true;
      v := Pass;
      ghost var whole := Decode(z, View().core, input);
      while more
        invariant total <= MAX_PLAINTEXT && v.Pass?
        invariant sink.bytes == old(sink.bytes) + got
        invariant more ==> !complete && DecodeRemains(z, View().core, bytes, got, whole)
        invariant !more ==> whole == Decoded(View().core, got, Pass)
        decreases more, |bytes| + (MAX_PLAINTEXT - total)
      {
        ghost var round := OneRound(z, View().core, bytes);
        RoundAdvances(z, View().core, bytes, got, whole);
        ghost var step;
        v, more, bytes, step := RunRound(bytes, sink, source);
        PrefixShorter(got, step, round.out, whole.emitted);
        Associates(old(sink.bytes), got, step);
        got := got + step;
        if v.Fail? { return; }
      }
    }

    /** Collects header bytes one by one until the check settles; `used` bytes of the input are taken. */
    method CollectHeader(input: seq<byte>) returns (r: Result<bool>, used: nat)
      requires Valid() && !headerChecked
      modifies this`header
      ensures used <= |input|
      ensures match ScanHeader(old(header) + input)
              case NeedMore => r == Ok(false) && header == old(header) + input
              case Reject(e) => r == Err(e)
              case Accept(n) =>
                && r == Ok(true) && header == (old(header) + input)[..n]
                && input[used..] == (old(header) + input)[n..]
    {
      used := 0;
      ghost var all := header + input;
      while used < |input|
        invariant used <= |input|
        invariant header == all[..|old(header)| + used]
        invariant ScanHeader(header) == NeedMore
      {
        header := header + [input[used]];
        used := used + 1;
        assert header + input[used..] == all;
        var checked := CheckHeader(header);
        if checked != Ok(false) {
          ScanIsStable(header, input[used..]);
          if checked.Ok? {
            ScanStopsAtHeader(all, |old(header)| + used - 1);
          }
          return checked, used;
        }
      }
      r := Ok(false);
    }

    /** `push`: the header is collected byte by byte; the outcome is that of reading it in one go. */
    method PushBytes(input: seq<byte>, sink: ByteSink, source: ByteSource) returns (v: Verdict, ghost got: seq<byte>)
      requires Valid()
      modifies this, sink
      ensures sink.bytes == old(sink.bytes) + got
      ensures var p := Push(z, old(View()), input);
              && got <= p.emitted
              && (v.Pass? ==> p.verdict.Pass? && Valid() && View() == p.dec && got == p.emitted)
              && (v.Fail? ==> source.Cancels(v.code) || sink.Blamed(v.code) || v == p.verdict)
              && (sink.reliable && !source.cancellable ==> got == p.emitted)
    {
      var bytes := input;
      got := [];
      if !headerChecked {
        var settled, used := CollectHeader(input);
        if settled.Err? { return Fail(settled.code), got; }
        if !settled.value { return Pass, got; }
        headerChecked := true;
        var whole := header;
        header := [];
        v, got := DecodeBytes(whole, sink, source);
        if v.Fail? { return; }
        bytes := input[used..];
      }
      ghost var second;
      v, second := DecodeBytes(bytes, sink, source);
      Associates(old(sink.bytes), got, second);
      got := got + second;
    }

    method Finish() returns (v: Verdict)
      ensures v == if headerChecked && complete then Pass else Fail(InvalidCompressedData)
    {
      v := if headerChecked && complete then Pass else Fail(InvalidCompressedData);
    }
  }
}
