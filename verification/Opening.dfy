/** `authenticate_envelope` and `open_object_v1` of crates/kchat-backup/src/object/reader.rs, run
    against any source, sink and caller. */
module Opening {
  import opened Common
  import opened Envelope
  import opened Io
  import opened Decoder
  import opened Reader

  /** After emitting `sent`, the frame loop from here completes `whole`. */
  ghost predicate FramesRemain(a: Aead, k: Consumer, prefix: NoncePrefix, data: seq<byte>, p: nat, length: nat,
                               index: nat, d: Dec, sent: seq<byte>, whole: Pushed)
    requires p <= |data|
  {
    var r := OpenFrames(a, k, prefix, data, p, length, index, d);
    whole == Pushed(r.dec, sent + r.emitted, r.verdict)
  }

  lemma FrameAdvances(a: Aead, k: Consumer, prefix: NoncePrefix, data: seq<byte>, p: nat, length: nat, index: nat,
                      d: Dec, sent: seq<byte>, whole: Pushed)
    requires p <= |data|
    requires FramesRemain(a, k, prefix, data, p, length, index, d, sent, whole)
    ensures var s := OneFrame(a, k, prefix, data, p, length, index, d);
            && sent + s.pushed.emitted <= whole.emitted
            && match s
               case Halt(pushed) => whole == Pushed(pushed.dec, sent + pushed.emitted, pushed.verdict)
               case Onward(pushed, next) =>
                 FramesRemain(a, k, prefix, data, p + length + 4, next, index + 1, pushed.dec, sent + pushed.emitted,
                              whole)
  {
    var s := OneFrame(a, k, prefix, data, p, length, index, d);
    if s.Onward? {
      var rest := OpenFrames(a, k, prefix, data, p + length + 4, s.length, index + 1, s.pushed.dec);
      Associates(sent, s.pushed.emitted, rest.emitted);
    }
  }

  /** What the data has to say about a frame before it is decrypted: an error, or the length after it. */
  function Framed(data: seq<byte>, p: nat, length: nat): Result<Option<nat>>
    requires p <= |data|
  {
    match ReadAt(data, p, length)
    case Err(e) => Err(e)
    case Ok(_) =>
      match NextLength(data, p + length)
      case Err(e) => Err(e)
      case Ok(next) => if next.Some? && length != FULL_FRAME then Err(MalformedObject) else Ok(next)
  }

  /** A frame's ciphertext and the length after it; only a full frame may have a successor. */
  method ReadFrame(input: CheckedSource, frame: array<byte>, length: nat) returns (v: Verdict, next: Option<nat>)
    requires input.Valid() && length <= frame.Length
    modifies input, input.source, frame
    ensures old(input.bytes) <= |input.source.data|
    ensures var framed := Framed(input.source.data, old(input.bytes), length);
            && (v.Pass? ==>
                  && framed == Ok(next) && input.Valid()
                  && ReadAt(input.source.data, old(input.bytes), length) == Ok(frame[..length]))
            && (v.Fail? ==> input.source.Explains(v.code) || framed == Err(v.code))
    ensures v.Pass? && next.Some? ==> input.bytes == old(input.bytes) + length + 4 && next.value <= FULL_FRAME
  {
    next := None;
    v := input.ReadExact(frame, 0, length);
    if v.Fail? { return; }
    assert frame[0..length] == frame[..length];
    var following := input.ReadLength();
    if following.Err? { return Fail(following.code), next; }
    next := following.value;
    if next.Some? && length != FULL_FRAME { return Fail(MalformedObject), next; }
  }

  /** One iteration of the frame loop; `got` is what the sink received. */
  method RunFrame(a: Aead, prefix: NoncePrefix, input: CheckedSource, decoder: BoundedDecoder, sink: ByteSink,
                  frame: array<byte>, length: nat, index: nat)
    returns (v: Verdict, next: Option<nat>, ghost got: seq<byte>)
    requires input.Valid() && decoder.Valid()
    requires length <= FULL_FRAME == frame.Length
    modifies input, input.source, decoder, sink, frame
    ensures sink.bytes == old(sink.bytes) + got
    ensures old(input.bytes) <= |input.source.data|
    ensures var s := OneFrame(a, Feed(decoder.z), prefix, input.source.data, old(input.bytes), length, index,
                              old(decoder.View()));
            && got <= s.pushed.emitted
            && (v.Pass? ==>
                  && s.pushed.verdict.Pass? && got == s.pushed.emitted
                  && decoder.Valid() && decoder.View() == s.pushed.dec && input.Valid()
                  && if next.None? then s.Halt? else s.Onward? && s.length == next.value)
            && (v.Fail? ==>
                  || input.source.Explains(v.code) || sink.Blamed(v.code)
                  || (s.Halt? && s.pushed.verdict == v))
            && (input.source.Clean() && sink.reliable ==> got == s.pushed.emitted)
    ensures v.Pass? && next.Some? ==> input.bytes == old(input.bytes) + length + 4 && next.value <= FULL_FRAME
  {
    got := [];
    v, next := ReadFrame(input, frame, length);
    if v.Fail? { return; }
    var block := a.decrypt(prefix, index, next.None?, frame[..length]);
    if block.None? { return Fail(AuthenticationFailed), next, got; }
    v := input.CheckCancelled();
    if v.Fail? { return; }
    v, got := decoder.PushBytes(block.value, sink, input.source);
  }

  /** The fixed header at the start of the data. */
  method ReadHeader(input: CheckedSource) returns (r: Result<NoncePrefix>)
    requires input.Valid() && input.bytes == 0
    modifies input, input.source
    ensures var header := ReadAt(input.source.data, 0, HEADER_BYTES);
            && (r.Ok? ==> header.Ok? && ParseHeader(header.value) == r && input.Valid() && input.bytes == HEADER_BYTES)
            && (r.Err? ==>
                  || input.source.Explains(r.code)
                  || r == if header.Err? then Err(header.code) else ParseHeader(header.value))
  {
    var header := new byte[HEADER_BYTES](_ => 0);
    var v := input.ReadExact(header, 0, HEADER_BYTES);
    if v.Fail? { return Err(v.code); }
    assert header[0..HEADER_BYTES] == header[..];
    r := ParseHeader(header[..]);
  }

  method AuthenticateEnvelope(a: Aead, input: CheckedSource, decoder: BoundedDecoder, sink: ByteSink)
    returns (v: Verdict, ghost got: seq<byte>)
    requires input.Valid() && input.bytes == 0
    requires decoder.Valid() && decoder.View() == Fresh(decoder.z)
    modifies input, input.source, decoder, sink
    ensures sink.bytes == old(sink.bytes) + got
    ensures var r := Authenticate(a, Feed(decoder.z), Fresh(decoder.z), input.source.data);
            && got <= r.emitted
            && (v.Pass? ==> r.verdict.Pass? && got == r.emitted && decoder.View() == r.dec)
            && (v.Fail? ==> input.source.Explains(v.code) || sink.Blamed(v.code) || v == r.verdict)
            && (input.source.Clean() && sink.reliable ==> got == r.emitted)
  {
    got := [];
    var parsed := ReadHeader(input);
    if parsed.Err? { return Fail(parsed.code), got; }
    var prefix := parsed.value;
    var first := input.ReadLength();
    if first.Err? { return Fail(first.code), got; }
    if first.value.None? { return Fail(MalformedObject), got; }
    v, got := AuthenticateFrames(a, prefix, input, decoder, sink, first.value.value);
  }

  method AuthenticateFrames(a: Aead, prefix: NoncePrefix, input: CheckedSource, decoder: BoundedDecoder,
                            sink: ByteSink, first: nat)
    returns (v: Verdict, ghost got: seq<byte>)
    requires input.Valid() && decoder.Valid() && first <= FULL_FRAME
    modifies input, input.source, decoder, sink
    ensures sink.bytes == old(sink.bytes) + got
    ensures old(input.bytes) <= |input.source.data|
    ensures var r := OpenFrames(a, Feed(decoder.z), prefix, input.source.data, old(input.bytes), first, 0,
                                old(decoder.View()));
            && got <= r.emitted
            && (v.Pass? ==> r.verdict.Pass? && got == r.emitted && decoder.View() == r.dec)
            && (v.Fail? ==> input.source.Explains(v.code) || sink.Blamed(v.code) || v == r.verdict)
            && (input.source.Clean() && sink.reliable ==> got == r.emitted)
  {
    ghost var data, k := input.source.data, Feed(decoder.z);
    ghost var whole := OpenFrames(a, k, prefix, data, input.bytes, first, 0, decoder.View());
    got := [];
    v := Pass;
    var frame := new byte[FULL_FRAME](_ => 0);
    var length: nat, index: nat, more := first, 0, true;
    while more
      invariant input.Valid() && decoder.Valid() && length <= FULL_FRAME && v.Pass?
      invariant sink.bytes == old(sink.bytes) + got
      invariant more ==> FramesRemain(a, k, prefix, data, input.bytes, length, index, decoder.View(), got, whole)
      invariant !more ==> whole == Pushed(decoder.View(), got, Pass)
      decreases more, |data| - input.bytes
    {
      ghost var s := OneFrame(a, k, prefix, data, input.bytes, length, index, decoder.View());
      FrameAdvances(a, k, prefix, data, input.bytes, length, index, decoder.View(), got, whole);
      var next;
      ghost var step;
      v, next, step := RunFrame(a, prefix, input, decoder, sink, frame, length, index);
      PrefixShorter(got, step, s.pushed.emitted, whole.emitted);
      Associates(old(sink.bytes), got, step);
      got := got + step;
      if v.Fail? { return; }
      index := index + 1;
      if next.None? {
        more := false;
      } else {
        length := next.value;
      }
    }
  }

  /** Against any source, sink and caller: the sink receives a prefix of what opening the source's bytes
      emits, and success means that opening those bytes succeeds with all of it delivered. An error is the source's, the
      sink's or the caller's own, or the one that the byte string alone determines, however it was split into reads. */
  method OpenObject(a: Aead, z: Zstd, source: ByteSource, sink: ByteSink) returns (v: Verdict, ghost got: seq<byte>)
    requires z.Bounded()
    requires source.Valid() && source.pos == 0 && !source.ended
    modifies source, sink
    ensures sink.bytes == old(sink.bytes) + got
    ensures var o := Open(a, z, source.data);
            && got <= o.emitted
            && (v.Pass? ==> o.verdict.Pass? && got == o.emitted)
            && (v.Fail? ==> source.Explains(v.code) || sink.Blamed(v.code) || v == o.verdict)
            && (source.Clean() && sink.reliable ==> v == o.verdict && got == o.emitted)
  {
    got := [];
    var input := new CheckedSource(source);
    v := input.CheckCancelled();
    if v.Fail? { return; }
    var decoder := new BoundedDecoder(z);
    v, got := AuthenticateEnvelope(a, input, decoder, sink);
    if v.Fail? { return; }
    v := input.CheckCancelled();
    if v.Fail? { return; }
    v := decoder.Finish();
  }
}
