/** crates/kchat-backup/src/object/reader.rs: the counted source, the frame loop with one length of
    lookahead, and `open_object_v1`. */
module Reader {
  import opened Common
  import opened Envelope
  import opened Io
  import opened Decoder

  // ---------------------------------------------------------------- opening a byte string, as a function

  /** `n` bytes at offset `p`. Over-long input is a resource error as soon as byte 256 MiB + 1 is needed. */
  function ReadAt(data: seq<byte>, p: nat, n: nat): (r: Result<seq<byte>>)
    requires p <= |data|
    ensures r.Ok? ==> |r.value| == n && p + n <= |data|
  {
    if p + n <= |data| && p + n <= MAX_CIPHERTEXT then Ok(data[p..p + n])
    else if |data| > MAX_CIPHERTEXT then Err(ResourceLimitExceeded)
    else Err(MalformedObject)
  }

  /** The next frame length, or `None` at the end of the data. */
  function NextLength(data: seq<byte>, p: nat): (r: Result<Option<nat>>)
    requires p <= |data|
    ensures r.Ok? && r.value.Some? ==> TAG <= r.value.value <= FULL_FRAME && p + 4 <= |data| && p + 4 <= MAX_CIPHERTEXT
  {
    if p == |data| then Ok(None) else
    match ReadAt(data, p, 4)
    case Err(e) => Err(e)
    case Ok(b) => if TAG <= FromBe32(b) <= FULL_FRAME then Ok(Some(FromBe32(b))) else Err(MalformedObject)
  }

  /** One frame: its ciphertext, the length after it, authentication, decoding. `Halt` ends the loop. */
  datatype Step = Halt(pushed: Pushed) | Onward(pushed: Pushed, length: nat)

  function Refuse(d: Dec, e: ErrorCode): Step {
    Halt(Pushed(d, [], Fail(e)))
  }

  function OneFrame(a: Aead, k: Consumer, prefix: NoncePrefix, data: seq<byte>, p: nat, length: nat, index: nat,
                    d: Dec): (s: Step)
    requires p <= |data|
    ensures s.Onward? ==> p + length + 4 <= |data| && s.pushed.verdict.Pass?
  {
    match ReadAt(data, p, length)
    case Err(e) => Refuse(d, e)
    case Ok(ciphertext) =>
      match NextLength(data, p + length)
      case Err(e) => Refuse(d, e)
      case Ok(next) =>
        if next.Some? && length != FULL_FRAME then Refuse(d, MalformedObject) else
        match a.decrypt(prefix, index, next.None?, ciphertext)
        case None => Refuse(d, AuthenticationFailed)
        case Some(block) =>
          var pushed := k(d, block);
          if pushed.verdict.Fail? || next.None? then Halt(pushed) else Onward(pushed, next.value)
  }

  /** The frame loop of `authenticate_envelope`. */
  function OpenFrames(a: Aead, k: Consumer, prefix: NoncePrefix, data: seq<byte>, p: nat, length: nat, index: nat,
                      d: Dec): (r: Pushed)
    requires p <= |data|
    decreases |data| - p
  {
    match OneFrame(a, k, prefix, data, p, length, index, d)
    case Halt(pushed) => pushed
    case Onward(pushed, next) =>
      var rest := OpenFrames(a, k, prefix, data, p + length + 4, next, index + 1, pushed.dec);
      Pushed(rest.dec, pushed.emitted + rest.emitted, rest.verdict)
  }

  function Authenticate(a: Aead, k: Consumer, start: Dec, data: seq<byte>): (r: Pushed) {
    match ReadAt(data, 0, HEADER_BYTES)
    case Err(e) => Pushed(start, [], Fail(e))
    case Ok(header) =>
      match ParseHeader(header)
      case Err(e) => Pushed(start, [], Fail(e))
      case Ok(prefix) =>
        match NextLength(data, HEADER_BYTES)
        case Err(e) => Pushed(start, [], Fail(e))
        case Ok(None) => Pushed(start, [], Fail(MalformedObject))
        case Ok(Some(length)) => OpenFrames(a, k, prefix, data, HEADER_BYTES + 4, length, 0, start)
  }

  datatype Opened = Opened(emitted: seq<byte>, verdict: Verdict)

  /** `open_object_v1` on a byte string: what reaches the sink, and the outcome. */
  ghost function Open(a: Aead, z: Zstd, data: seq<byte>): Opened {
    var r := Authenticate(a, Feed(z), Fresh(z), data);
    Opened(r.emitted,
           if r.verdict.Fail? then r.verdict
           else if r.dec.checked && r.dec.core.complete then Pass
           else Fail(InvalidCompressedData))
  }

  // ---------------------------------------------------------------- the counted source

  class CheckedSource {
    const source: ByteSource
    var bytes: nat
    var eof: bool

    /** Until an error is returned the cap is respected, so the `MAX - bytes + 1` probe cannot underflow,
        and end of file is remembered. */
    ghost predicate Valid()
      reads this, source
    {
      source.Valid() && bytes == source.pos && eof == source.ended && bytes <= MAX_CIPHERTEXT
    }

    constructor (source: ByteSource)
      requires source.Valid() && source.pos == 0 && !source.ended
      ensures this.source == source && Valid() && bytes == 0
    {
      this.source, bytes, eof := source, 0, false;
    }

    method CheckCancelled() returns (v: Verdict)
      ensures v in {Pass, Fail(Cancelled)}
      ensures v.Fail? ==> source.cancellable
    {
      var c := source.IsCancelled();
      v := if c then Fail(Cancelled) else Pass;
    }

    /** One read into `dest[lo..hi]`; zero only at the end of the data. */
    method Read(dest: array<byte>, lo: nat, hi: nat) returns (r: Result<nat>)
      requires Valid() && lo < hi <= dest.Length
      modifies this, source, dest
      ensures r.Ok? ==>
                && Valid() && r.value <= hi - lo && bytes == old(bytes) + r.value
                && dest[lo..lo + r.value] == source.data[old(bytes)..bytes]
                && (r.value == 0 <==> old(bytes) == |source.data|)
      ensures r.Err? ==>
                || source.Explains(r.code)
                || (&& r.code == ResourceLimitExceeded
                    && |source.data| > MAX_CIPHERTEXT && old(bytes) + (hi - lo) > MAX_CIPHERTEXT)
      ensures forall i :: 0 <= i < dest.Length && !(lo <= i < hi) ==> dest[i] == old(dest[i])
    {
      var v := CheckCancelled();
      if v.Fail? { return Err(v.code); }
      if eof { return Ok(0); }
      var remainingWithProbe := MAX_CIPHERTEXT - bytes + 1;
      var capacity := Min(Min(hi - lo, MAX_IO_CHUNK), remainingWithProbe);
      var count := source.ReadChunk(dest, lo, lo + capacity);
      if count.Err? { return count; }
      v := CheckCancelled();
      if v.Fail? { return Err(v.code); }
      if count.value > capacity { return Err(InvalidState); }
      bytes := bytes + count.value;
      if bytes > MAX_CIPHERTEXT { return Err(ResourceLimitExceeded); }
      eof := count.value == 0;
      r := count;
    }

    /** Fills `dest[lo..hi]` completely, however short the reads. */
    method ReadExact(dest: array<byte>, lo: nat, hi: nat) returns (v: Verdict)
      requires Valid() && lo <= hi <= dest.Length
      modifies this, source, dest
      ensures old(bytes) <= |source.data|
      ensures v.Pass? ==>
                && Valid() && bytes == old(bytes) + (hi - lo)
                && ReadAt(source.data, old(bytes), hi - lo) == Ok(dest[lo..hi])
      ensures v.Fail? ==> source.Explains(v.code) || ReadAt(source.data, old(bytes), hi - lo) == Err(v.code)
      ensures forall i :: 0 <= i < dest.Length && !(lo <= i < hi) ==> dest[i] == old(dest[i])
    {
      var at := lo;
      while at < hi
        invariant lo <= at <= hi && Valid() && bytes == old(bytes) + (at - lo)
        invariant dest[lo..at] == source.data[old(bytes)..bytes]
        invariant forall i :: 0 <= i < dest.Length && !(lo <= i < hi) ==> dest[i] == old(dest[i])
      {
        ghost var before, done := bytes, dest[lo..at];
        var count := Read(dest, at, hi);
        if count.Err? { return Fail(count.code); }
        if count.value == 0 { return Fail(MalformedObject); }
        ghost var end := at + count.value;
        assert dest[lo..at] == done;
        assert dest[lo..end] == dest[lo..at] + dest[at..end];
        assert source.data[old(bytes)..bytes] == source.data[old(bytes)..before] + source.data[before..bytes];
        at := at + count.value;
      }
      v := Pass;
    }

    /** A length prefix, or `None` when the data ends cleanly here. */
    method ReadLength() returns (r: Result<Option<nat>>)
      requires Valid()
      modifies this, source
      ensures old(bytes) <= |source.data|
      ensures r.Ok? ==>
                && Valid() && NextLength(source.data, old(bytes)) == r
                && bytes == old(bytes) + if r.value.Some? then 4 else 0
      ensures r.Err? ==> source.Explains(r.code) || NextLength(source.data, old(bytes)) == r
    {
      var length := new byte[4](_ => 0);
      var first := Read(length, 0, 1);
      if first.Err? { return Err(first.code); }
      if first.value == 0 { return Ok(None); }
      ghost var b0 := length[0];
      assert length[0..1] == [b0];
      var v := ReadExact(length, 1, 4);
      LengthBytes(source.data, old(bytes), length[0]);
      if v.Fail? { return Err(v.code); }
      assert length[..] == [length[0]] + length[1..4];
      var n := FromBe32(length[..]);
      if !(TAG <= n <= FULL_FRAME) { return Err(MalformedObject); }
      r := Ok(Some(n));
    }
  }

  /** Reading one byte and then three is reading four. */
  lemma LengthBytes(data: seq<byte>, p: nat, first: byte)
    requires p < |data| && p + 1 <= MAX_CIPHERTEXT && data[p] == first
    ensures ReadAt(data, p, 4) == match ReadAt(data, p + 1, 3)
                                  case Ok(b) => Ok([first] + b)
                                  case Err(e) => Err(e)
  {
    if p + 4 <= |data| {
      assert data[p..p + 4] == [data[p]] + data[p + 1..p + 4];
    }
  }
}
