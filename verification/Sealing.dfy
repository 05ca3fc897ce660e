/** `BackupObjectWriterV1` and `seal_object_v1` of crates/kchat-backup/src/object/writer.rs. */
module Sealing {
  import opened Common
  import opened Envelope
  import opened Io
  import opened Writer

  /** The Zstd stream encoder as seen from below: which writes reach the envelope after each
      chunk, given the chunks before it, and which ones closing the frame adds. */
  datatype Encoder = Encoder(
    feed: (seq<seq<byte>>, seq<byte>) -> seq<seq<byte>>,
    close: seq<seq<byte>> -> seq<seq<byte>>)
  {
    /** Compressed bytes issued while the chunks were fed. */
    function Emitted(chunks: seq<seq<byte>>): seq<byte> {
      if chunks == [] then [] else
      var past := chunks[..|chunks| - 1];
      Emitted(past) + Flatten(feed(past, chunks[|chunks| - 1]))
    }

    /** The whole compressed frame for the chunks. */
    function Compressed(chunks: seq<seq<byte>>): seq<byte> {
      Emitted(chunks) + Flatten(close(chunks))
    }

    lemma EmittedSnoc(chunks: seq<seq<byte>>, chunk: seq<byte>)
      ensures Emitted(chunks + [chunk]) == Emitted(chunks) + Flatten(feed(chunks, chunk))
    {
      assert (chunks + [chunk])[..|chunks + [chunk]| - 1] == chunks;
    }
  }

  datatype Terminal = Active | Finished | Aborted | Failed

  /** Too much plaintext, or more full blocks of compressed bytes than the ciphertext cap allows. */
  predicate Overflows(encoder: Encoder, chunks: seq<seq<byte>>) {
    |Flatten(chunks)| > MAX_PLAINTEXT || OpeningSize(|encoder.Emitted(chunks)|) > MAX_CIPHERTEXT
  }

  /** The session of a stream of which only the first `n` blocks have been sealed. */
  lemma SealedPart(stream: seq<byte>, n: nat, longer: seq<byte>) returns (session: Session)
    requires Offset(n) <= |stream| && stream <= longer
    ensures session.Calls() == NextCalls(stream, n) && !session.finished && session.stream <= longer
    ensures OpeningSize(|stream|) <= OpeningSize(|longer|)
  {
    OpeningSizeMonotone(|stream|, |longer|);
    NextCallsAreASession(stream, n);
    session := Session(stream[..Offset(n)], false);
  }

  /** Sends the encoder's writes down in order, stopping at the first failure, whose remembered
      code becomes the error (`take_failure`); `session` is what has been sealed by then. */
  method Forward(envelope: EnvelopeWriter, writes: seq<seq<byte>>) returns (r: Result<()>, ghost session: Session)
    requires envelope.Valid()
    modifies envelope, envelope.sink
    ensures r.Ok? ==> envelope.Valid() && envelope.stream == old(envelope.stream) + Flatten(writes)
    ensures r.Err? ==>
              || envelope.sink.Blamed(r.code)
              || (r.code == ResourceLimitExceeded &&
                  OpeningSize(|old(envelope.stream) + Flatten(writes)|) > MAX_CIPHERTEXT)
    ensures envelope.calls == session.Calls() && !session.finished
    ensures session.stream <= old(envelope.stream) + Flatten(writes)
    ensures r.Ok? ==> session.stream == envelope.stream
    ensures old(envelope.sink.bytes) <= envelope.sink.bytes
  {
    var i := 0;
    assert writes[..0] == [];
    while i < |writes|
      invariant 0 <= i <= |writes|
      invariant envelope.Valid()
      invariant envelope.stream == old(envelope.stream) + Flatten(writes[..i])
      invariant old(envelope.sink.bytes) <= envelope.sink.bytes
    {
      FlattenStep(old(envelope.stream), writes, i);
      ghost var all := envelope.stream + writes[i];
      r := envelope.Write(writes[i]);
      if r.Err? {
        session := SealedPart(all, envelope.position, old(envelope.stream) + Flatten(writes));
        return Err(if envelope.failure.Some? then envelope.failure.value else IoError), session;
      }
      i := i + 1;
    }
    assert writes[..i] == writes;
    r, session := Ok(()), Session(envelope.stream, false);
  }

  /** The encoder's last writes, then the final block; `session` is what has been sealed by then. */
  method Close(envelope: EnvelopeWriter, writes: seq<seq<byte>>) returns (r: Result<Descriptor>, ghost session: Session)
    requires envelope.Valid()
    modifies envelope, envelope.sink
    ensures envelope.aead.Sized()
    ensures r.Ok? ==>
              var whole := Sealed(envelope.aead, envelope.prefix, old(envelope.stream) + Flatten(writes));
              && envelope.sink.bytes == envelope.base + whole
              && r.value == Descriptor(|whole|, envelope.sha(whole), VERSION)
    ensures r.Ok? ==> SealedSize(|old(envelope.stream) + Flatten(writes)|) <= MAX_CIPHERTEXT
    ensures r.Err? ==>
              || envelope.sink.Blamed(r.code)
              || (r.code == ResourceLimitExceeded &&
                  SealedSize(|old(envelope.stream) + Flatten(writes)|) > MAX_CIPHERTEXT)
    ensures envelope.calls == session.Calls() && session.stream <= old(envelope.stream) + Flatten(writes)
    ensures r.Ok? ==> session.finished
    ensures session.finished ==> session.stream == old(envelope.stream) + Flatten(writes)
    ensures old(envelope.sink.bytes) <= envelope.sink.bytes
  {
    ghost var all := envelope.stream + Flatten(writes);
    var w;
    w, session := Forward(envelope, writes);
    if w.Err? {
      SealedExceedsOpening(|all|);
      return Err(w.code), session;
    }
    session := Session(all, true);
    r := envelope.Finish();
  }

  class BackupObjectWriter {
    const aead: Aead
    const prefix: NoncePrefix
    const sha: seq<byte> -> seq<byte>
    const encoder: Encoder
    const sink: ByteSink
    /** What the sink held before this object. */
    ghost const base: seq<byte>
    /** `None` once the inner writer has been taken. */
    var active: EnvelopeWriter?
    var terminal: Terminal
    var plaintextBytes: nat
    /** The chunks the encoder has accepted. */
    var fed: seq<seq<byte>>
    /** The inner writer, taken or not, and what it has sealed so far. */
    ghost const inner: EnvelopeWriter
    ghost var session: Session

    ghost function Repr(): set<object> {
      {this, sink, inner}
    }

    /** The inner writer works for this one, and its calls are the session's. */
    ghost predicate Tied()
      reads this, inner
    {
      && aead.Sized()
      && inner.sink == sink && inner.aead == aead && inner.prefix == prefix && inner.sha == sha && inner.base == base
      && inner.calls == session.Calls()
    }

    ghost predicate Valid()
      reads this, sink, inner
    {
      && Tied()
      && active == (if terminal == Active then inner else null)
      && (terminal == Active ==>
            && inner.Valid()
            && inner.stream == session.stream == encoder.Emitted(fed) && !session.finished
            && plaintextBytes == |Flatten(fed)| <= MAX_PLAINTEXT)
    }

    constructor (envelope: EnvelopeWriter, encoder: Encoder)
      requires envelope.Valid() && envelope.stream == [] && envelope.calls == []
      ensures aead == envelope.aead && prefix == envelope.prefix && sha == envelope.sha
      ensures sink == envelope.sink && base == envelope.base && this.encoder == encoder
      ensures Valid() && terminal == Active && fed == [] && inner == envelope
    {
      aead, prefix, sha := envelope.aead, envelope.prefix, envelope.sha;
      sink, base := envelope.sink, envelope.base;
      this.encoder := encoder;
      active, terminal, plaintextBytes, fed := envelope, Active, 0, [];
      inner, session := envelope, Session([], false);
    }

    /** The encoder takes a chunk, and its writes go down. */
    method WriteAll(bytes: seq<byte>) returns (r: Result<()>)
      requires Tied() && active == inner && inner.Valid() && inner.stream == encoder.Emitted(fed)
      modifies this`fed, this`session, inner, sink
      ensures fed == old(fed) + [bytes]
      ensures Tied() && !session.finished && session.stream <= encoder.Emitted(fed)
      ensures r.Ok? ==> inner.Valid() && inner.stream == session.stream == encoder.Emitted(fed)
      ensures r.Err? ==>
                || sink.Blamed(r.code)
                || (r.code == ResourceLimitExceeded && OpeningSize(|encoder.Emitted(fed)|) > MAX_CIPHERTEXT)
      ensures old(sink.bytes) <= sink.bytes
    {
      encoder.EmittedSnoc(fed, bytes);
      r, session := Forward(active, encoder.feed(fed, bytes));
      fed := fed + [bytes];
    }

    method WritePlaintext(bytes: seq<byte>) returns (r: Result<()>)
      requires Valid()
      modifies Repr()
      ensures Valid()
      ensures old(terminal) != Active ==>
                r == Err(InvalidState) && unchanged(this) && sink.bytes == old(sink.bytes)
      ensures old(terminal) == Active ==>
                && (r.Ok? ==> terminal == Active && fed == old(fed) + [bytes])
                && (r.Err? ==> terminal == Failed)
      ensures old(terminal) == Active && r.Ok? ==> |Flatten(old(fed))| + |bytes| <= MAX_PLAINTEXT
      ensures old(terminal) == Active && r.Err? ==>
                || sink.Blamed(r.code)
                || (r.code == ResourceLimitExceeded && Overflows(encoder, old(fed) + [bytes]))
      ensures old(terminal) == Active ==> !session.finished && session.stream <= encoder.Emitted(old(fed) + [bytes])
      ensures old(sink.bytes) <= sink.bytes
    {
      if terminal != Active {
        return Err(InvalidState);
      }
      encoder.EmittedSnoc(fed, bytes);
      FlattenSnoc(fed, bytes);
      match CheckedAddLimited(plaintextBytes, |bytes|, MAX_PLAINTEXT) {
        case Err(e) => r := Err(e);
        case Ok(total) =>
          plaintextBytes := total;
          r := WriteAll(bytes);
      }
      if r.Err? {
        Retire();
      }
    }

    /** The inner writer is given up. */
    method Retire()
      requires Tied()
      modifies this`active, this`terminal
      ensures Valid() && terminal == Failed
    {
      active := null;
      terminal := Failed;
    }

    /** A descriptor comes out only with the whole object in the sink, and describes exactly that. */
    method Finish() returns (r: Result<Descriptor>)
      requires Valid()
      modifies Repr()
      ensures Valid() && fed == old(fed) && active == null
      ensures old(terminal) != Active ==>
                r == Err(InvalidState) && unchanged(this) && sink.bytes == old(sink.bytes)
      ensures old(terminal) == Active ==> terminal == if r.Ok? then Finished else Failed
      ensures r.Ok? ==> Describes(r.value, old(fed))
      ensures r.Ok? ==> SealedSize(|encoder.Compressed(fed)|) <= MAX_CIPHERTEXT
      ensures old(terminal) == Active && r.Err? ==>
                || sink.Blamed(r.code)
                || (r.code == ResourceLimitExceeded && SealedSize(|encoder.Compressed(fed)|) > MAX_CIPHERTEXT)
      ensures old(terminal) == Active ==> Seals(fed) && (r.Ok? ==> session.finished)
      ensures old(sink.bytes) <= sink.bytes
    {
      if terminal != Active {
        return Err(InvalidState);
      }
      var envelope := active;
      active := null;
      r, session := Close(envelope, encoder.close(fed));
      terminal := if r.Ok? then Finished else Failed;
    }

    /** The sink holds the sealed object for the chunks, and `d` gives its size and hash. */
    ghost predicate Describes(d: Descriptor, chunks: seq<seq<byte>>)
      requires aead.Sized()
      reads this, sink
    {
      var whole := Sealed(aead, prefix, encoder.Compressed(chunks));
      sink.bytes == base + whole && d == Descriptor(|whole|, sha(whole), VERSION)
    }

    /** If this reply has a descriptor, the chunks' sealed object is in the sink and described, and is what was
        sealed. */
    ghost predicate EndsWith(reply: Reply, chunks: seq<seq<byte>>)
      requires aead.Sized()
      reads this, sink
    {
      reply.HasDescriptor() ==>
        Describes(reply.d.value, chunks) && session == Session(encoder.Compressed(chunks), true)
    }

    /** What is sealed is a beginning of the chunks' frame; with a final block, all of it. */
    ghost predicate Seals(chunks: seq<seq<byte>>)
      reads this
    {
      && session.stream <= encoder.Compressed(chunks)
      && (session.finished ==> session.stream == encoder.Compressed(chunks))
    }

    method Abort() returns (r: Result<()>)
      requires Valid()
      modifies this
      ensures Valid() && fed == old(fed) && active == null && session == old(session)
      ensures old(terminal) != Active ==> r == Err(InvalidState) && unchanged(this)
      ensures old(terminal) == Active ==> r == Ok(()) && terminal == Aborted
    {
      if terminal != Active {
        return Err(InvalidState);
      }
      active := null;
      terminal := Aborted;
      r := Ok(());
    }
  }

  lemma FlattenStep(start: seq<byte>, writes: seq<seq<byte>>, i: nat)
    requires i < |writes|
    ensures start + Flatten(writes[..i]) + writes[i] == start + Flatten(writes[..i + 1])
    ensures start + Flatten(writes[..i]) + writes[i] <= start + Flatten(writes)
  {
    var done, some, rest := Flatten(writes[..i]), Flatten(writes[..i + 1]), Flatten(writes[i + 1..]);
    assert some == done + writes[i] by {
      assert writes[..i + 1][..i] == writes[..i];
    }
    FlattenSplit(writes, i + 1);
    Associates(start, done, writes[i]);
    Associates(start, some, rest);
  }

  lemma OpeningSizeMonotone(c: nat, d: nat)
    requires c <= d
    ensures OpeningSize(c) <= OpeningSize(d)
  {
    assert c / 65536 <= d / 65536;
  }

  lemma SealedExceedsOpening(c: nat)
    ensures SealedSize(c) > OpeningSize(c)
  {
    assert c >= c / 65536 * 65536;
  }

  // ---------------------------------------------------------------- whole runs

  datatype Op = Write(bytes: seq<byte>) | Finish | Abort

  datatype Reply = Wrote(w: Result<()>) | Done(d: Result<Descriptor>) | Stopped(s: Result<()>)
  {
    predicate Refused() {
      match this
      case Wrote(w) => w == Err(InvalidState)
      case Done(d) => d == Err(InvalidState)
      case Stopped(s) => s == Err(InvalidState)
    }

    predicate Accepted() {
      Wrote? && w.Ok?
    }

    predicate HasDescriptor() {
      Done? && d.Ok?
    }
  }

  /** The chunks written by a script. */
  function Chunks(script: seq<Op>): seq<seq<byte>> {
    if script == [] then [] else
    var op := script[|script| - 1];
    Chunks(script[..|script| - 1]) + if op.Write? then [op.bytes] else []
  }

  lemma ChunksSnoc(script: seq<Op>, i: nat)
    requires i < |script|
    ensures Chunks(script[..i + 1]) ==
            if script[i].Write? then Chunks(script[..i]) + [script[i].bytes] else Chunks(script[..i])
  {
    assert script[..i + 1][..i] == script[..i];
  }

  /** One call. */
  method Step(w: BackupObjectWriter, op: Op) returns (reply: Reply)
    requires w.Valid()
    modifies w.Repr()
    ensures w.Valid()
    ensures old(w.terminal) != Active ==>
              && w.terminal == old(w.terminal) && w.sink.bytes == old(w.sink.bytes)
              && reply.Refused() && !reply.HasDescriptor()
    ensures old(w.terminal) == Active ==> (w.terminal == Active <==> reply.Accepted())
    ensures w.terminal == Active ==> op.Write? && w.fed == old(w.fed) + [op.bytes]
    ensures w.EndsWith(reply, old(w.fed))
    ensures old(w.terminal) != Active ==> w.session == old(w.session)
    ensures old(w.terminal) == Active ==> w.Seals(if op.Write? then old(w.fed) + [op.bytes] else old(w.fed))
    ensures w.session.finished && w.session != old(w.session) ==> op.Finish?
    ensures old(w.sink.bytes) <= w.sink.bytes
  {
    match op {
      case Write(bytes) =>
        var r := w.WritePlaintext(bytes);
        reply := Wrote(r);
      case Finish =>
        var d := w.Finish();
        reply := Done(d);
      case Abort =>
        var s := w.Abort();
        reply := Stopped(s);
    }
  }

  /** Any script of calls against any sink: after the first reply that is not a successful write every
      call is refused and writes nothing; so at most one descriptor is ever returned, and it describes
      exactly what the sink then (and forever after) holds: the sealed object for the chunks written. However it ends,
      the encryptor has been called exactly for the blocks of one session, a beginning of the frame for the chunks
      of the first `reached` calls, and for the whole of that frame once the final block is sealed. */
  method Drive(w: BackupObjectWriter, script: seq<Op>) returns (replies: seq<Reply>, ghost reached: nat)
    requires w.Valid() && w.terminal == Active && w.fed == []
    modifies w.Repr()
    ensures |replies| == |script|
    ensures forall i, j :: 0 <= i < j < |script| && !replies[i].Accepted() ==> replies[j].Refused()
    ensures w.Valid() && forall i :: 0 <= i < |script| ==> w.EndsWith(replies[i], Chunks(script[..i]))
    ensures w.inner.calls == w.session.Calls() && reached <= |script| && w.Seals(Chunks(script[..reached]))
    ensures w.session.finished ==> reached < |script| && script[reached].Finish?
    ensures old(w.sink.bytes) <= w.sink.bytes
  {
    var accepted, last;
    ghost var chunks;
    accepted, last, reached, chunks := DriveActive(w, script);
    replies := accepted + last;
    var more := DriveOn(w, script[|replies|..]);
    replies := replies + more;
  }

  /** The calls up to and including the first that is not an accepted write: the `accepted` ones, which wrote
      `chunks`, and the `last` reply, if there is one. */
  method DriveActive(w: BackupObjectWriter, script: seq<Op>)
    returns (accepted: seq<Reply>, last: seq<Reply>, ghost reached: nat, ghost chunks: seq<seq<byte>>)
    requires w.Valid() && w.terminal == Active && w.fed == []
    modifies w.Repr()
    ensures w.Valid() && |accepted| + |last| <= |script| && chunks == Chunks(script[..|accepted|])
    ensures forall i :: 0 <= i < |accepted| ==> accepted[i].Accepted()
    ensures w.terminal == Active ==> last == [] && |accepted| == |script|
    ensures w.terminal != Active ==> |last| == 1 && !last[0].Accepted() && w.EndsWith(last[0], chunks)
    ensures reached <= |script| && w.Seals(Chunks(script[..reached]))
    ensures w.session.finished ==> reached == |accepted| < |script| && script[reached].Finish?
    ensures old(w.sink.bytes) <= w.sink.bytes
  {
    accepted, last, reached, chunks := [], [], 0, [];
    assert script[..0] == [];
    for i := 0 to |script|
      invariant w.Valid() && w.terminal == Active && last == []
      invariant |accepted| == i && forall k :: 0 <= k < i ==> accepted[k].Accepted()
      invariant chunks == w.fed == Chunks(script[..i]) && reached == i
      invariant old(w.sink.bytes) <= w.sink.bytes
    {
      var reply;
      reply, reached := StepActive(w, script, i);
      if !reply.Accepted() {
        last := [reply];
        return;
      }
      accepted, chunks := accepted + [reply], w.fed;
    }
  }

  /** Call number `i` of a script, as long as the writer is active. */
  method StepActive(w: BackupObjectWriter, script: seq<Op>, i: nat) returns (reply: Reply, ghost reached: nat)
    requires i < |script| && w.Valid() && w.terminal == Active && w.fed == Chunks(script[..i])
    modifies w.Repr()
    ensures w.Valid() && (w.terminal == Active <==> reply.Accepted())
    ensures reply.Accepted() ==> w.fed == Chunks(script[..i + 1]) && reached == i + 1
    ensures w.EndsWith(reply, Chunks(script[..i]))
    ensures reached <= |script| && w.Seals(Chunks(script[..reached]))
    ensures w.session.finished ==> reached == i && script[i].Finish?
    ensures old(w.sink.bytes) <= w.sink.bytes
  {
    ChunksSnoc(script, i);
    reached := if script[i].Write? then i + 1 else i;
    reply := Step(w, script[i]);
  }

  /** Every call of a terminal writer is refused and writes nothing. */
  method DriveOn(w: BackupObjectWriter, script: seq<Op>) returns (replies: seq<Reply>)
    requires w.Valid() && (w.terminal == Active ==> script == [])
    modifies w.Repr()
    ensures w.Valid() && w.session == old(w.session) && w.sink.bytes == old(w.sink.bytes)
    ensures |replies| == |script|
    ensures forall i :: 0 <= i < |script| ==> replies[i].Refused() && !replies[i].HasDescriptor()
  {
    replies := [];
    while |replies| < |script|
      invariant w.Valid() && w.terminal == old(w.terminal)
      invariant w.session == old(w.session) && w.sink.bytes == old(w.sink.bytes)
      invariant |replies| <= |script|
      invariant forall i :: 0 <= i < |replies| ==> replies[i].Refused() && !replies[i].HasDescriptor()
    {
      var reply := Step(w, script[|replies|]);
      replies := replies + [reply];
    }
  }

  // ---------------------------------------------------------------- seal_object_v1

  /** One way of reading the data, in non-empty pieces. */
  ghost predicate Reading(chunks: seq<seq<byte>>, data: seq<byte>) {
    Flatten(chunks) == data && NonEmpty(chunks)
  }

  ghost predicate NonEmpty(chunks: seq<seq<byte>>) {
    forall i :: 0 <= i < |chunks| ==> chunks[i] != []
  }

  /** The caps allow the plaintext and the whole sealed object of these chunks. */
  predicate Fits(encoder: Encoder, chunks: seq<seq<byte>>) {
    |Flatten(chunks)| <= MAX_PLAINTEXT && SealedSize(|encoder.Compressed(chunks)|) <= MAX_CIPHERTEXT
  }

  /** However the rest of the data had been read, its object would not have fitted. */
  ghost predicate TooLarge(encoder: Encoder, chunks: seq<seq<byte>>, data: seq<byte>) {
    forall all :: chunks <= all && Reading(all, data) ==> !Fits(encoder, all)
  }

  lemma OverflowIsTooLarge(encoder: Encoder, chunks: seq<seq<byte>>, data: seq<byte>)
    requires Overflows(encoder, chunks)
    ensures TooLarge(encoder, chunks, data)
  {
    forall all | chunks <= all && Reading(all, data)
      ensures !Fits(encoder, all)
    {
      MoreIsLarger(encoder, chunks, all);
      OpeningSizeMonotone(|encoder.Emitted(chunks)|, |encoder.Compressed(all)|);
      SealedExceedsOpening(|encoder.Compressed(all)|);
    }
  }

  lemma FailureIsTooLarge(encoder: Encoder, chunks: seq<seq<byte>>, data: seq<byte>)
    requires Overflows(encoder, chunks) || (Reading(chunks, data) && !Fits(encoder, chunks))
    ensures TooLarge(encoder, chunks, data)
  {
    if Overflows(encoder, chunks) {
      OverflowIsTooLarge(encoder, chunks, data);
    } else {
      MisfitIsTooLarge(encoder, chunks, data);
    }
  }

  lemma {:induction false} MoreIsLarger(encoder: Encoder, chunks: seq<seq<byte>>, all: seq<seq<byte>>)
    requires chunks <= all
    ensures |Flatten(chunks)| <= |Flatten(all)| && |encoder.Emitted(chunks)| <= |encoder.Emitted(all)|
    decreases |all|
  {
    if chunks != all {
      MoreIsLarger(encoder, chunks, all[..|all| - 1]);
    }
  }

  /** Once all data has been read there is nothing else to read it as. */
  lemma MisfitIsTooLarge(encoder: Encoder, chunks: seq<seq<byte>>, data: seq<byte>)
    requires Reading(chunks, data) && !Fits(encoder, chunks)
    ensures TooLarge(encoder, chunks, data)
  {
    forall all | chunks <= all && Reading(all, data)
      ensures all == chunks
    {
      if |chunks| < |all| {
        MoreIsLarger(encoder, chunks, all[..|all| - 1]);
        assert false;
      }
    }
  }

  /** The source's next chunk, or end of file. */
  method NextChunk(source: ByteSource, buffer: array<byte>) returns (r: Result<seq<byte>>)
    requires source.Valid() && !source.ended
    requires buffer.Length == MAX_IO_CHUNK
    modifies source, buffer
    ensures source.Valid()
    ensures r.Err? ==> source.Blamed(r.code)
    ensures r.Ok? ==>
              && source.data[..source.pos] == source.data[..old(source.pos)] + r.value
              && (source.ended <==> r.value == [])
              && (r.value == [] ==> old(source.pos) == |source.data|)
              && old(source.pos) + |r.value| == source.pos
  {
    var count := source.ReadChunk(buffer, 0, buffer.Length);
    if count.Err? { return Err(count.code); }
    if count.value > buffer.Length { return Err(InvalidState); }
    assert source.data[..source.pos] == source.data[..old(source.pos)] + source.data[old(source.pos)..source.pos];
    r := Ok(buffer[..count.value]);
  }

  /** One round of the read loop: `chunk` is what was read, and nothing is left once there is no more. */
  method PumpChunk(writer: BackupObjectWriter, source: ByteSource, buffer: array<byte>)
    returns (r: Result<bool>, ghost chunk: seq<byte>)
    requires writer.Valid() && writer.terminal == Active
    requires source.Valid() && !source.ended && buffer.Length == MAX_IO_CHUNK
    modifies writer.Repr(), source, buffer
    ensures writer.Valid() && source.Valid()
    ensures source.data[..old(source.pos)] + chunk <= source.data
    ensures r.Ok? ==> writer.terminal == Active && (r.value <==> chunk != [])
    ensures r.Ok? && r.value ==>
              && writer.fed == old(writer.fed) + [chunk] && !source.ended
              && source.pos > old(source.pos) && source.data[..source.pos] == source.data[..old(source.pos)] + chunk
    ensures r.Ok? && !r.value ==> writer.fed == old(writer.fed) && old(source.pos) == |source.data|
    ensures r.Err? ==>
              || source.Explains(r.code) || writer.sink.Blamed(r.code)
              || (r.code == ResourceLimitExceeded &&
                  chunk != [] && Overflows(writer.encoder, old(writer.fed) + [chunk]))
  {
    chunk := [];
    assert source.data[..source.pos] + [] == source.data[..source.pos];
    var cancelled := source.IsCancelled();
    if cancelled {
      var _ := writer.Abort();
      return Err(Cancelled), chunk;
    }
    var next := NextChunk(source, buffer);
    if next.Err? { return Err(next.code), chunk; }
    if next.value == [] { return Ok(false), chunk; }
    chunk := next.value;
    cancelled := source.IsCancelled();
    if cancelled {
      var _ := writer.Abort();
      return Err(Cancelled), chunk;
    }
    var w := writer.WritePlaintext(next.value);
    r := if w.Ok? then Ok(true) else Err(w.code);
  }

  /** The read loop of `seal_object_v1`. */
  method Pump(writer: BackupObjectWriter, source: ByteSource) returns (r: Result<()>, ghost chunks: seq<seq<byte>>)
    requires writer.Valid() && writer.terminal == Active && writer.fed == []
    requires source.Valid() && source.pos == 0 && !source.ended
    modifies writer.Repr(), source
    ensures writer.Valid()
    ensures Flatten(chunks) <= source.data
    ensures r.Ok? ==> writer.terminal == Active && writer.fed == chunks && Reading(chunks, source.data)
    ensures r.Err? ==>
              || source.Explains(r.code) || writer.sink.Blamed(r.code)
              || (r.code == ResourceLimitExceeded && Overflows(writer.encoder, chunks))
  {
    chunks := [];
    var buffer := new byte[MAX_IO_CHUNK](_ => 0);
    while true
      invariant writer.Valid() && writer.terminal == Active && writer.fed == chunks
      invariant source.Valid() && !source.ended
      invariant Flatten(chunks) == source.data[..source.pos] && NonEmpty(chunks)
      decreases |source.data| - source.pos
    {
      var more;
      ghost var chunk;
      more, chunk := PumpChunk(writer, source, buffer);
      FlattenSnoc(chunks, chunk);
      if chunk != [] {
        chunks := chunks + [chunk];
      }
      if more.Err? { return Err(more.code), chunks; }
      if !more.value { break; }
    }
    r := Ok(());
  }

  /** `chunks` are the pieces the source was read in. On success they make up the whole source, the sink has received
      exactly their sealed object, and it fits the caps. An error is the source's, the sink's or the caller's own, or a
      resource limit, and then no way of reading the rest would have fitted. */
  method SealObject(aead: Aead, prefix: NoncePrefix, sha: seq<byte> -> seq<byte>, encoder: Encoder,
                    source: ByteSource, sink: ByteSink)
    returns (r: Result<Descriptor>, ghost chunks: seq<seq<byte>>)
    requires aead.Sized()
    requires source.Valid() && source.pos == 0 && !source.ended
    modifies source, sink
    ensures Flatten(chunks) <= source.data
    ensures r.Ok? ==>
              var whole := Sealed(aead, prefix, encoder.Compressed(chunks));
              && Reading(chunks, source.data) && Fits(encoder, chunks)
              && sink.bytes == old(sink.bytes) + whole
              && r.value == Descriptor(|whole|, sha(whole), VERSION)
    ensures r.Err? ==>
              || source.Explains(r.code) || sink.Blamed(r.code)
              || (r.code == ResourceLimitExceeded && TooLarge(encoder, chunks, source.data))
  {
    chunks := [];
    var cancelled := source.IsCancelled();
    if cancelled { return Err(Cancelled), chunks; }
    var envelope, header := EnvelopeWriter.New(aead, prefix, sha, sink);
    if header.Err? { return Err(header.code), chunks; }
    var writer := new BackupObjectWriter(envelope, encoder);
    r, chunks := SealWith(writer, source);
    if r.Err? && (Overflows(encoder, chunks) || (Reading(chunks, source.data) && !Fits(encoder, chunks))) {
      FailureIsTooLarge(encoder, chunks, source.data);
    }
  }

  /** The rest of `seal_object_v1`, once the writer is there. */
  method SealWith(writer: BackupObjectWriter, source: ByteSource)
    returns (r: Result<Descriptor>, ghost chunks: seq<seq<byte>>)
    requires writer.Valid() && writer.terminal == Active && writer.fed == []
    requires source.Valid() && source.pos == 0 && !source.ended
    modifies writer.Repr(), source
    ensures writer.Valid() && Flatten(chunks) <= source.data
    ensures r.Ok? ==>
              && Reading(chunks, source.data) && Fits(writer.encoder, chunks) && writer.Describes(r.value, chunks)
    ensures r.Err? ==>
              || source.Explains(r.code) || writer.sink.Blamed(r.code)
              || (r.code == ResourceLimitExceeded &&
                  (Overflows(writer.encoder, chunks) ||
                   (Reading(chunks, source.data) && !Fits(writer.encoder, chunks))))
  {
    var pumped;
    pumped, chunks := Pump(writer, source);
    if pumped.Err? { return Err(pumped.code), chunks; }
    var cancelled := source.IsCancelled();
    if cancelled {
      var _ := writer.Abort();
      return Err(Cancelled), chunks;
    }
    r := writer.Finish();
  }
}
