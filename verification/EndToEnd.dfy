/** Writing and opening one after the other: with the documented contracts of cipher and codec, and against tampering
    with the ideal cipher that honours exactly what the writer sealed. */
module EndToEnd {
  import opened Common
  import opened Envelope
  import opened ZstdHeader
  import opened Io
  import opened Decoder
  import opened DecoderLaws
  import opened Reader
  import opened Writer
  import opened Sealing
  import opened Opening
  import opened ObjectTheorems
  import opened Integrity

  /** However it is fed, the encoder produces one frame of the format whose content is what it was fed,
      with a header inside the reader's limits. */
  ghost predicate Encodes(encoder: Encoder, f: Format) {
    forall chunks: seq<seq<byte>> ::
      && f.plain(encoder.Compressed(chunks)) == Some(Flatten(chunks))
      && ScanHeader(encoder.Compressed(chunks)).Accept?
  }

  lemma CorrectDecrypts(a: Aead, prefix: NoncePrefix, stream: seq<byte>)
    requires a.Correct()
    ensures Decrypts(a, prefix, stream)
  {
  }

  /** For every plaintext source the writer accepts, in whatever pieces it is read, and whatever short reads
      the stored object is read back with: opening succeeds and yields exactly that plaintext. The
      writer refuses only what no way of reading the rest of the source would have made fit its caps. */
  method SealThenOpen(a: Aead, prefix: NoncePrefix, sha: seq<byte> -> seq<byte>, encoder: Encoder, z: Zstd,
                      ghost f: Format, source: ByteSource)
    returns (accepted: bool, plaintext: seq<byte>, ghost chunks: seq<seq<byte>>)
    requires a.Correct() && f.Implements(z) && Encodes(encoder, f)
    requires source.Valid() && source.pos == 0 && !source.ended && source.Clean()
    modifies source
    ensures accepted ==> plaintext == source.data && Reading(chunks, source.data) && Fits(encoder, chunks)
    ensures !accepted ==> Flatten(chunks) <= source.data && TooLarge(encoder, chunks, source.data)
  {
    var store := new ByteSink(true);
    var r;
    r, chunks := SealObject(a, prefix, sha, encoder, source, store);
    if r.Err? {
      return false, [], chunks;
    }
    ghost var stream := encoder.Compressed(chunks);
    assert [] + Sealed(a, prefix, stream) == Sealed(a, prefix, stream);
    plaintext := OpenStored(a, prefix, z, f, store.bytes, stream, source.data);
    return true, plaintext, chunks;
  }

  /** Reading a stored object back, in whatever short reads. */
  method OpenStored(a: Aead, ghost prefix: NoncePrefix, z: Zstd, ghost f: Format, stored: seq<byte>,
                    ghost stream: seq<byte>, ghost content: seq<byte>)
    returns (plaintext: seq<byte>)
    requires a.Correct() && f.Implements(z) && stored == Sealed(a, prefix, stream)
    requires f.plain(stream) == Some(content) && ScanHeader(stream).Accept?
    requires |content| <= MAX_PLAINTEXT && SealedSize(|stream|) <= MAX_CIPHERTEXT
    ensures plaintext == content
  {
    var source := new ByteSource(stored, false, false);
    var out := new ByteSink(true);
    CorrectDecrypts(a, prefix, stream);
    RoundTrip(a, z, f, prefix, stream, content);
    var v, got := OpenObject(a, z, source, out);
    assert [] + got == got;
    plaintext := out.bytes;
  }

  /** Once it has sealed a final block, a session is determined by the calls of its encryptor. */
  lemma CallsDetermineSession(s: Session, t: Session)
    requires s.Calls() == t.Calls() && s.finished
    ensures s == t
  {
    var m, n := FullBlocks(s.stream), FullBlocks(t.stream);
    assert s.Calls()[m] == Call(m, true, Block(s.stream, m));
    CallsAreSealed(t, s.Calls()[m]);
    forall i | 0 <= i <= n
      ensures Block(s.stream, i) == Block(t.stream, i)
    {
      var c := Call(i, i == n, Block(s.stream, i));
      CallsAreSealed(s, c);
      CallsAreSealed(t, c);
    }
    BlocksGlue(s.stream, n + 1);
    BlocksGlue(t.stream, n + 1);
    assert BlocksUpTo(s.stream, n + 1) == BlocksUpTo(t.stream, n + 1);
    assert s.stream[..|s.stream|] == s.stream && t.stream[..|t.stream|] == t.stream;
  }

  /** The data claims this prefix, under which the ideal cipher decrypts exactly what these calls sealed. */
  ghost predicate Honours(a: Aead, ledger: map<NoncePrefix, Session>, data: seq<byte>, prefix: NoncePrefix,
                          calls: seq<Call>)
  {
    Ideal(a, ledger) && ClaimedSession(ledger, data) == Some(prefix) && ledger[prefix].Calls() == calls
  }

  /** Integrity of a whole run. A writer is driven by any script against any sink; then any byte string is opened,
      with a cipher that decrypts what writers of this key sealed and, under this writer's prefix, exactly what its
      encryptor was called for. If the string claims that prefix and opens, the writer sealed its final block and
      the string is its object byte for byte: what the sink received, if a descriptor was returned. */
  method WriteThenOpen(w: BackupObjectWriter, script: seq<Op>, z: Zstd, source: ByteSource, out: ByteSink)
    returns (replies: seq<Reply>, v: Verdict)
    requires w.Valid() && w.terminal == Active && w.fed == [] && w.sink != out
    requires z.Bounded() && source.Valid() && source.pos == 0 && !source.ended
    modifies w.Repr(), source, out
    ensures w.aead.Sized() && |replies| == |script|
    ensures forall ledger: map<NoncePrefix, Session> ::
              v.Pass? && Honours(w.aead, ledger, source.data, w.prefix, w.inner.calls) ==>
              && w.session.finished && source.data == Sealed(w.aead, w.prefix, w.session.stream)
              && forall i :: 0 <= i < |replies| && replies[i].HasDescriptor() ==>
                   && w.sink.bytes == w.base + source.data
                   && replies[i].d.value == Descriptor(|source.data|, w.sha(source.data), VERSION)
  {
    ghost var reached;
    replies, reached := Drive(w, script);
    ghost var got;
    v, got := OpenObject(w.aead, z, source, out);
    forall ledger: map<NoncePrefix, Session> | v.Pass? && Honours(w.aead, ledger, source.data, w.prefix, w.inner.calls)
      ensures w.session.finished && source.data == Sealed(w.aead, w.prefix, w.session.stream)
    {
      OnlyThatSessionOpens(w.aead, z, ledger, source.data, w.prefix, w.session);
    }
  }

  lemma OnlyThatSessionOpens(a: Aead, z: Zstd, ledger: map<NoncePrefix, Session>, data: seq<byte>, prefix: NoncePrefix,
                             session: Session)
    requires Honours(a, ledger, data, prefix, session.Calls()) && Open(a, z, data).verdict.Pass?
    ensures session.finished && data == Sealed(a, prefix, session.stream)
  {
    OpensOnlyWhatWasSealed(a, z, ledger, data);
    CallsDetermineSession(ledger[prefix], session);
  }
}
