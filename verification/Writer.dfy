/** crates/kchat-backup/src/object/writer.rs: block splitting, the three running caps, the
    hash, the terminal states of the public writer, and `seal_object_v1`. */
module Writer {
  import opened Common
  import opened Envelope
  import opened Io

  /** `checked_add_limited`: u64 addition that also respects a cap. */
  function CheckedAddLimited(current: nat, added: nat, maximum: nat): Result<nat> {
    if current + added < U64_RANGE && current + added <= maximum
    then Ok(current + added)
    else Err(ResourceLimitExceeded)
  }

  datatype Descriptor = Descriptor(size: nat, sha256: seq<byte>, version: nat)

  /** Bytes on the wire once every full block of a `c`-byte stream has been written. */
  function OpeningSize(c: nat): nat {
    HEADER_BYTES + Frames(c / 65536)
  }

  lemma CompressedCapIsLoose(c: nat)
    requires c > MAX_COMPRESSED
    ensures OpeningSize(c) > MAX_CIPHERTEXT
  {
    assert c / 65536 >= 4096;
  }

  class EnvelopeWriter {
    const aead: Aead
    const prefix: NoncePrefix
    const sha: seq<byte> -> seq<byte>
    const sink: ByteSink
    /** What the sink held before this object. */
    ghost const base: seq<byte>
    /** All compressed bytes accepted so far. */
    ghost var stream: seq<byte>
    /** Every call of the STREAM encryptor. */
    ghost var calls: seq<Call>
    /** The counter inside the STREAM encryptor. */
    var position: nat
    var pending: seq<byte>
    var compressedBytes: nat
    var ciphertextBytes: nat
    var blockCount: nat
    /** Everything fed to SHA-256. */
    var hashed: seq<byte>
    var failure: Option<ErrorCode>

    /** The wire state: counters and hash describe exactly what the sink received. */
    ghost predicate InSync()
      reads this, sink
    {
      && aead.Sized()
      && sink.bytes == base + hashed
      && ciphertextBytes == |hashed| <= MAX_CIPHERTEXT
    }

    /** The encryptor was called for the blocks of `s` up to `position`, and for nothing else. */
    ghost predicate Records(s: seq<byte>)
      reads this
    {
      Offset(position) <= |s| && calls == NextCalls(s, position)
    }

    /** All full blocks up to `position` are on the wire and the rest is pending. */
    ghost predicate Splitting()
      reads this, sink
    {
      && InSync()
      && position == blockCount
      && compressedBytes == |stream|
      && Records(stream)
      && pending == stream[Offset(position)..]
      && hashed == Opening(aead, prefix, stream, position)
    }

    ghost predicate Valid()
      reads this, sink
    {
      Splitting() && |pending| < BLOCK
    }

    constructor (aead: Aead, prefix: NoncePrefix, sha: seq<byte> -> seq<byte>, sink: ByteSink)
      ensures this.aead == aead && this.prefix == prefix && this.sha == sha && this.sink == sink
      ensures base == sink.bytes && stream == [] && calls == []
      ensures position == blockCount == compressedBytes == ciphertextBytes == 0
      ensures pending == [] && hashed == [] && failure == None
    {
      this.aead, this.prefix, this.sha, this.sink := aead, prefix, sha, sink;
      base, stream, calls := sink.bytes, [], [];
      position, blockCount, compressedBytes, ciphertextBytes := 0, 0, 0, 0;
      pending, hashed, failure := [], [], None;
    }

    /** `EnvelopeWriter::new`: the header goes out first. */
    static method New(aead: Aead, prefix: NoncePrefix, sha: seq<byte> -> seq<byte>, sink: ByteSink)
      returns (w: EnvelopeWriter, r: Result<()>)
      requires aead.Sized()
      modifies sink
      ensures fresh(w) && w.sink == sink && w.aead == aead && w.prefix == prefix && w.sha == sha
      ensures w.base == old(sink.bytes) && w.stream == [] && w.calls == []
      ensures r.Ok? ==> w.Valid()
      ensures r.Err? ==> sink.Blamed(r.code)
      ensures old(sink.bytes) <= sink.bytes <= old(sink.bytes) + SerializeHeader(prefix)
    {
      w := new EnvelopeWriter(aead, prefix, sha, sink);
      r := w.WriteEnvelopeBytes(SerializeHeader(prefix));
      if r.Ok? {
        assert w.hashed == Opening(aead, prefix, [], 0);
      }
    }

    /** Counts, hashes and forwards bytes in bounded chunks; the cap is checked before anything is sent. */
    method WriteEnvelopeBytes(bytes: seq<byte>) returns (r: Result<()>)
      requires InSync()
      modifies this`ciphertextBytes, this`hashed, sink
      ensures r.Ok? ==> InSync() && hashed == old(hashed) + bytes
      ensures if |old(hashed)| + |bytes| > MAX_CIPHERTEXT
              then r == Err(ResourceLimitExceeded) && sink.bytes == old(sink.bytes)
              else r.Err? ==> sink.Blamed(r.code)
      ensures old(sink.bytes) <= sink.bytes <= old(sink.bytes) + bytes
    {
      match CheckedAddLimited(ciphertextBytes, |bytes|, MAX_CIPHERTEXT) {
        case Err(e) => return Err(e);
        case Ok(total) => ciphertextBytes := total;
      }
      hashed := hashed + bytes;
      var sent := 0;
      while sent < |bytes|
        invariant 0 <= sent <= |bytes|
        invariant sink.bytes == old(sink.bytes) + bytes[..sent]
        modifies sink
      {
        var next := Min(sent + MAX_IO_CHUNK, |bytes|);
        var w := sink.WriteChunk(bytes[sent..next]);
        assert bytes[..sent] + bytes[sent..next] == bytes[..next];
        if w.Err? {
          assert bytes[..next] <= bytes;
          return w;
        }
        sent := next;
      }
      assert bytes[..sent] == bytes;
      r := Ok(());
    }

    /** Length prefix and ciphertext of one frame. */
    method WriteEncryptedBlock(ciphertext: seq<byte>) returns (r: Result<()>)
      requires InSync()
      modifies this`blockCount, this`ciphertextBytes, this`hashed, sink
      ensures !(TAG <= |ciphertext| <= FULL_FRAME) ==>
                r == Err(InvalidState) && unchanged(this) && sink.bytes == old(sink.bytes)
      ensures TAG <= |ciphertext| <= FULL_FRAME ==>
                && (r.Ok? ==>
                      InSync() && hashed == old(hashed) + Frame(ciphertext) && blockCount == old(blockCount) + 1)
                && (r.Err? ==>
                      || sink.Blamed(r.code)
                      || (r.code == ResourceLimitExceeded && |old(hashed)| + |Frame(ciphertext)| > MAX_CIPHERTEXT)
                      || (r.code == ResourceLimitExceeded && old(blockCount) + 1 > MAX_BLOCKS))
                && old(sink.bytes) <= sink.bytes <= old(sink.bytes) + Frame(ciphertext)
    {
      if |ciphertext| < TAG || |ciphertext| > FULL_FRAME {
        return Err(InvalidState);
      }
      match CheckedAddLimited(blockCount, 1, MAX_BLOCKS) {
        case Err(e) => return Err(e);
        case Ok(count) => blockCount := count;
      }
      r := WriteEnvelopeBytes(Be32(|ciphertext|));
      if r.Err? { return; }
      assert old(sink.bytes) + Be32(|ciphertext|) + ciphertext == old(sink.bytes) + Frame(ciphertext);
      assert old(hashed) + Be32(|ciphertext|) + ciphertext == old(hashed) + Frame(ciphertext);
      r := WriteEnvelopeBytes(ciphertext);
    }

    /** Encrypts and sends the first pending block. */
    method FlushBlock() returns (r: Result<()>)
      requires Splitting() && |pending| >= BLOCK
      modifies this, sink
      ensures stream == old(stream) && position == old(position) + 1
      ensures r.Ok? ==> Splitting()
      ensures r.Err? ==> sink.Blamed(r.code) ||
                         (r.code == ResourceLimitExceeded && HEADER_BYTES + Frames(position) > MAX_CIPHERTEXT)
      ensures Records(stream) && aead.Sized()
      ensures old(sink.bytes) <= sink.bytes <= base + Opening(aead, prefix, stream, position)
    {
      OpeningSnoc(aead, prefix, stream, position, base);
      var ciphertext := SealNext();
      r := WriteEncryptedBlock(ciphertext);
    }

    /** Takes the first pending block off and encrypts it. */
    method SealNext() returns (ciphertext: seq<byte>)
      requires Records(stream) && pending == stream[Offset(position)..] && |pending| >= BLOCK
      modifies this`pending, this`position, this`calls
      ensures position == old(position) + 1 && Records(stream) && pending == stream[Offset(position)..]
      ensures ciphertext == aead.encrypt(prefix, old(position), false, Block(stream, old(position)))
    {
      var block := pending[..BLOCK];
      pending := pending[BLOCK..];
      assert block == Block(stream, position);
      ciphertext := aead.encrypt(prefix, position, false, block);
      calls := calls + [Call(position, false, block)];
      position := position + 1;
    }

    /** The splitting loop of `write_compressed`. */
    method FlushBlocks() returns (r: Result<()>)
      requires Splitting()
      modifies this, sink
      ensures stream == old(stream)
      ensures r.Ok? ==> Valid() && OpeningSize(|stream|) <= MAX_CIPHERTEXT
      ensures r.Err? ==> sink.Blamed(r.code) ||
                         (r.code == ResourceLimitExceeded && OpeningSize(|stream|) > MAX_CIPHERTEXT)
      ensures Records(stream) && aead.Sized()
      ensures old(sink.bytes) <= sink.bytes <= base + Opening(aead, prefix, stream, FullBlocks(stream))
    {
      ghost var n := FullBlocks(stream);
      OpeningGrows(aead, prefix, stream, stream, position, n);
      while |pending| >= BLOCK
        invariant Splitting() && stream == old(stream)
        invariant old(sink.bytes) <= sink.bytes <= base + Opening(aead, prefix, stream, n)
        decreases |pending|
      {
        r := FlushBlock();
        OpeningGrows(aead, prefix, stream, stream, position, n);
        if r.Err? { return; }
      }
      assert position == n;
      r := Ok(());
    }

    /** With a reliable sink the stream is refused exactly when its full blocks do not fit the ciphertext
        cap: the compressed-size cap and the block cap never bite first. */
    method WriteCompressed(bytes: seq<byte>) returns (r: Result<()>)
      requires Valid()
      modifies this, sink
      ensures r.Ok? ==> Valid() && stream == old(stream) + bytes
      ensures r.Ok? ==> OpeningSize(|old(stream) + bytes|) <= MAX_CIPHERTEXT
      ensures r.Err? ==> sink.Blamed(r.code) ||
                         (r.code == ResourceLimitExceeded && OpeningSize(|old(stream) + bytes|) > MAX_CIPHERTEXT)
      ensures Records(old(stream) + bytes) && aead.Sized()
      ensures old(sink.bytes) <= sink.bytes <=
                base + Opening(aead, prefix, old(stream) + bytes, FullBlocks(old(stream) + bytes))
    {
      ghost var all := stream + bytes;
      OpeningGrows(aead, prefix, stream, all, position, FullBlocks(all));
      NextCallsDependOnPrefix(stream, all, position);
      match CheckedAddLimited(compressedBytes, |bytes|, MAX_COMPRESSED) {
        case Err(e) =>
          CompressedCapIsLoose(|all|);
          return Err(e);
        case Ok(total) => compressedBytes := total;
      }
      Append(bytes);
      r := FlushBlocks();
    }

    /** More bytes wait for their blocks to fill; they are counted already. */
    method Append(bytes: seq<byte>)
      requires InSync() && Records(stream) && position == blockCount && compressedBytes == |stream| + |bytes|
      requires pending == stream[Offset(position)..] && hashed == Opening(aead, prefix, stream, position)
      modifies this`stream, this`pending
      ensures Splitting() && stream == old(stream) + bytes
    {
      ghost var all := stream + bytes;
      NextFramesDependOnPrefix(aead, prefix, stream, all, position);
      NextCallsDependOnPrefix(stream, all, position);
      stream := all;
      pending := pending + bytes;
      assert pending == all[Offset(position)..];
    }

    /** `Write::write`: remembers the code of a failure. */
    method Write(bytes: seq<byte>) returns (r: Result<()>)
      requires Valid()
      modifies this, sink
      ensures r.Ok? ==> Valid() && stream == old(stream) + bytes
      ensures r.Ok? ==> OpeningSize(|old(stream) + bytes|) <= MAX_CIPHERTEXT
      ensures r.Err? ==> sink.Blamed(r.code) ||
                         (r.code == ResourceLimitExceeded && OpeningSize(|old(stream) + bytes|) > MAX_CIPHERTEXT)
      ensures r.Err? ==> failure == Some(r.code)
      ensures Records(old(stream) + bytes) && aead.Sized()
      ensures old(sink.bytes) <= sink.bytes <=
                base + Opening(aead, prefix, old(stream) + bytes, FullBlocks(old(stream) + bytes))
    {
      r := WriteCompressed(bytes);
      if r.Err? {
        failure := Some(r.code);
      }
    }

    /** Seals the (always shorter than full, possibly empty) rest as the final block. */
    method Finish() returns (r: Result<Descriptor>)
      requires Valid()
      modifies this, sink
      ensures aead.Sized()
      ensures r.Ok? ==>
                && sink.bytes == base + Sealed(aead, prefix, old(stream))
                && r.value == Descriptor(SealedSize(|old(stream)|),
                                         sha(Sealed(aead, prefix, old(stream))), VERSION)
      ensures r.Ok? ==> SealedSize(|old(stream)|) <= MAX_CIPHERTEXT
      ensures r.Err? ==> sink.Blamed(r.code) ||
                         (r.code == ResourceLimitExceeded && SealedSize(|old(stream)|) > MAX_CIPHERTEXT)
      ensures calls == Session(old(stream), true).Calls()
      ensures old(sink.bytes) <= sink.bytes <= base + Sealed(aead, prefix, old(stream))
    {
      var last := pending;
      pending := [];
      assert position == FullBlocks(stream) && last == Block(stream, position);
      var ciphertext := aead.encrypt(prefix, position, true, last);
      calls := calls + [Call(position, true, last)];
      Associates(base, hashed, Frame(ciphertext));
      var w := WriteEncryptedBlock(ciphertext);
      if w.Err? { return Err(w.code); }
      r := Ok(Descriptor(ciphertextBytes, sha(hashed), VERSION));
    }
  }

  /** One more frame, on its own and behind what the sink held before. */
  lemma OpeningSnoc(a: Aead, prefix: NoncePrefix, stream: seq<byte>, n: nat, base: seq<byte>)
    requires a.Sized() && Offset(n + 1) <= |stream|
    ensures var frame := Frame(a.encrypt(prefix, n, false, Block(stream, n)));
            && Opening(a, prefix, stream, n) + frame == Opening(a, prefix, stream, n + 1)
            && base + Opening(a, prefix, stream, n) + frame == base + Opening(a, prefix, stream, n + 1)
  {
    var frame := Frame(a.encrypt(prefix, n, false, Block(stream, n)));
    Associates(SerializeHeader(prefix), NextFrames(a, prefix, stream, n), frame);
    Associates(base, Opening(a, prefix, stream, n), frame);
  }

  lemma OpeningGrows(a: Aead, prefix: NoncePrefix, s: seq<byte>, t: seq<byte>, m: nat, n: nat)
    requires a.Sized()
    requires s <= t && m <= n && Offset(m) <= |s| && Offset(n) <= |t|
    ensures Opening(a, prefix, s, m) <= Opening(a, prefix, t, n)
  {
    NextFramesDependOnPrefix(a, prefix, s, t, m);
    NextFramesNest(a, prefix, t, m, n);
  }
}
