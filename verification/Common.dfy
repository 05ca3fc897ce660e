/** Types and constants shared by the backup-object modules. */
module Common {

  /** One octet. */
  type byte = x: int | 0 <= x < 256

  datatype Option<+T> = None | Some(value: T)

  /** The error codes of crates/kchat-backup/src/error.rs that the object path can return. */
  datatype ErrorCode =
    | UnsupportedFormat
    | IoError
    | InvalidState
    | AuthenticationFailed
    | ResourceLimitExceeded
    | Cancelled
    | MalformedObject
    | InvalidCompressedData

  datatype Result<+T> = Ok(value: T) | Err(code: ErrorCode)

  /** A result without a value. */
  datatype Verdict = Pass | Fail(code: ErrorCode)

  // crates/kchat-backup/src/limits.rs
  const MAX_CIPHERTEXT: nat := 256 * 1024 * 1024
  const MAX_COMPRESSED: nat := 256 * 1024 * 1024
  const MAX_PLAINTEXT: nat := 1024 * 1024 * 1024
  const MAX_WINDOW: nat := 8 * 1024 * 1024
  const MAX_BLOCKS: nat := 4096
  const MAX_IO_CHUNK: nat := 64 * 1024

  /** The limits in bytes, chunks and blocks, of which the ciphertext one is the one that matters. */
  lemma Limits()
    ensures MAX_CIPHERTEXT == MAX_COMPRESSED == 268_435_456 && MAX_PLAINTEXT == 1_073_741_824
    ensures MAX_WINDOW == 8_388_608 && MAX_BLOCKS == 4096 && MAX_IO_CHUNK == 65_536
  {
  }

  const U64_RANGE: nat := 0x1_0000_0000_0000_0000

  function Min(a: nat, b: nat): nat {
    if a <= b then a else b
  }

  function Flatten(chunks: seq<seq<byte>>): seq<byte> {
    if chunks == [] then [] else Flatten(chunks[..|chunks| - 1]) + chunks[|chunks| - 1]
  }

  lemma {:induction false} FlattenAppend(a: seq<seq<byte>>, b: seq<seq<byte>>)
    ensures Flatten(a + b) == Flatten(a) + Flatten(b)
    decreases |b|
  {
    if b == [] {
      assert a + b == a;
    } else {
      var n := |b| - 1;
      assert (a + b)[..|a + b| - 1] == a + b[..n];
      FlattenAppend(a, b[..n]);
    }
  }

  lemma FlattenSnoc(chunks: seq<seq<byte>>, chunk: seq<byte>)
    ensures Flatten(chunks + [chunk]) == Flatten(chunks) + chunk
  {
    assert (chunks + [chunk])[..|chunks + [chunk]| - 1] == chunks;
  }

  lemma FlattenSplit(writes: seq<seq<byte>>, n: nat)
    requires n <= |writes|
    ensures Flatten(writes) == Flatten(writes[..n]) + Flatten(writes[n..])
  {
    assert writes == writes[..n] + writes[n..];
    FlattenAppend(writes[..n], writes[n..]);
  }

  /** Taking the last element off a sum takes it off its second part. */
  lemma InitOfSum<T>(a: seq<T>, b: seq<T>)
    requires b != []
    ensures var n := |a + b| - 1;
            n == |a| + (|b| - 1) && (a + b)[..n] == a + b[..|b| - 1] && (a + b)[n] == b[|b| - 1]
  {
  }

  lemma Prefixes<T>(s: seq<T>, n: nat, m: nat)
    requires n <= m < |s|
    ensures s[..m][..n] == s[..n] && s[..m + 1] == s[..m] + [s[m]]
  {
  }

  lemma Slices<T>(s: seq<T>, i: nat, j: nat, k: nat)
    requires i <= j <= k <= |s|
    ensures s[i..k] == s[i..j] + s[j..k]
  {
  }

  lemma Associates<T>(a: seq<T>, b: seq<T>, c: seq<T>)
    ensures a + b + c == a + (b + c)
  {
  }

  /** If `got + out` is a prefix, so is `got` with any part of `out`. */
  lemma PrefixShorter<T>(got: seq<T>, part: seq<T>, out: seq<T>, whole: seq<T>)
    requires part <= out && got + out <= whole
    ensures got + part <= whole
  {
    assert got + part == (got + out)[..|got| + |part|];
  }
}
