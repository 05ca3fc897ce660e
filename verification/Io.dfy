/** The caller-supplied byte source and sink of crates/kchat-backup/src/object/io.rs, as
    adversarial environments: short reads, faults and cancellation happen whenever they like. */
module Io {
  import opened Common

  /** A source that yields the byte string `data`, in pieces of its own choosing. */
  class ByteSource {
    const data: seq<byte>
    /** May `ReadChunk` fail, or claim more bytes than it was given room for? */
    const faulty: bool
    /** May the caller cancel? */
    const cancellable: bool
    var pos: nat
    var ended: bool
    /** The error that the last failed read amounts to: its own code, or an invalid state for an impossible count. */
    ghost var fault: Option<ErrorCode>

    ghost predicate Valid()
      reads this
    {
      pos <= |data| && (ended ==> pos == |data|)
    }

    ghost predicate Clean() {
      !faulty && !cancellable
    }

    /** An error that is this source's own. */
    ghost predicate Blamed(code: ErrorCode)
      reads this
    {
      faulty && fault == Some(code)
    }

    /** The caller's cancellation. */
    ghost predicate Cancels(code: ErrorCode) {
      cancellable && code == Cancelled
    }

    ghost predicate Explains(code: ErrorCode)
      reads this
    {
      Cancels(code) || Blamed(code)
    }

    constructor (data: seq<byte>, faulty: bool, cancellable: bool)
      ensures this.data == data && this.faulty == faulty && this.cancellable == cancellable
      ensures Valid() && pos == 0 && !ended
    {
      this.data, this.faulty, this.cancellable := data, faulty, cancellable;
      pos, ended, fault := 0, false, None;
    }

    method IsCancelled() returns (c: bool)
      ensures c ==> cancellable
    {
      c := *;
      c := c && cancellable;
    }

    /** Fills a non-empty slice `dest[lo..hi]` from the left. Zero means permanent end of file,
        so a caller must not ask again after it, nor pass an empty slice. */
    method ReadChunk(dest: array<byte>, lo: nat, hi: nat) returns (r: Result<nat>)
      requires Valid() && !ended
      requires lo < hi <= dest.Length
      modifies this, dest
      ensures Valid()
      ensures r.Err? ==> Blamed(r.code)
      ensures r.Ok? && r.value > hi - lo ==> Blamed(InvalidState)
      ensures r.Ok? && r.value <= hi - lo ==>
                && pos == old(pos) + r.value
                && dest[lo..lo + r.value] == data[old(pos)..pos]
                && (r.value == 0 <==> old(pos) == |data|)
                && (ended <==> r.value == 0)
      ensures forall i :: 0 <= i < dest.Length && !(lo <= i < hi) ==> dest[i] == old(dest[i])
    {
      var misbehave: bool := *;
      if faulty && misbehave {
        var overrun: bool := *;
        var code: ErrorCode := *;
        fault := Some(if overrun then InvalidState else code);
        return if overrun then Ok(hi - lo + 1) else Err(code);
      }
      var room := Min(hi - lo, |data| - pos);
      var n: nat :| n <= room && (n == 0 ==> room == 0);
      forall i | lo <= i < lo + n {
        dest[i] := data[pos + (i - lo)];
      }
      pos := pos + n;
      ended := n == 0;
      r := Ok(n);
    }
  }

  /** A sink that appends; when unreliable it may fail after taking any part of a chunk.
      Every caller must respect the chunk bound. */
  class ByteSink {
    const reliable: bool
    var bytes: seq<byte>
    /** The code of the last failed write. */
    ghost var fault: Option<ErrorCode>

    constructor (reliable: bool)
      ensures this.reliable == reliable && bytes == [] && fault == None
    {
      this.reliable, bytes, fault := reliable, [], None;
    }

    /** An error that is this sink's own. */
    ghost predicate Blamed(code: ErrorCode)
      reads this
    {
      !reliable && fault == Some(code)
    }

    method WriteChunk(chunk: seq<byte>) returns (r: Result<()>)
      requires |chunk| <= MAX_IO_CHUNK
      modifies this
      ensures r.Ok? ==> bytes == old(bytes) + chunk && fault == old(fault)
      ensures r.Err? ==> Blamed(r.code)
      ensures old(bytes) <= bytes <= old(bytes) + chunk
    {
      var fail: bool := *;
      if fail && !reliable {
        var taken: nat :| taken <= |chunk|;
        bytes := bytes + chunk[..taken];
        var code: ErrorCode := *;
        fault := Some(code);
        return Err(code);
      }
      bytes := bytes + chunk;
      r := Ok(());
    }
  }
}
