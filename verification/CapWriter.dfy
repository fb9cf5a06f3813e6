/** The output cap downstream of redaction (internal/runner/runner.go). */
module CapWriters {
  import opened ByteStrings

  /** The bytes of data that a cap lets through; a cap of 0 or less means unlimited. */
  function Capped(data: Bytes, max: int): (c: Bytes)
    ensures c <= data
    ensures |c| == if 0 < max < |data| then max else |data|
  {
    if max > 0 then data[..Min(|data|, max)] else data
  }

  /** A sink that forwards at most max bytes and remembers whether it dropped any. */
  class CapWriter {
    const max: int
    var sink: Bytes       // the bytes the underlying writer received
    var written: int
    var dropped: bool
    ghost var offered: Bytes  // every byte ever passed to Write

    ghost predicate Valid()
      reads this
    {
      && sink == Capped(offered, max)
      && (max > 0 ==> written == |sink|)
      && (max > 0 && |offered| > max ==> dropped)
    }

    /** The flag says exactly whether bytes were lost. */
    ghost predicate Exact()
      reads this
    {
      dropped <==> max > 0 && |offered| > max
    }

    constructor (max: int)
      ensures Valid() && Exact()
      ensures this.max == max && offered == []
    {
      this.max := max;
      sink, written, dropped, offered := [], 0, false, [];
    }

    /**
     Accepts all of p. An empty write to a sink that is exactly full also sets dropped; any other
     write sets it only when a byte of p is lost.
     */
    method Write(p: Bytes) returns (n: nat)
      requires Valid()
      modifies this
      ensures Valid()
      ensures n == |p|
      ensures offered == old(offered) + p
      ensures sink == Capped(old(offered) + p, max)
      ensures dropped <==> old(dropped) || (max > 0 && (|offered| > max || (p == [] && |offered| == max)))
      ensures old(Exact()) && (p != [] || max <= 0 || |offered| != max) ==> Exact()
    {
      offered := offered + p;
      if max <= 0 {
        sink := sink + p;
        return |p|;
      }
      var remaining := max - written;
      if remaining <= 0 {
        dropped := true;
        return |p|;
      }
      if |p| > remaining {
        dropped := true;
        sink := sink + p[..remaining];
        written := written + remaining;
        return |p|;
      }
      sink := sink + p;
      written := written + |p|;
      return |p|;
    }
  }
}
