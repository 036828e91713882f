/** memmove: copies n bytes as if through a buffer, whichever way the two regions overlap. */
module ByteCopy {

  type Byte = x: int | 0 <= x < 256

  /** Memory with some bytes put over it. */
  function Overwritten(memory: seq<Byte>, at: nat, bytes: seq<Byte>): (r: seq<Byte>)
    requires at + |bytes| <= |memory|
    ensures |r| == |memory|
  {
    memory[..at] + bytes + memory[at + |bytes|..]
  }

  lemma OverwrittenThere(memory: seq<Byte>, at: nat, bytes: seq<Byte>)
    requires at + |bytes| <= |memory|
    ensures Overwritten(memory, at, bytes)[at..at + |bytes|] == bytes
  {
  }

  lemma OverwrittenInPieces(memory: seq<Byte>, at: nat, bytes: seq<Byte>, now: seq<Byte>)
    requires at + |bytes| <= |memory| == |now|
    requires forall k :: 0 <= k < |now| ==> now[k] == if at <= k < at + |bytes| then bytes[k - at] else memory[k]
    ensures now == Overwritten(memory, at, bytes)
  {
  }

  /**
   Source and destination lie in the arrays `from` and `to`, which may be one and the same; `below` is
   the comparison of the two pointers.
   */
  method MemMove(to: array<Byte>, dest: nat, from: array<Byte>, src: nat, n: nat, below: bool)
    requires dest + n <= to.Length && src + n <= from.Length
    requires to == from ==> (below <==> dest < src)
    modifies to
    ensures to[..] == Overwritten(old(to[..]), dest, old(from[src..src + n]))
  {
    hide Overwritten;
    ghost var bytes, was := from[src..src + n], to[..];
    if below {
      for i := 0 to n
        invariant forall k :: 0 <= k < to.Length ==> to[k] == if dest <= k < dest + i then bytes[k - dest] else was[k]
        invariant to != from ==> unchanged(from)
      {
        to[dest + i] := from[src + i];
      }
    } else {
      for i := 1 to n + 1
        invariant forall k :: 0 <= k < to.Length ==>
                    to[k] == if dest + n - i < k < dest + n then bytes[k - dest] else was[k]
        invariant to != from ==> unchanged(from)
      {
        to[dest + n - i] := from[src + n - i];
      }
    }
    OverwrittenInPieces(was, dest, bytes, to[..]);
  }
}
