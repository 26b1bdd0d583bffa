/**
 The growable byte buffer (buffer.c), and the byte queue it implements.
 */
module Buffers {
  import opened CText

  // ----- the queue

  /**
   ltrim_buffer on the contents. The count is the signed one the caller holds: a negative
   count turns into a size_t larger than any length, and that clears the buffer.
   */
  function Trim(s: string, count: int): (t: string)
    ensures |t| <= |s|
  {
    if 0 <= count <= |s| then s[count..] else []
  }

  datatype Op = Append(data: string) | Ltrim(count: int)

  function Apply(s: string, op: Op): string
  {
    match op
    case Append(d) => s + d
    case Ltrim(n) => Trim(s, n)
  }

  /** The contents after a run of operations on a new buffer. */
  function Held(ops: seq<Op>): string
  {
    if ops == [] then [] else Apply(Held(ops[..|ops| - 1]), ops[|ops| - 1])
  }

  /** Everything that was ever appended. */
  function Appended(ops: seq<Op>): string
  {
    if ops == [] then []
    else Appended(ops[..|ops| - 1]) + match ops[|ops| - 1] case Append(d) => d case Ltrim(_) => []
  }

  /** How many bytes the trims took: their counts, or all there was for a count out of range. */
  function Consumed(ops: seq<Op>): nat
  {
    if ops == [] then 0
    else
      var before := ops[..|ops| - 1];
      Consumed(before) +
      match ops[|ops| - 1]
      case Append(_) => 0
      case Ltrim(n) => if 0 <= n <= |Held(before)| then n else |Held(before)|
  }

  /** A buffer is a queue: it holds everything ever put in, less the bytes taken, in order. */
  lemma {:induction false} BufferIsQueue(ops: seq<Op>)
    ensures Consumed(ops) <= |Appended(ops)|
    ensures Held(ops) == Appended(ops)[Consumed(ops)..]
  {
    if ops != [] {
      BufferIsQueue(ops[..|ops| - 1]);
    }
  }

  // ----- the buffer

  class Buffer {
    ghost var Contents: string
    ghost var Repr: set<object>

    var block: array?<char>
    var len: nat

    /** The block is as long as the contents; after clear_buffer there is none. */
    ghost predicate Valid()
      reads this, Repr
      ensures Valid() ==> this in Repr && len == |Contents|
    {
      && this in Repr && len == |Contents|
      && (block == null ==> Contents == [])
      && (block != null ==> block in Repr && block[..] == Contents)
    }

    constructor ()
      ensures Valid() && fresh(Repr) && Contents == []
    {
      block, len := null, 0;
      Contents, Repr := [], {this};
    }

    /** append_buffer: realloc to the new length, then memcpy behind the old contents. */
    method Append(data: string)
      requires Valid()
      modifies Repr
      ensures Valid() && fresh(Repr - old(Repr))
      ensures Contents == old(Contents) + data
    {
      var grown := new char[len + |data|];
      if block != null {
        forall k | 0 <= k < len {
          grown[k] := block[k];
        }
      }
      forall k | 0 <= k < |data| {
        grown[len + k] := data[k];
      }
      block, len := grown, len + |data|;
      Contents, Repr := Contents + data, Repr + {grown};
    }

    /** ltrim_buffer: memmove within the block, then realloc to what is left. */
    method Ltrim(count: int)
      requires Valid()
      modifies Repr
      ensures Valid() && fresh(Repr - old(Repr))
      ensures Contents == Trim(old(Contents), count)
    {
      if 0 <= count <= len {
        len := len - count;
        if block != null {
          MoveDown(block, count, len);
          var shrunk := new char[len];
          forall k | 0 <= k < len {
            shrunk[k] := block[k];
          }
          assert shrunk[..] == block[..len] == old(Contents)[count..];
          block := shrunk;
          Repr := Repr + {shrunk};
        }
        Contents := Contents[count..];
      } else {
        Clear();
      }
    }

    /** clear_buffer. */
    method Clear()
      requires Valid()
      modifies Repr
      ensures Valid() && Repr == old(Repr) && Contents == []
    {
      block := null;
      len := 0;
      Contents := [];
    }

    /** strsep in the block; without a block there is nothing its cursor could point to. */
    method Strsep(start: Option<nat>, delim: char) returns (token: Option<nat>, next: Option<nat>)
      requires Valid() && Contents != [] && (start.Some? ==> start.value <= len) && delim != NUL
      modifies Repr
      ensures Valid() && Repr == old(Repr)
      ensures token == start
      ensures start.None? ==> next.None? && Contents == old(Contents)
      ensures start.Some? ==> (Contents, next) == Sep(old(Contents), start.value, delim)
    {
      hide Sep;
      token, next := CText.Strsep(block, start, delim);
      Contents := block[..];
    }

    /** strdup of the string at an index. */
    method ReadStr(p: Option<nat>) returns (s: Option<string>)
      requires Valid() && Contents != [] && (p.Some? ==> p.value <= len)
      ensures s == if p.None? then None else Some(StrAt(Contents, p.value))
    {
      s := if p.None? then None else Some(CStr(block[p.value..]));
    }

    /** What the calls that scan the buffer find in it. */
    method Read() returns (s: string)
      requires Valid()
      ensures s == Contents
    {
      s := if block == null then [] else block[..];
    }
  }

  /** memmove(a, a + from, n): copying upwards is safe although the ranges overlap. */
  method MoveDown(a: array<char>, from: nat, n: nat)
    requires from + n <= a.Length
    modifies a
    ensures a[..n] == old(a[from..from + n])
    ensures a[n..] == old(a[n..])
  {
    for i := 0 to n
      invariant forall k | 0 <= k < i :: a[k] == old(a[from + k])
      invariant forall k | i <= k < a.Length :: a[k] == old(a[k])
    {
      a[i] := a[from + i];
    }
  }
}
