/**
  Regrouping of concatenations, proved once over arbitrary sequences so
  that proofs about concrete frames and event lists need not redo it.
 */
module Seqs {

  lemma Assoc<T>(x: seq<T>, y: seq<T>, z: seq<T>)
    ensures x + (y + z) == (x + y) + z
  {
  }

  lemma Reassociate<T>(a: seq<T>, b: seq<T>, c: seq<T>, d: seq<T>, e: seq<T>)
    ensures a + b + c + d + e == a + (b + (c + d) + e)
  {
  }

  /** A slice that lies inside the middle part of `a + b + c` is a slice of `b`. */
  lemma MiddleSlice<T>(a: seq<T>, b: seq<T>, c: seq<T>, lo: nat, hi: nat)
    requires lo <= hi <= |b|
    ensures (a + b + c)[|a| + lo..|a| + hi] == b[lo..hi]
  {
    var s := a + b + c;
    forall j | lo <= j < hi
      ensures s[|a| + j] == b[j]
    {
    }
  }
}
