/** Facts about sequences and sets that several models share. */
module Collections {

  /** Every element is an index below n. */
  predicate Indices(order: seq<nat>, n: nat) {
    forall p :: 0 <= p < |order| ==> order[p] < n
  }

  /** The numbers below n, ascending. */
  function Range(n: nat): (r: seq<nat>)
    ensures |r| == n && Indices(r, n) && forall i :: 0 <= i < n ==> r[i] == i
  {
    if n == 0 then [] else Range(n - 1) + [n - 1]
  }

  /** The parts joined. */
  function Flatten<T>(parts: seq<seq<T>>): seq<T> {
    if parts == [] then [] else parts[0] + Flatten(parts[1..])
  }

  lemma {:induction false} SubsetSize<T>(a: set<T>, b: set<T>)
    requires a <= b
    ensures |a| <= |b|
  {
    if a != {} {
      var x :| x in a;
      SubsetSize(a - {x}, b - {x});
    }
  }

  lemma RoomForOne<T>(a: set<T>, b: set<T>, x: T)
    requires a <= b && x in b && x !in a
    ensures |a| < |b|
  {
    SubsetSize(a, b - {x});
  }
}
