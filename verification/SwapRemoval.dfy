/** Removing from a list by moving its last element into the gap, as RemoveReferringUserUsers does. */
module SwapRemoval {

  /** The first position of x, or the length if it does not occur. */
  function Position<T(==)>(s: seq<T>, x: T): (i: nat)
    ensures i <= |s|
    ensures i < |s| ==> s[i] == x
    ensures forall k :: 0 <= k < i ==> s[k] != x
  {
    if s == [] || s[0] == x then 0 else 1 + Position(s[1..], x)
  }

  /** s without one occurrence of x, whose place the last element takes; s itself if there is none. */
  function Removed<T(==)>(s: seq<T>, x: T): (r: seq<T>)
    ensures |r| == if x in s then |s| - 1 else |s|
  {
    var i := Position(s, x);
    if i == |s| then assert x !in s; s else s[i := s[|s| - 1]][..|s| - 1]
  }

  /** Where everything is after a removal: the last element in the gap, all others in their places. */
  lemma RemovedAt<T>(s: seq<T>, x: T, k: nat)
    requires k < |Removed(s, x)|
    ensures Removed(s, x)[k] == if x in s && k == Position(s, x) then s[|s| - 1] else s[k]
  {
  }

  function RemovedAll<T(==)>(s: seq<T>, xs: seq<T>, n: nat): seq<T>
    requires n <= |xs|
  {
    if n == 0 then s else Removed(RemovedAll(s, xs, n - 1), xs[n - 1])
  }

  lemma BagMinusTwice<T>(a: multiset<T>, b: multiset<T>, x: T)
    ensures (a - b) - multiset{x} == a - (b + multiset{x})
  {
  }

  lemma BagOfUpdate<T>(s: seq<T>, i: nat, y: T)
    requires i < |s|
    ensures multiset(s[i := y]) == multiset(s) - multiset{s[i]} + multiset{y}
  {
  }

  lemma BagOfFront<T>(s: seq<T>)
    requires s != []
    ensures multiset(s[..|s| - 1]) == multiset(s) - multiset{s[|s| - 1]}
  {
    assert s == s[..|s| - 1] + [s[|s| - 1]];
  }

  lemma BagOfMore<T>(s: seq<T>, x: T)
    ensures multiset(s + [x]) == multiset(s) + multiset{x}
  {
  }

  lemma BagPlusMinus<T>(b: multiset<T>, x: T)
    ensures b + multiset{x} - multiset{x} == b
  {
  }

  lemma BagWithout<T>(s: seq<T>, x: T)
    requires x !in s
    ensures multiset(s) == multiset(s) - multiset{x}
  {
    assert x !in multiset(s);
  }

  lemma FilledLast<T>(s: seq<T>, i: nat)
    requires i < |s|
    ensures s[i := s[|s| - 1]][|s| - 1] == s[|s| - 1]
  {
  }

  /** Filling a gap with the last element and then dropping that takes away what was in the gap. */
  lemma BagOfFilled<T>(bag: multiset<T>, filled: seq<T>, x: T, last: T)
    requires filled != [] && filled[|filled| - 1] == last && multiset(filled) == bag - multiset{x} + multiset{last}
    ensures multiset(filled[..|filled| - 1]) == bag - multiset{x}
  {
    BagOfFront(filled);
    BagPlusMinus(bag - multiset{x}, last);
  }

  /** Exactly one occurrence goes, if there is one, and everything else stays. */
  lemma RemovedBag<T>(s: seq<T>, x: T)
    ensures multiset(Removed(s, x)) == multiset(s) - multiset{x}
  {
    var i := Position(s, x);
    if i < |s| {
      BagOfUpdate(s, i, s[|s| - 1]);
      FilledLast(s, i);
      BagOfFilled(multiset(s), s[i := s[|s| - 1]], x, s[|s| - 1]);
    } else {
      BagWithout(s, x);
    }
  }

  lemma FrontOfFront<T>(xs: seq<T>, n: nat)
    requires 0 < n <= |xs|
    ensures xs[..n] == xs[..n - 1] + [xs[n - 1]]
  {
  }

  lemma NothingRemoved<T>(s: seq<T>, xs: seq<T>)
    ensures multiset(RemovedAll(s, xs, 0)) == multiset(s) - multiset(xs[..0])
  {
    assert xs[..0] == [];
  }

  /** One more round, after rounds for front. */
  lemma RemovedMore<T>(s: seq<T>, front: seq<T>, before: seq<T>, x: T)
    requires multiset(before) == multiset(s) - multiset(front)
    ensures multiset(Removed(before, x)) == multiset(s) - multiset(front + [x])
  {
    RemovedBag(before, x);
    BagOfMore(front, x);
    BagMinusTwice(multiset(s), multiset(front), x);
  }

  /** One occurrence goes for each element asked for that is still there. */
  lemma {:induction false} RemovedAllBag<T>(s: seq<T>, xs: seq<T>, n: nat)
    requires n <= |xs|
    ensures multiset(RemovedAll(s, xs, n)) == multiset(s) - multiset(xs[..n])
  {
    if n == 0 {
      NothingRemoved(s, xs);
    } else {
      RemovedAllBag(s, xs, n - 1);
      RemovedMore(s, xs[..n - 1], RemovedAll(s, xs, n - 1), xs[n - 1]);
      FrontOfFront(xs, n);
    }
  }

  lemma PositionIs<T>(s: seq<T>, x: T, i: nat)
    requires i <= |s| && (i < |s| ==> s[i] == x)
    requires forall k :: 0 <= k < i ==> s[k] != x
    ensures Position(s, x) == i
  {
    var p := Position(s, x);
    assert p < |s| ==> s[p] == x;
  }

  /** One round of the removal; nothing is written behind a cell p that holds the element. */
  method RemoveOne<T(==)>(buf: array<T>, n: nat, rel: T, ghost p: int) returns (left: nat)
    requires n <= buf.Length && -1 <= p < buf.Length && (p >= 0 ==> buf[p] == rel)
    modifies buf
    ensures left <= n && buf[..left] == Removed(old(buf[..n]), rel)
    ensures p >= 0 ==> forall k :: p < k < buf.Length ==> buf[k] == old(buf[k])
    ensures forall k :: n <= k < buf.Length ==> buf[k] == old(buf[k])
  {
    ghost var before := buf[..n];
    left := n;
    var i := 0;
    while i < n && buf[i] != rel
      invariant i <= n
      invariant forall k :: 0 <= k < i ==> before[k] != rel
    {
      i := i + 1;
    }
    PositionIs(before, rel, i);
    if i < n {
      if n > 1 && i < n - 1 {
        buf[i] := buf[n - 1];
      }
      left := n - 1;
    }
  }

  /**
   The removal on the memory a Go slice stands for: the list is the first n cells of buf. The elements to remove may
   be read from the very same memory, at any offset, while the loop moves elements in it.
   */
  method RemoveInPlace<T(==)>(buf: array<T>, n: nat, related: array<T>, from: nat, m: nat) returns (left: nat)
    requires n <= buf.Length && from + m <= related.Length
    modifies buf
    ensures left <= n
    ensures buf[..left] == RemovedAll(old(buf[..n]), old(related[from..from + m]), m)
    ensures buf[n..] == old(buf[n..])
  {
    ghost var list, xs := buf[..n], related[from..from + m];
    left := n;
    for j := 0 to m
      invariant left <= n
      invariant buf[..left] == RemovedAll(list, xs, j)
      invariant forall k :: n <= k < buf.Length ==> buf[k] == old(buf[k])
      invariant forall k :: j <= k < m ==> related[from + k] == xs[k]
    {
      left := RemoveOne(buf, left, related[from + j], if related == buf then from + j else -1);
    }
  }
}
