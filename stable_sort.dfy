/**
 * `Array.prototype.sort` with a comparator, which ECMAScript requires to be
 * stable. `le(a, b)` holds when the comparator places `a` no later than `b`
 * (`compare(a, b) <= 0`). The library's algorithm is not observable; the model
 * is an insertion sort, and `SortUnique` shows that for a total preorder it
 * produces the one output every stable sort produces.
 */
module StableSort {
  import opened Collections

  /** The comparator is consistent: any two elements compare, and transitively. */
  ghost predicate TotalPreorder<T(!new)>(le: (T, T) -> bool) {
    && (forall a, b :: le(a, b) || le(b, a))
    && (forall a, b, c :: le(a, b) && le(b, c) ==> le(a, c))
  }

  /** Adjacent elements are in comparator order. */
  ghost predicate Sorted<T>(s: seq<T>, le: (T, T) -> bool) {
    forall i :: 0 < i < |s| ==> le(s[i - 1], s[i])
  }

  /** The elements of `s` that compare equal to `k`, in their order in `s`. */
  function Peers<T>(s: seq<T>, k: T, le: (T, T) -> bool): seq<T> {
    Filter(s, x => le(x, k) && le(k, x))
  }

  /** Equal elements appear in `r` in the same relative order as in `s`. */
  ghost predicate StableWrt<T(!new)>(r: seq<T>, s: seq<T>, le: (T, T) -> bool) {
    forall k :: Peers(r, k, le) == Peers(s, k, le)
  }

  /** Insert `x`, which comes after every element of `t` in the input, just
      after the last element of `t` that does not compare greater than it. */
  function InsertLast<T>(t: seq<T>, x: T, le: (T, T) -> bool): (r: seq<T>)
    ensures |r| == |t| + 1
    ensures r[|r| - 1] == x || (t != [] && r[|r| - 1] == t[|t| - 1])
  {
    if t == [] || le(t[|t| - 1], x) then t + [x]
    else InsertLast(t[..|t| - 1], x, le) + [t[|t| - 1]]
  }

  function Sort<T>(s: seq<T>, le: (T, T) -> bool): (r: seq<T>)
    ensures |r| == |s|
  {
    if s == [] then [] else InsertLast(Sort(s[..|s| - 1], le), s[|s| - 1], le)
  }

  lemma {:induction false} InsertLastPermutation<T>(t: seq<T>, x: T, le: (T, T) -> bool)
    ensures multiset(InsertLast(t, x, le)) == multiset(t) + multiset{x}
  {
    if !(t == [] || le(t[|t| - 1], x)) {
      InsertLastPermutation(t[..|t| - 1], x, le);
      assert t == t[..|t| - 1] + [t[|t| - 1]];
    }
  }

  /** The sort rearranges: it neither loses nor invents elements. */
  lemma {:induction false} SortPermutation<T>(s: seq<T>, le: (T, T) -> bool)
    ensures multiset(Sort(s, le)) == multiset(s)
  {
    if s != [] {
      SortPermutation(s[..|s| - 1], le);
      InsertLastPermutation(Sort(s[..|s| - 1], le), s[|s| - 1], le);
      assert s == s[..|s| - 1] + [s[|s| - 1]];
    }
  }

  lemma {:induction false} InsertLastSorted<T(!new)>(t: seq<T>, x: T, le: (T, T) -> bool)
    requires TotalPreorder(le) && Sorted(t, le)
    ensures Sorted(InsertLast(t, x, le), le)
  {
    if !(t == [] || le(t[|t| - 1], x)) {
      var init := t[..|t| - 1];
      InsertLastSorted(init, x, le);
      var r := InsertLast(init, x, le);
      assert le(r[|r| - 1], t[|t| - 1]);
    }
  }

  /** With a consistent comparator the output is in order. */
  lemma {:induction false} SortSorted<T(!new)>(s: seq<T>, le: (T, T) -> bool)
    requires TotalPreorder(le)
    ensures Sorted(Sort(s, le), le)
  {
    if s != [] {
      SortSorted(s[..|s| - 1], le);
      InsertLastSorted(Sort(s[..|s| - 1], le), s[|s| - 1], le);
    }
  }

  lemma {:induction false} InsertLastPeers<T(!new)>(t: seq<T>, x: T, k: T, le: (T, T) -> bool)
    requires TotalPreorder(le)
    ensures Peers(InsertLast(t, x, le), k, le) == Peers(t, k, le) + Peers([x], k, le)
  {
    PeersSnoc([], x, k, le);
    assert [] + [x] == [x];
    if t == [] || le(t[|t| - 1], x) {
      PeersSnoc(t, x, k, le);
    } else {
      var init, last := t[..|t| - 1], t[|t| - 1];
      InsertLastPeers(init, x, k, le);
      PeersSnoc(InsertLast(init, x, le), last, k, le);
      assert t == init + [last];
      PeersSnoc(init, last, k, le);
      // `x` and `last` are not both peers of `k`, or `last` would not exceed `x`.
      assert !(le(x, k) && le(k, x)) || !(le(last, k) && le(k, last));
    }
  }

  lemma {:induction false} SortPeers<T(!new)>(s: seq<T>, k: T, le: (T, T) -> bool)
    requires TotalPreorder(le)
    ensures Peers(Sort(s, le), k, le) == Peers(s, k, le)
  {
    if s != [] {
      var init, last := s[..|s| - 1], s[|s| - 1];
      SortPeers(init, k, le);
      InsertLastPeers(Sort(init, le), last, k, le);
      assert s == init + [last];
      PeersSnoc(init, last, k, le);
      PeersSnoc([], last, k, le);
      assert [] + [last] == [last];
    }
  }

  /** The sort is stable: elements that compare equal keep their input order. */
  lemma SortStable<T(!new)>(s: seq<T>, le: (T, T) -> bool)
    requires TotalPreorder(le)
    ensures StableWrt(Sort(s, le), s, le)
  {
    forall k {
      SortPeers(s, k, le);
    }
  }

  /** In a sorted sequence every element compares no later than the last one. */
  lemma {:induction false} SortedToLast<T(!new)>(r: seq<T>, le: (T, T) -> bool, i: nat)
    requires TotalPreorder(le) && Sorted(r, le) && i < |r|
    ensures le(r[i], r[|r| - 1])
    decreases |r| - i
  {
    if i < |r| - 1 {
      SortedToLast(r, le, i + 1);
      assert le(r[i], r[i + 1]);
    } else {
      assert le(r[i], r[i]);
    }
  }

  /** An element of `s` is among its own peers in `s`. */
  lemma PeerOfItself<T(!new)>(s: seq<T>, i: nat, le: (T, T) -> bool)
    requires TotalPreorder(le) && i < |s|
    ensures s[i] in Peers(s, s[i], le)
  {
    assert le(s[i], s[i]);
  }

  /** Appending one element appends its peers, if any. */
  lemma PeersSnoc<T(!new)>(init: seq<T>, x: T, k: T, le: (T, T) -> bool)
    ensures Peers(init + [x], k, le) == Peers(init, k, le) + (if le(x, k) && le(k, x) then [x] else [])
  {
    FilterAppend(init, [x], y => le(y, k) && le(k, y));
    assert [x][1..] == [];
  }

  /** In a sorted sequence, an element that is a peer of its own in another
      sequence with the same peers compares no later than the last element. */
  lemma BelowLast<T(!new)>(r1: seq<T>, r2: seq<T>, le: (T, T) -> bool)
    requires TotalPreorder(le) && Sorted(r1, le) && r1 != [] && r2 != []
    requires Peers(r1, r2[|r2| - 1], le) == Peers(r2, r2[|r2| - 1], le)
    ensures le(r2[|r2| - 1], r1[|r1| - 1])
  {
    var b := r2[|r2| - 1];
    PeerOfItself(r2, |r2| - 1, le);
    assert b in Peers(r1, b, le);
    var i :| 0 <= i < |r1| && r1[i] == b;
    SortedToLast(r1, le, i);
  }

  /** When the last element of `r` is a peer of `k`, it is also the last of those peers. */
  lemma LastPeer<T(!new)>(r: seq<T>, k: T, le: (T, T) -> bool)
    requires r != [] && le(r[|r| - 1], k) && le(k, r[|r| - 1])
    ensures Peers(r, k, le) != [] && Peers(r, k, le)[|Peers(r, k, le)| - 1] == r[|r| - 1]
  {
    assert r == r[..|r| - 1] + [r[|r| - 1]];
    PeersSnoc(r[..|r| - 1], r[|r| - 1], k, le);
  }

  /** Two sorted non-empty sequences with the same peers end in the same element. */
  lemma LastsAgree<T(!new)>(r1: seq<T>, r2: seq<T>, le: (T, T) -> bool)
    requires TotalPreorder(le) && Sorted(r1, le) && Sorted(r2, le) && r1 != [] && r2 != []
    requires Peers(r1, r1[|r1| - 1], le) == Peers(r2, r1[|r1| - 1], le)
    requires Peers(r1, r2[|r2| - 1], le) == Peers(r2, r2[|r2| - 1], le)
    ensures r1[|r1| - 1] == r2[|r2| - 1]
  {
    var a := r1[|r1| - 1];
    BelowLast(r1, r2, le);
    BelowLast(r2, r1, le);
    assert le(a, a);
    LastPeer(r1, a, le);
    LastPeer(r2, a, le);
  }

  /** Removing the same last element keeps the peers equal. */
  lemma PeersInit<T(!new)>(init1: seq<T>, init2: seq<T>, a: T, le: (T, T) -> bool)
    requires forall k :: Peers(init1 + [a], k, le) == Peers(init2 + [a], k, le)
    ensures forall k :: Peers(init1, k, le) == Peers(init2, k, le)
  {
    forall k ensures Peers(init1, k, le) == Peers(init2, k, le) {
      PeersSnoc(init1, a, k, le);
      PeersSnoc(init2, a, k, le);
      var p1, p2 := Peers(init1, k, le), Peers(init2, k, le);
      assert |p1| == |p2|;
      assert p1 == Peers(init1 + [a], k, le)[..|p1|];
      assert p2 == Peers(init2 + [a], k, le)[..|p2|];
    }
  }

  /** Dropping the last element keeps a sequence sorted. */
  lemma SortedInit<T>(r: seq<T>, le: (T, T) -> bool)
    requires r != [] && Sorted(r, le)
    ensures Sorted(r[..|r| - 1], le)
  {
  }

  /** With the same peers, one sequence is empty only when the other is. */
  lemma EmptyPeers<T(!new)>(r1: seq<T>, r2: seq<T>, le: (T, T) -> bool)
    requires TotalPreorder(le) && (r1 == [] || r2 == [])
    requires forall k :: Peers(r1, k, le) == Peers(r2, k, le)
    ensures r1 == [] && r2 == []
  {
    if r1 != [] {
      PeerOfItself(r1, 0, le);
    } else if r2 != [] {
      PeerOfItself(r2, 0, le);
    }
  }

  /** Two sorted non-empty sequences with the same peers end alike, and what
      precedes their last elements is sorted with the same peers. */
  lemma LastStep<T(!new)>(r1: seq<T>, r2: seq<T>, init1: seq<T>, init2: seq<T>, le: (T, T) -> bool)
    requires TotalPreorder(le) && Sorted(r1, le) && Sorted(r2, le) && r1 != [] && r2 != []
    requires init1 == r1[..|r1| - 1] && init2 == r2[..|r2| - 1]
    requires forall k :: Peers(r1, k, le) == Peers(r2, k, le)
    ensures r1[|r1| - 1] == r2[|r2| - 1]
    ensures Sorted(init1, le) && Sorted(init2, le)
    ensures forall k :: Peers(init1, k, le) == Peers(init2, k, le)
  {
    var a, b := r1[|r1| - 1], r2[|r2| - 1];
    assert Peers(r1, a, le) == Peers(r2, a, le);
    assert Peers(r1, b, le) == Peers(r2, b, le);
    LastsAgree(r1, r2, le);
    assert r1 == init1 + [a] && r2 == init2 + [a];
    PeersInit(init1, init2, a, le);
    SortedInit(r1, le);
    SortedInit(r2, le);
  }

  /** Two sorted sequences that hold every class of equal elements in the same
      order are the same sequence. */
  lemma {:induction false} SortedPeersEqual<T(!new)>(r1: seq<T>, r2: seq<T>, le: (T, T) -> bool)
    requires TotalPreorder(le) && Sorted(r1, le) && Sorted(r2, le)
    requires forall k :: Peers(r1, k, le) == Peers(r2, k, le)
    ensures r1 == r2
    decreases |r1| + |r2|
  {
    if r1 == [] || r2 == [] {
      EmptyPeers(r1, r2, le);
    } else {
      var init1, init2 := r1[..|r1| - 1], r2[..|r2| - 1];
      LastStep(r1, r2, init1, init2, le);
      SortedPeersEqual(init1, init2, le);
      assert r1 == init1 + [r1[|r1| - 1]];
    }
  }

  /** A stable sort's output is determined by its comparator: any sorted
      sequence that keeps every class of equal elements of `s` in input order
      is `Sort(s, le)`. So the insertion sort gives the same output as any
      stable sort, the library's included. */
  lemma SortUnique<T(!new)>(s: seq<T>, r: seq<T>, le: (T, T) -> bool)
    requires TotalPreorder(le) && Sorted(r, le) && StableWrt(r, s, le)
    ensures r == Sort(s, le)
  {
    SortSorted(s, le);
    SortStable(s, le);
    SortedPeersEqual(r, Sort(s, le), le);
  }

  /** Passing one more element that compares greater than `x` moves it after `x`. */
  lemma InsertLastStep<T>(t: seq<T>, j: nat, x: T, le: (T, T) -> bool)
    requires 0 < j <= |t| && !le(t[j - 1], x)
    ensures InsertLast(t[..j], x, le) + t[j..] == InsertLast(t[..j - 1], x, le) + t[j - 1..]
  {
    assert t[..j][..j - 1] == t[..j - 1];
    assert t[j - 1..] == [t[j - 1]] + t[j..];
  }

  /** Move `a[i]` left past the elements of the sorted prefix `a[..i]` that
      compare greater than it. */
  method InsertInPlace<T>(a: array<T>, i: nat, le: (T, T) -> bool)
    requires i < a.Length
    modifies a
    ensures a[..i + 1] == InsertLast(old(a[..i]), old(a[i]), le)
    ensures a[i + 1..] == old(a[i + 1..])
  {
    ghost var t := a[..i];
    var x := a[i];
    var j := i;
    while j > 0 && !le(a[j - 1], x)
      invariant 0 <= j <= i
      invariant a[..j] == t[..j] && a[j] == x && a[j + 1..i + 1] == t[j..]
      invariant a[i + 1..] == old(a[i + 1..])
      invariant InsertLast(t[..j], x, le) + t[j..] == InsertLast(t, x, le)
    {
      InsertLastStep(t, j, x, le);
      a[j] := a[j - 1];
      a[j - 1] := x;
      j := j - 1;
    }
    assert a[..i + 1] == a[..j] + [a[j]] + a[j + 1..i + 1];
  }

  /** Sorting one more element of `s` inserts it into the sorted prefix. */
  lemma SortSnoc<T>(s: seq<T>, n: nat, le: (T, T) -> bool)
    requires n < |s|
    ensures Sort(s[..n + 1], le) == InsertLast(Sort(s[..n], le), s[n], le)
  {
    assert s[..n + 1][..n] == s[..n];
  }

  /** The sort of a copied array, done in place as the library does it. */
  method SortInPlace<T>(a: array<T>, le: (T, T) -> bool)
    modifies a
    ensures a[..] == Sort(old(a[..]), le)
  {
    ghost var input := a[..];
    var i := 0;
    while i < a.Length
      invariant 0 <= i <= a.Length
      invariant a[..i] == Sort(input[..i], le)
      invariant a[i..] == input[i..]
    {
      ghost var before := a[..];
      InsertInPlace(a, i, le);
      SortSnoc(input, i, le);
      assert a[..i + 1] == InsertLast(before[..i], before[i], le);
      assert a[i + 1..] == before[i + 1..];
      i := i + 1;
    }
    assert a[..] == a[..a.Length];
    assert input == input[..a.Length];
  }
}
