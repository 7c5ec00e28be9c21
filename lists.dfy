/**
 * The array operations the task list is built from: `Array.prototype.filter`
 * (`Keep`), `Array.prototype.splice` with its clamping of out-of-range and
 * negative start indices (`Splice`), and the move of one element to another
 * position that two splices perform, given independently by an index formula
 * (`Move`).
 */
module Lists {

  /** `a` can be obtained from `b` by deleting elements, keeping the order. */
  predicate IsSubsequence<T(==)>(a: seq<T>, b: seq<T>)
  {
    a == [] || (b != [] && ((a[0] == b[0] && IsSubsequence(a[1..], b[1..])) || IsSubsequence(a, b[1..])))
  }

  lemma {:induction false} SubsequenceRefl<T>(s: seq<T>)
    ensures IsSubsequence(s, s)
  {
    if s != [] {
      SubsequenceRefl(s[1..]);
    }
  }

  /** A subsequence holds no element more often than the sequence it came from. */
  lemma {:induction false} SubsequenceCounts<T>(a: seq<T>, b: seq<T>)
    requires IsSubsequence(a, b)
    ensures forall x :: multiset(a)[x] <= multiset(b)[x]
  {
    if a != [] {
      assert b == [b[0]] + b[1..];
      if a[0] == b[0] && IsSubsequence(a[1..], b[1..]) {
        SubsequenceCounts(a[1..], b[1..]);
        assert a == [a[0]] + a[1..];
      } else {
        SubsequenceCounts(a, b[1..]);
      }
    }
  }

  /** `Array.prototype.filter`: the elements satisfying `p`, in their order. */
  function Keep<T(==,!new)>(s: seq<T>, p: T -> bool): (r: seq<T>)
    ensures |r| <= |s|
    ensures IsSubsequence(r, s)
    ensures forall x :: x in r ==> p(x)
    ensures forall x :: x in s && p(x) ==> x in r
    ensures forall x :: multiset(r)[x] == if p(x) then multiset(s)[x] else 0
  {
    if s == [] then []
    else
      assert s == [s[0]] + s[1..];
      if p(s[0]) then [s[0]] + Keep(s[1..], p) else Keep(s[1..], p)
  }

  /**
   * The contract of `Keep` pins down its result: any subsequence holding
   * exactly the elements that satisfy `p` is `Keep(s, p)`.
   */
  lemma {:induction false} KeepUnique<T(!new)>(s: seq<T>, p: T -> bool, r: seq<T>)
    requires IsSubsequence(r, s)
    requires forall x :: multiset(r)[x] == if p(x) then multiset(s)[x] else 0
    ensures r == Keep(s, p)
  {
    if s == [] {
      assert multiset(r) == multiset{};
    } else {
      var h, t := s[0], s[1..];
      assert s == [h] + t;
      if p(h) {
        assert multiset(r)[h] == multiset(s)[h] > multiset(t)[h];
        if r == [] {
          assert false;
        } else if r[0] == h && IsSubsequence(r[1..], t) {
          assert r == [r[0]] + r[1..];
          KeepUnique(t, p, r[1..]);
        } else {
          SubsequenceCounts(r, t);
          assert false;
        }
      } else {
        assert r != [] ==> r[0] in multiset(r);
        assert r == [] || IsSubsequence(r, t);
        KeepUnique(t, p, r);
      }
    }
  }

  /** Filtering a two-element list, spelled out. */
  lemma KeepPair<T(!new)>(a: T, b: T, p: T -> bool)
    ensures Keep([a, b], p) == (if p(a) then [a] else []) + (if p(b) then [b] else [])
  {
    assert [a, b][1..] == [b] && [b][1..] == [];
  }

  /** Filtering by a predicate that every element satisfies changes nothing. */
  lemma {:induction false} KeepAll<T(!new)>(s: seq<T>, p: T -> bool)
    requires forall k :: 0 <= k < |s| ==> p(s[k])
    ensures Keep(s, p) == s
  {
    if s != [] {
      KeepAll(s[1..], p);
    }
  }

  /** Filtering twice is filtering once by the conjunction. */
  lemma {:induction false} KeepKeep<T(!new)>(s: seq<T>, p: T -> bool, q: T -> bool, pq: T -> bool)
    requires forall x :: pq(x) == (p(x) && q(x))
    ensures Keep(Keep(s, p), q) == Keep(s, pq)
  {
    if s != [] {
      KeepKeep(s[1..], p, q, pq);
    }
  }

  /** An element failing `p` is dropped, so the filter comes out shorter. */
  lemma {:induction false} KeepDropsFailing<T(!new)>(s: seq<T>, p: T -> bool, k: nat)
    requires k < |s| && !p(s[k])
    ensures |Keep(s, p)| < |s|
  {
    KeepLengthCons(s, p);
    if k > 0 {
      assert s[1..][k - 1] == s[k];
      KeepDropsFailing(s[1..], p, k - 1);
    }
  }

  /** The filter keeps every element exactly when all of them satisfy `p`. */
  lemma KeepKeepsLength<T(!new)>(s: seq<T>, p: T -> bool)
    ensures |Keep(s, p)| == |s| <==> forall k :: 0 <= k < |s| ==> p(s[k])
  {
    if forall k :: 0 <= k < |s| ==> p(s[k]) {
      KeepAll(s, p);
    } else {
      var k :| 0 <= k < |s| && !p(s[k]);
      KeepDropsFailing(s, p, k);
    }
  }

  /** The filter keeps the head or not, and filters the tail. */
  lemma KeepLengthCons<T(!new)>(s: seq<T>, p: T -> bool)
    requires s != []
    ensures |Keep(s, p)| == (if p(s[0]) then 1 else 0) + |Keep(s[1..], p)|
  {
  }

  /** The filter drops every element exactly when none of them satisfies `p`. */
  lemma {:induction false} KeepEmpty<T(!new)>(s: seq<T>, p: T -> bool)
    ensures Keep(s, p) == [] <==> forall k :: 0 <= k < |s| ==> !p(s[k])
  {
    if s != [] {
      KeepEmpty(s[1..], p);
      assert forall k :: 1 <= k < |s| ==> s[k] == s[1..][k - 1];
    }
  }

  /** The position at which `Array.prototype.splice` starts for a given `start`. */
  function SpliceStart(start: int, len: nat): (k: nat)
    ensures k <= len
  {
    if start < 0 then (if len + start < 0 then 0 else len + start)
    else if start > len then len
    else start
  }

  /** How many elements `splice` deletes when `available` follow the start. */
  function SpliceCount(deleteCount: int, available: nat): (n: nat)
    ensures n <= available
    ensures 0 <= deleteCount <= available ==> n == deleteCount
  {
    if deleteCount < 0 then 0 else if deleteCount > available then available else deleteCount
  }

  /**
   * `Array.prototype.splice(start, deleteCount, ...items)` on a copy of `s`:
   * the array afterwards and the array of the deleted elements.
   */
  function Splice<T>(s: seq<T>, start: int, deleteCount: int, items: seq<T>): (r: (seq<T>, seq<T>))
    ensures var k := SpliceStart(start, |s|);
      && |r.1| == SpliceCount(deleteCount, |s| - k)
      && r.1 == s[k..k + |r.1|]
    ensures var k := SpliceStart(start, |s|);
      && |r.0| == |s| - |r.1| + |items|
      && r.0[..k] == s[..k]
      && r.0[k..k + |items|] == items
      && r.0[k + |items|..] == s[k + |r.1|..]
    ensures multiset(r.0) + multiset(r.1) == multiset(s) + multiset(items)
  {
    var k := SpliceStart(start, |s|);
    var n := SpliceCount(deleteCount, |s| - k);
    var before, removed, after := s[..k], s[k..k + n], s[k + n..];
    assert multiset(before + items + after) + multiset(removed) == multiset(s) + multiset(items) by {
      assert s == before + removed + after;
    }
    (before + items + after, removed)
  }

  /** `splice` with a start index behaves as with the position that start clamps to. */
  lemma SpliceAtStart<T>(s: seq<T>, start: int, deleteCount: int, items: seq<T>)
    ensures Splice(s, start, deleteCount, items) == Splice(s, SpliceStart(start, |s|), deleteCount, items)
  {
  }

  /** Removing the element at `i` and putting it back at `i` restores `s`. */
  lemma SpliceRoundTrip<T>(s: seq<T>, i: nat)
    requires i < |s|
    ensures Splice(s, i, 1, []).1 == [s[i]]
    ensures Splice(Splice(s, i, 1, []).0, i, 0, [s[i]]).0 == s
  {
    assert s == s[..i] + [s[i]] + s[i + 1..];
  }

  /** `s` without the element at index `i`. */
  function RemoveAt<T>(s: seq<T>, i: nat): (r: seq<T>)
    requires i < |s|
    ensures |r| == |s| - 1
    ensures forall k :: 0 <= k < i ==> r[k] == s[k]
    ensures forall k :: i <= k < |r| ==> r[k] == s[k + 1]
  {
    s[..i] + s[i + 1..]
  }

  /** Removing behind the head keeps the head in front. */
  lemma RemoveAtCons<T>(s: seq<T>, i: nat)
    requires i + 1 < |s|
    ensures RemoveAt(s, i + 1) == [s[0]] + RemoveAt(s[1..], i)
  {
    assert s[..i + 1] == [s[0]] + s[1..][..i];
    assert s[i + 2..] == s[1..][i + 1..];
  }

  /**
   * Where the element at index `k` of a list came from, once the element at
   * `from` has been moved to `to` (positions in between shift by one).
   */
  function MoveSource(n: nat, from: nat, to: nat, k: nat): (j: nat)
    requires from < n && to < n && k < n
    ensures j < n
  {
    if k == to then from
    else if from < to && from <= k < to then k + 1
    else if to < from && to < k <= from then k - 1
    else k
  }

  /** Different positions come from different positions. */
  lemma MoveSourceInjective(n: nat, from: nat, to: nat, k1: nat, k2: nat)
    requires from < n && to < n && k1 < n && k2 < n && k1 != k2
    ensures MoveSource(n, from, to, k1) != MoveSource(n, from, to, k2)
  {
  }

  /** `s` with its element at `from` moved to index `to`: a move, not a swap. */
  function Move<T>(s: seq<T>, from: nat, to: nat): (r: seq<T>)
    requires from < |s| && to < |s|
    ensures |r| == |s|
  {
    seq(|s|, k requires 0 <= k < |s| => s[MoveSource(|s|, from, to, k)])
  }

  /** The moved element lands at the target index. */
  lemma MoveLandsAtTarget<T>(s: seq<T>, from: nat, to: nat)
    requires from < |s| && to < |s|
    ensures Move(s, from, to)[to] == s[from]
  {
  }

  /** Apart from the moved element, every element keeps its relative order. */
  lemma MoveKeepsOthersInOrder<T>(s: seq<T>, from: nat, to: nat)
    requires from < |s| && to < |s|
    ensures RemoveAt(Move(s, from, to), to) == RemoveAt(s, from)
  {
  }

  /** Moving an element onto its own position changes nothing. */
  lemma MoveToSelf<T>(s: seq<T>, i: nat)
    requires i < |s|
    ensures Move(s, i, i) == s
  {
  }

  /** Deleting one element with `splice` at an index in range is `RemoveAt`. */
  lemma SpliceRemovesAt<T>(s: seq<T>, i: nat)
    requires i < |s|
    ensures Splice(s, i, 1, []) == (RemoveAt(s, i), [s[i]])
  {
    var r := Splice(s, i, 1, []);
    assert SpliceStart(i, |s|) == i && SpliceCount(1, |s| - i) == 1;
    assert r.1 == s[i..i + 1] == [s[i]];
    assert r.0 == r.0[..i] + r.0[i..];
  }

  /** Inserting one element with `splice` at an index in range. */
  lemma SpliceInsertsAt<T>(s: seq<T>, i: nat, x: T)
    requires i <= |s|
    ensures Splice(s, i, 0, [x]).0 == s[..i] + [x] + s[i..]
  {
    var r := Splice(s, i, 0, [x]).0;
    assert r == r[..i] + r[i..i + 1] + r[i + 1..];
  }

  /** A move is what removing with one splice and reinserting with another does. */
  lemma MoveIsTwoSplices<T>(s: seq<T>, from: nat, to: nat)
    requires from < |s| && to < |s|
    ensures Splice(s, from, 1, []).1 == [s[from]]
    ensures Splice(Splice(s, from, 1, []).0, to, 0, [s[from]]).0 == Move(s, from, to)
  {
    SpliceRemovesAt(s, from);
    SpliceInsertsAt(RemoveAt(s, from), to, s[from]);
    ReinsertIsMove(s, from, to);
  }

  /** Removing the element at `from` and inserting it again at `to` is `Move`. */
  lemma ReinsertIsMove<T>(s: seq<T>, from: nat, to: nat)
    requires from < |s| && to < |s|
    ensures var rest := RemoveAt(s, from);
      rest[..to] + [s[from]] + rest[to..] == Move(s, from, to)
  {
    var rest := RemoveAt(s, from);
    var r := rest[..to] + [s[from]] + rest[to..];
    forall k | 0 <= k < |s|
      ensures r[k] == Move(s, from, to)[k]
    {
      if k < to {
        assert r[k] == rest[k];
      } else if k > to {
        assert r[k] == rest[k - 1];
      }
    }
  }

  /** A move is a permutation. */
  lemma MovePermutes<T>(s: seq<T>, from: nat, to: nat)
    requires from < |s| && to < |s|
    ensures multiset(Move(s, from, to)) == multiset(s)
  {
    MoveIsTwoSplices(s, from, to);
    var (rest, removed) := Splice(s, from, 1, []);
    assert multiset(rest) + multiset(removed) == multiset(s);
    assert multiset(Splice(rest, to, 0, removed).0) == multiset(rest) + multiset(removed);
  }
}
