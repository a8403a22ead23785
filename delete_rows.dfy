/**
 * `delete_rows` from the exploratory-analysis helpers: delete, in place, the
 * rows of a list at the given positions, working from the highest position
 * down so that every deletion still finds its row where it was.
 */
module RowDeletion {

  /** A Python list of rows, changed in place by `del`. */
  class RowList<T> {
    var items: seq<T>

    constructor(items: seq<T>)
      ensures this.items == items
    {
      this.items := items;
    }

    /** `del self[index]`: a negative index counts from the end. */
    method Delete(index: int)
      requires -|items| <= index < |items|
      modifies this
      ensures var p := if index < 0 then index + |old(items)| else index;
        items == old(items)[..p] + old(items)[p + 1..]
    {
      var p := if index < 0 then index + |items| else index;
      items := items[..p] + items[p + 1..];
    }
  }

  predicate Distinct(xs: seq<int>) {
    forall i, j :: 0 <= i < j < |xs| ==> xs[i] != xs[j]
  }

  predicate NonIncreasing(xs: seq<int>) {
    forall i, j :: 0 <= i < j < |xs| ==> xs[i] >= xs[j]
  }

  predicate StrictlyDecreasing(xs: seq<int>) {
    forall i, j :: 0 <= i < j < |xs| ==> xs[i] > xs[j]
  }

  /** Insert x into a non-increasing list in front of the first element not above it. */
  function Insert(x: int, xs: seq<int>): (r: seq<int>)
    ensures multiset(r) == multiset(xs) + multiset{x}
  {
    if xs == [] then [x]
    else if x >= xs[0] then [x] + xs
    else
      assert xs == [xs[0]] + xs[1..];
      [xs[0]] + Insert(x, xs[1..])
  }

  /** Inserting a value no larger than b among values no larger than b gives values no larger than b. */
  lemma {:induction false} InsertAtMost(x: int, xs: seq<int>, b: int)
    requires x <= b && forall i :: 0 <= i < |xs| ==> xs[i] <= b
    ensures forall i :: 0 <= i < |Insert(x, xs)| ==> Insert(x, xs)[i] <= b
  {
    if xs != [] && x < xs[0] {
      InsertAtMost(x, xs[1..], b);
    }
  }

  /** Inserting into a non-increasing list keeps it non-increasing. */
  lemma {:induction false} InsertNonIncreasing(x: int, xs: seq<int>)
    requires NonIncreasing(xs)
    ensures NonIncreasing(Insert(x, xs))
  {
    if xs != [] && x < xs[0] {
      var rest := Insert(x, xs[1..]);
      InsertNonIncreasing(x, xs[1..]);
      InsertAtMost(x, xs[1..], xs[0]);
      assert Insert(x, xs) == [xs[0]] + rest;
    }
  }

  /** Inserting a new value into a strictly decreasing list keeps it strictly decreasing. */
  lemma {:induction false} InsertStrictlyDecreasing(x: int, xs: seq<int>)
    requires StrictlyDecreasing(xs) && x !in xs
    ensures StrictlyDecreasing(Insert(x, xs))
  {
    if xs != [] && x < xs[0] {
      var rest := Insert(x, xs[1..]);
      assert x !in xs[1..];
      InsertStrictlyDecreasing(x, xs[1..]);
      InsertAtMost(x, xs[1..], xs[0] - 1);
      assert Insert(x, xs) == [xs[0]] + rest;
    } else if xs != [] {
      assert x != xs[0];
    }
  }

  /** `sorted(indices, reverse=True)`: the same values, largest first. */
  function SortDescending(xs: seq<int>): (r: seq<int>)
    ensures multiset(r) == multiset(xs)
  {
    if xs == [] then []
    else
      assert xs == [xs[0]] + xs[1..];
      Insert(xs[0], SortDescending(xs[1..]))
  }

  /** The sorted list is non-increasing, and strictly decreasing when the values are distinct. */
  lemma {:induction false} SortDescendingOrdered(xs: seq<int>)
    ensures NonIncreasing(SortDescending(xs))
    ensures Distinct(xs) ==> StrictlyDecreasing(SortDescending(xs))
  {
    if xs != [] {
      var tail := xs[1..];
      SortDescendingOrdered(tail);
      InsertNonIncreasing(xs[0], SortDescending(tail));
      if Distinct(xs) {
        assert Distinct(tail) by {
          forall i, j | 0 <= i < j < |tail| ensures tail[i] != tail[j] {
            assert tail[i] == xs[i + 1] && tail[j] == xs[j + 1];
          }
        }
        assert xs[0] !in tail by {
          forall j | 0 <= j < |tail| ensures tail[j] != xs[0] {
            assert tail[j] == xs[j + 1];
          }
        }
        assert xs[0] !in multiset(SortDescending(tail));
        InsertStrictlyDecreasing(xs[0], SortDescending(tail));
      }
    }
  }

  /** The rows of s whose position is not in deleted, in their original order. */
  function Keep<T>(s: seq<T>, deleted: set<int>): seq<T>
    decreases |s|
  {
    if s == [] then []
    else
      var n := |s| - 1;
      Keep(s[..n], deleted) + if n in deleted then [] else [s[n]]
  }

  /** Deleting no position of s keeps every row. */
  lemma {:induction false} KeepNone<T>(s: seq<T>, deleted: set<int>)
    requires forall d :: d in deleted ==> d < 0 || d >= |s|
    ensures Keep(s, deleted) == s
    decreases |s|
  {
    if s != [] {
      var n := |s| - 1;
      KeepNone(s[..n], deleted);
      assert s[..n] + [s[n]] == s;
    }
  }

  /** The rows before every deleted position stay where they were. */
  lemma {:induction false} KeepBelow<T>(s: seq<T>, deleted: set<int>, p: int)
    requires 0 <= p <= |s|
    requires forall d :: d in deleted ==> d >= p
    ensures |Keep(s, deleted)| >= p && Keep(s, deleted)[..p] == s[..p]
    decreases |s|
  {
    if |s| == p {
      KeepNone(s, deleted);
    } else {
      var n := |s| - 1;
      KeepBelow(s[..n], deleted, p);
      assert s[..n][..p] == s[..p];
    }
  }

  /** When every position deleted so far lies above p, deleting the row now at
      p removes the row originally at p. */
  lemma {:induction false} DeleteBelowDeleted<T>(s: seq<T>, deleted: set<int>, p: int)
    requires 0 <= p < |s|
    requires forall d :: d in deleted ==> d > p
    ensures var kept := Keep(s, deleted);
      p < |kept| && kept[..p] + kept[p + 1..] == Keep(s, deleted + {p})
    decreases |s|
  {
    var n := |s| - 1;
    if n == p {
      KeepNone(s, deleted);
      KeepNone(s[..n], deleted + {p});
    } else {
      DeleteBelowDeleted(s[..n], deleted, p);
      var before := Keep(s[..n], deleted);
      var tail: seq<T> := if n in deleted then [] else [s[n]];
      var kept := before + tail;
      assert (before + tail)[..p] == before[..p];
      assert (before + tail)[p + 1..] == before[p + 1..] + tail;
    }
  }

  /** The positions deleted by the first k steps. */
  function DeletedSoFar(order: seq<int>, k: nat): set<int>
    requires k <= |order|
  {
    set j | 0 <= j < k :: order[j]
  }

  /** In a strictly decreasing order, every position deleted before step k lies above the one deleted at step k. */
  lemma EarlierDeletionsAbove(order: seq<int>, k: nat)
    requires StrictlyDecreasing(order) && k < |order|
    ensures forall d :: d in DeletedSoFar(order, k) ==> d > order[k]
    ensures DeletedSoFar(order, k + 1) == DeletedSoFar(order, k) + {order[k]}
  {
  }

  /** A permutation of `indices` lists the same positions, each within the list when those of `indices` are. */
  lemma SamePositions(order: seq<int>, indices: seq<int>, size: int)
    requires multiset(order) == multiset(indices)
    requires forall k :: 0 <= k < |indices| ==> 0 <= indices[k] < size
    ensures |order| == |indices|
    ensures forall j :: 0 <= j < |order| ==> 0 <= order[j] < size
    ensures DeletedSoFar(order, |order|) == set k | 0 <= k < |indices| :: indices[k]
  {
    assert |multiset(order)| == |multiset(indices)|;
    forall j | 0 <= j < |order| ensures 0 <= order[j] < size {
      assert order[j] in multiset(indices);
    }
    forall x ensures x in DeletedSoFar(order, |order|) <==> x in multiset(order) {
    }
    forall x ensures x in multiset(indices) <==> x in set k | 0 <= k < |indices| :: indices[k] {
    }
  }

  /** `delete_rows(dataset, indices)`: delete the rows at `indices`, highest
      position first, and return the same list. The survivors are the rows
      whose position was not given, in their original order. */
  method DeleteRows<T>(dataset: RowList<T>, indices: seq<int>) returns (result: RowList<T>)
    requires forall k :: 0 <= k < |indices| ==> 0 <= indices[k] < |dataset.items|
    requires Distinct(indices)
    modifies dataset
    ensures result == dataset
    ensures dataset.items == Keep(old(dataset.items), set k | 0 <= k < |indices| :: indices[k])
    ensures |dataset.items| == |old(dataset.items)| - |indices|
  {
    ghost var original := dataset.items;
    var order := SortDescending(indices);
    SortDescendingOrdered(indices);
    SamePositions(order, indices, |original|);
    assert DeletedSoFar(order, 0) == {};
    KeepNone(original, {});
    for k := 0 to |order|
      invariant dataset.items == Keep(original, DeletedSoFar(order, k))
      invariant |dataset.items| == |original| - k
    {
      var index := order[k];
      EarlierDeletionsAbove(order, k);
      DeleteBelowDeleted(original, DeletedSoFar(order, k), index);
      dataset.Delete(index);
    }
    return dataset;
  }
}
