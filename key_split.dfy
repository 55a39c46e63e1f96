/**
 * key_split(pred, iterable): group the elements of a finite input by the key
 * the caller's function assigns them. The source walks the input once and
 * updates a dictionary in place: the first element with a new key creates a
 * one-element list, every later one is appended to its key's list.
 */
module Grouping {

  /** The keys the input produces. */
  function KeysOf<T, K(==)>(key: T -> K, xs: seq<T>): set<K>
  {
    set i | 0 <= i < |xs| :: key(xs[i])
  }

  /** The elements of `xs` whose key is `q`, in input order. */
  function Group<T, K(==)>(key: T -> K, xs: seq<T>, q: K): (g: seq<T>)
    ensures |g| <= |xs|
    ensures forall k :: 0 <= k < |g| ==> key(g[k]) == q
  {
    if xs == [] then []
    else
      var n := |xs| - 1;
      Group(key, xs[..n], q) + (if key(xs[n]) == q then [xs[n]] else [])
  }

  /** Reference definition of the dictionary key_split returns. */
  function Grouped<T, K(==)>(key: T -> K, xs: seq<T>): map<K, seq<T>>
  {
    map q | q in KeysOf(key, xs) :: Group(key, xs, q)
  }

  /** Where the i-th input lands inside its key's list: the number of earlier inputs with the same key. */
  function GroupIndex<T, K(==)>(key: T -> K, xs: seq<T>, i: nat): nat
    requires i < |xs|
  {
    |Group(key, xs[..i], key(xs[i]))|
  }

  /** The sum of the lengths of all lists of a dictionary. */
  ghost function TotalSize<K, T>(m: map<K, seq<T>>): nat
    decreases m.Keys
  {
    if m.Keys == {} then 0
    else
      var k :| k in m.Keys;
      |m[k]| + TotalSize(m - {k})
  }

  /** Grouping distributes over concatenation of inputs. */
  lemma {:induction false} GroupAppend<T, K>(key: T -> K, xs: seq<T>, ys: seq<T>, q: K)
    ensures Group(key, xs + ys, q) == Group(key, xs, q) + Group(key, ys, q)
  {
    if ys == [] {
      assert xs + ys == xs;
    } else {
      var n := |ys| - 1;
      assert (xs + ys)[..|xs| + n] == xs + ys[..n];
      assert (xs + ys)[|xs| + n] == ys[n];
      GroupAppend(key, xs, ys[..n], q);
    }
  }

  /** A key that no input produces has an empty group, and a produced key a non-empty one. */
  lemma {:induction false} GroupEmptyIff<T, K>(key: T -> K, xs: seq<T>, q: K)
    ensures Group(key, xs, q) == [] <==> q !in KeysOf(key, xs)
  {
    if xs != [] {
      var n := |xs| - 1;
      GroupEmptyIff(key, xs[..n], q);
      assert forall i :: 0 <= i < n ==> xs[..n][i] == xs[i];
      if q in KeysOf(key, xs) && key(xs[n]) != q {
        var i :| 0 <= i < |xs| && key(xs[i]) == q;
        assert q in KeysOf(key, xs[..n]) by { assert key(xs[..n][i]) == q; }
      }
    }
  }

  /**
   * One iteration of the source loop: adding an element either appends it to
   * its key's existing list or creates a one-element list for a new key, and
   * leaves every other key's list as it was.
   */
  lemma GroupedStep<T, K>(key: T -> K, xs: seq<T>, x: T)
    ensures var bag := Grouped(key, xs);
      Grouped(key, xs + [x]) ==
        if key(x) in bag then bag[key(x) := bag[key(x)] + [x]] else bag[key(x) := [x]]
  {
    var ys := xs + [x];
    var k := key(x);
    var bag := Grouped(key, xs);
    var updated := if k in bag then bag[k := bag[k] + [x]] else bag[k := [x]];
    assert ys[..|xs|] == xs;
    assert KeysOf(key, ys) == KeysOf(key, xs) + {k} by {
      assert forall i :: 0 <= i < |xs| ==> ys[i] == xs[i];
      assert ys[|xs|] == x;
    }
    GroupEmptyIff(key, xs, k);
    forall q | q in KeysOf(key, ys)
      ensures Grouped(key, ys)[q] == updated[q]
    {
      assert Group(key, ys, q) == Group(key, xs, q) + (if k == q then [x] else []);
    }
  }

  /** key_split as the source writes it: one pass, updating the dictionary in place. */
  method KeySplit<T, K(==)>(key: T -> K, xs: seq<T>) returns (bag: map<K, seq<T>>)
    ensures bag == Grouped(key, xs)
  {
    bag := map[];
    for i := 0 to |xs|
      invariant bag == Grouped(key, xs[..i])
    {
      assert xs[..i + 1] == xs[..i] + [xs[i]];
      var x := xs[i];
      var k := key(x);
      ghost var done, before := xs[..i], bag;
      GroupedStep(key, done, x);
      if k in bag {
        bag := bag[k := bag[k] + [x]];
      } else {
        bag := bag[k := [x]];
      }
      assert bag == if k in before then before[k := before[k] + [x]] else before[k := [x]];
    }
    assert xs[..|xs|] == xs;
  }

  /**
   * The dictionary has exactly one key per key value the input produces, its
   * lists are never empty, and every element of the list under `q` has key `q`.
   */
  lemma KeySplitKeys<T, K>(key: T -> K, xs: seq<T>, q: K)
    ensures q in Grouped(key, xs) <==> exists i :: 0 <= i < |xs| && key(xs[i]) == q
    ensures q in Grouped(key, xs) ==> Grouped(key, xs)[q] != []
    ensures q in Grouped(key, xs) ==> forall k :: 0 <= k < |Grouped(key, xs)[q]| ==> key(Grouped(key, xs)[q][k]) == q
  {
    GroupEmptyIff(key, xs, q);
  }

  /** Every input element is stored in its key's list, at its GroupIndex. */
  lemma {:induction false} KeySplitPlacesEach<T, K>(key: T -> K, xs: seq<T>, i: nat)
    requires i < |xs|
    ensures key(xs[i]) in Grouped(key, xs)
    ensures GroupIndex(key, xs, i) < |Grouped(key, xs)[key(xs[i])]|
    ensures Grouped(key, xs)[key(xs[i])][GroupIndex(key, xs, i)] == xs[i]
  {
    var q := key(xs[i]);
    assert q in KeysOf(key, xs);
    assert xs == xs[..i + 1] + xs[i + 1..];
    GroupAppend(key, xs[..i + 1], xs[i + 1..], q);
    assert xs[..i + 1][..i] == xs[..i];
  }

  /**
   * The lists preserve input order: if the i-th input precedes the j-th and
   * both have the same key, the i-th comes first in that key's list.
   */
  lemma {:induction false} KeySplitPreservesOrder<T, K>(key: T -> K, xs: seq<T>, i: nat, j: nat)
    requires i < j < |xs| && key(xs[i]) == key(xs[j])
    ensures GroupIndex(key, xs, i) < GroupIndex(key, xs, j)
    ensures var q := key(xs[i]);
      && q in Grouped(key, xs)
      && GroupIndex(key, xs, j) < |Grouped(key, xs)[q]|
      && Grouped(key, xs)[q][GroupIndex(key, xs, i)] == xs[i]
      && Grouped(key, xs)[q][GroupIndex(key, xs, j)] == xs[j]
  {
    KeySplitPlacesEach(key, xs, i);
    KeySplitPlacesEach(key, xs, j);
    var q := key(xs[i]);
    assert xs[..j] == xs[..i + 1] + xs[i + 1..j];
    GroupAppend(key, xs[..i + 1], xs[i + 1..j], q);
    assert xs[..i + 1][..i] == xs[..i];
  }

  /** Removing one key removes exactly its list's length from the total. */
  lemma {:induction false} TotalSizeRemove<K, T>(m: map<K, seq<T>>, k: K)
    requires k in m
    ensures TotalSize(m) == |m[k]| + TotalSize(m - {k})
    decreases m.Keys
  {
    var j :| j in m.Keys && TotalSize(m) == |m[j]| + TotalSize(m - {j});
    if j != k {
      var mj, mk := m - {j}, m - {k};
      TotalSizeRemove(mj, k);
      TotalSizeRemove(mk, j);
      assert mj - {k} == mk - {j};
    }
  }

  /** Replacing the list under one key changes the total by the difference in length. */
  lemma TotalSizeUpdate<K, T>(m: map<K, seq<T>>, k: K, v: seq<T>)
    ensures TotalSize(m[k := v]) + (if k in m then |m[k]| else 0) == TotalSize(m) + |v|
  {
    var m' := m[k := v];
    TotalSizeRemove(m', k);
    assert m' - {k} == m - {k};
    if k in m {
      TotalSizeRemove(m, k);
    } else {
      assert m - {k} == m;
    }
  }

  /** Every input element is stored exactly once: the list lengths add up to the input length. */
  lemma {:induction false} KeySplitTotal<T, K>(key: T -> K, xs: seq<T>)
    ensures TotalSize(Grouped(key, xs)) == |xs|
  {
    if xs == [] {
      assert Grouped(key, xs) == map[];
    } else {
      var n := |xs| - 1;
      var front := xs[..n];
      var x := xs[n];
      assert xs == front + [x];
      var bag := Grouped(key, front);
      var k := key(x);
      GroupedStep(key, front, x);
      KeySplitTotal(key, front);
      if k in bag {
        TotalSizeUpdate(bag, k, bag[k] + [x]);
      } else {
        TotalSizeUpdate(bag, k, [x]);
      }
    }
  }

  /** Worked example: grouping 1..5 by parity. */
  function Parity(x: int): int
  {
    x % 2
  }

  lemma ParityExample()
    ensures Grouped(Parity, [1, 2, 3, 4, 5]) == map[1 := [1, 3, 5], 0 := [2, 4]]
  {
    var xs := [1, 2, 3, 4, 5];
    ParityKeys();
    ParityGroups();
    var g := Grouped(Parity, xs);
    assert g.Keys == {0, 1};
    assert g[1] == [1, 3, 5] && g[0] == [2, 4];
  }

  lemma ParityKeys()
    ensures KeysOf(Parity, [1, 2, 3, 4, 5]) == {0, 1}
  {
    var xs := [1, 2, 3, 4, 5];
    assert Parity(xs[0]) == 1 && Parity(xs[1]) == 0;
    forall i | 0 <= i < |xs| ensures Parity(xs[i]) in {0, 1} {
    }
  }

  lemma ParityGroups()
    ensures Group(Parity, [1, 2, 3, 4, 5], 1) == [1, 3, 5]
    ensures Group(Parity, [1, 2, 3, 4, 5], 0) == [2, 4]
  {
    var xs := [1, 2, 3, 4, 5];
    var p1, p2, p3, p4 := [1], [1, 2], [1, 2, 3], [1, 2, 3, 4];
    assert p1[..0] == [];
    assert p2[..1] == p1;
    assert p3[..2] == p2;
    assert p4[..3] == p3;
    assert xs[..4] == p4;
    assert Group(Parity, p1, 1) == [1];
    assert Group(Parity, p1, 0) == [];
    assert Group(Parity, p2, 1) == [1];
    assert Group(Parity, p2, 0) == [2];
    assert Group(Parity, p3, 1) == [1, 3];
    assert Group(Parity, p3, 0) == [2];
    assert Group(Parity, p4, 1) == [1, 3];
    assert Group(Parity, p4, 0) == [2, 4];
  }
}
