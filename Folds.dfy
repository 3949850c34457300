/**
  Sums over sequences and per-key tallies, folded from the left exactly as a
  JavaScript `forEach` accumulator visits its list. Every view of the injury
  board builds its figures with one of these shapes.
 */
module Folds {

  /** `f` summed over `s`, adding elements in list order. */
  function SumOf<T>(s: seq<T>, f: T -> int): int
  {
    if s == [] then 0 else SumOf(s[..|s| - 1], f) + f(s[|s| - 1])
  }

  lemma {:induction false} SumAppend<T>(a: seq<T>, b: seq<T>, f: T -> int)
    ensures SumOf(a + b, f) == SumOf(a, f) + SumOf(b, f)
    decreases |b|
  {
    if b == [] {
      assert a + b == a;
    } else {
      assert (a + b)[..|a + b| - 1] == a + b[..|b| - 1];
      SumAppend(a, b[..|b| - 1], f);
    }
  }

  /** A sum does not depend on the order of the list it runs over. */
  lemma {:induction false} SumPermutation<T>(a: seq<T>, b: seq<T>, f: T -> int)
    requires multiset(a) == multiset(b)
    ensures SumOf(a, f) == SumOf(b, f)
    decreases |a|
  {
    if a == [] {
      assert |b| == |multiset(b)| == 0;
    } else {
      var x := a[0];
      assert x in multiset(b);
      var i :| 0 <= i < |b| && b[i] == x;
      var rest := b[..i] + b[i + 1..];
      assert b == b[..i] + [x] + b[i + 1..];
      assert a == [x] + a[1..];
      assert multiset(a) == multiset{x} + multiset(a[1..]);
      assert multiset(b) == multiset(b[..i]) + multiset{x} + multiset(b[i + 1..]);
      assert multiset(rest) == multiset(b[..i]) + multiset(b[i + 1..]);
      forall y ensures multiset(a[1..])[y] == multiset(rest)[y] {
        assert multiset(a)[y] == multiset(b)[y];
      }
      assert multiset(a[1..]) == multiset(rest);
      SumPermutation(a[1..], rest, f);
      SumAppend([x], a[1..], f);
      SumAppend(b[..i] + [x], b[i + 1..], f);
      SumAppend(b[..i], [x], f);
      SumAppend(b[..i], b[i + 1..], f);
      assert SumOf([x], f) == f(x) by {
        assert [x][..0] == [];
      }
    }
  }

  lemma {:induction false} SumNonNegative<T>(s: seq<T>, f: T -> int)
    requires forall i :: 0 <= i < |s| ==> f(s[i]) >= 0
    ensures SumOf(s, f) >= 0
  {
    if s != [] {
      SumNonNegative(s[..|s| - 1], f);
    }
  }

  /** A sum of terms each at most `c` is at most `|s| * c`. */
  lemma {:induction false} SumBound<T>(s: seq<T>, f: T -> int, c: int)
    requires forall i :: 0 <= i < |s| ==> f(s[i]) <= c
    ensures SumOf(s, f) <= |s| * c
  {
    if s != [] {
      SumBound(s[..|s| - 1], f, c);
      assert (|s| - 1) * c + c == |s| * c;
    }
  }

  /** Pointwise smaller terms give a smaller sum. */
  lemma {:induction false} SumMonotone<T>(s: seq<T>, f: T -> int, g: T -> int)
    requires forall i :: 0 <= i < |s| ==> f(s[i]) <= g(s[i])
    ensures SumOf(s, f) <= SumOf(s, g)
  {
    if s != [] {
      SumMonotone(s[..|s| - 1], f, g);
    }
  }

  /**
    The dictionary a loop of the form
      `if (counted(x)) d[key(x)] = (d[key(x)] || 0) + weight(x)`
    builds when it visits `s` in order.
   */
  function Tally<T, K(==)>(s: seq<T>, counted: T -> bool, key: T -> K, weight: T -> int): map<K, int>
  {
    if s == [] then map[]
    else
      var d := Tally(s[..|s| - 1], counted, key, weight);
      var x := s[|s| - 1];
      if counted(x) then d[key(x) := Get(d, key(x)) + weight(x)] else d
  }

  /** `d[k] || 0` for a dictionary of counts. */
  function Get<K>(d: map<K, int>, k: K): int
  {
    if k in d then d[k] else 0
  }

  /** The reference meaning of one entry: the weights of the included elements with that key. */
  function KeySum<T, K(==)>(s: seq<T>, counted: T -> bool, key: T -> K, weight: T -> int, k: K): int
  {
    if s == [] then 0
    else
      var x := s[|s| - 1];
      KeySum(s[..|s| - 1], counted, key, weight, k) + (if counted(x) && key(x) == k then weight(x) else 0)
  }

  /** The weights of all included elements, whatever their key. */
  function IncludedSum<T>(s: seq<T>, counted: T -> bool, weight: T -> int): int
  {
    if s == [] then 0
    else IncludedSum(s[..|s| - 1], counted, weight) + (if counted(s[|s| - 1]) then weight(s[|s| - 1]) else 0)
  }

  /** A key is present exactly when some included element carries it. */
  lemma {:induction false} TallyKeys<T, K>(s: seq<T>, counted: T -> bool, key: T -> K, weight: T -> int, k: K)
    ensures k in Tally(s, counted, key, weight) <==> exists i :: 0 <= i < |s| && counted(s[i]) && key(s[i]) == k
  {
    if s != [] {
      var init := s[..|s| - 1];
      TallyKeys(init, counted, key, weight, k);
      if exists i :: 0 <= i < |init| && counted(init[i]) && key(init[i]) == k {
        var i :| 0 <= i < |init| && counted(init[i]) && key(init[i]) == k;
        assert s[i] == init[i];
      }
      if exists i :: 0 <= i < |s| && counted(s[i]) && key(s[i]) == k {
        var i :| 0 <= i < |s| && counted(s[i]) && key(s[i]) == k;
        if i < |init| {
          assert init[i] == s[i];
        }
      }
    }
  }

  /** Each entry is the reference sum of its key (0 for an absent key). */
  lemma {:induction false} TallyValue<T, K>(s: seq<T>, counted: T -> bool, key: T -> K, weight: T -> int, k: K)
    ensures Get(Tally(s, counted, key, weight), k) == KeySum(s, counted, key, weight, k)
  {
    if s != [] {
      TallyValue(s[..|s| - 1], counted, key, weight, k);
    }
  }

  /** With positive weights every present entry is at least 1. */
  lemma {:induction false} TallyPositive<T, K>(s: seq<T>, counted: T -> bool, key: T -> K, weight: T -> int, k: K)
    requires forall i :: 0 <= i < |s| && counted(s[i]) ==> weight(s[i]) >= 1
    requires k in Tally(s, counted, key, weight)
    ensures Tally(s, counted, key, weight)[k] >= 1
  {
    var init := s[..|s| - 1];
    var d := Tally(init, counted, key, weight);
    var x := s[|s| - 1];
    if counted(x) && key(x) == k {
      if k in d {
        TallyNonNegative(init, counted, key, weight, k);
      }
    } else {
      TallyPositive(init, counted, key, weight, k);
    }
  }

  lemma {:induction false} TallyNonNegative<T, K>(s: seq<T>, counted: T -> bool, key: T -> K, weight: T -> int, k: K)
    requires forall i :: 0 <= i < |s| && counted(s[i]) ==> weight(s[i]) >= 0
    ensures Get(Tally(s, counted, key, weight), k) >= 0
  {
    if s != [] {
      TallyNonNegative(s[..|s| - 1], counted, key, weight, k);
    }
  }

  /** The entries of a tally add up to the weights of all included elements. */
  lemma {:induction false} TallyTotal<T, K>(s: seq<T>, counted: T -> bool, key: T -> K, weight: T -> int)
    ensures MapSum(Tally(s, counted, key, weight)) == IncludedSum(s, counted, weight)
  {
    if s != [] {
      var init := s[..|s| - 1];
      var d := Tally(init, counted, key, weight);
      var x := s[|s| - 1];
      TallyTotal(init, counted, key, weight);
      if counted(x) {
        MapSumUpdate(d, key(x), Get(d, key(x)) + weight(x));
      }
    }
  }

  /** An included sum of weights between 0 and 1 is at most the length. */
  lemma {:induction false} IncludedSumAtMostLength<T>(s: seq<T>, counted: T -> bool, weight: T -> int)
    requires forall i :: 0 <= i < |s| ==> 0 <= weight(s[i]) <= 1
    ensures 0 <= IncludedSum(s, counted, weight) <= |s|
  {
    if s != [] {
      IncludedSumAtMostLength(s[..|s| - 1], counted, weight);
    }
  }

  /** The dictionary a loop of the form `for (x of s) d[key(x)] = value(x)` builds: later writes win. */
  function Fill<T, K(==), V>(s: seq<T>, key: T -> K, value: T -> V): map<K, V>
  {
    if s == [] then map[]
    else Fill(s[..|s| - 1], key, value)[key(s[|s| - 1]) := value(s[|s| - 1])]
  }

  /** Every visited key is present, and only those. */
  lemma {:induction false} FillKeys<T, K, V>(s: seq<T>, key: T -> K, value: T -> V, k: K)
    ensures k in Fill(s, key, value) <==> exists i :: 0 <= i < |s| && key(s[i]) == k
  {
    if s != [] {
      var init := s[..|s| - 1];
      FillKeys(init, key, value, k);
      if exists i :: 0 <= i < |init| && key(init[i]) == k {
        var i :| 0 <= i < |init| && key(init[i]) == k;
        assert s[i] == init[i];
      }
      if exists i :: 0 <= i < |s| && key(s[i]) == k {
        var i :| 0 <= i < |s| && key(s[i]) == k;
        if i < |init| {
          assert init[i] == s[i];
        }
      }
    }
  }

  /** The entry of a key is the value of the last element visited with that key. */
  lemma {:induction false} FillLastWriter<T, K, V>(s: seq<T>, key: T -> K, value: T -> V, i: int)
    requires 0 <= i < |s|
    requires forall j :: i < j < |s| ==> key(s[j]) != key(s[i])
    ensures key(s[i]) in Fill(s, key, value) && Fill(s, key, value)[key(s[i])] == value(s[i])
  {
    if i < |s| - 1 {
      var init := s[..|s| - 1];
      assert init[i] == s[i];
      forall j | i < j < |init| ensures key(init[j]) != key(init[i]) {
        assert init[j] == s[j];
      }
      FillLastWriter(init, key, value, i);
    }
  }

  /** Every entry is the value of some visited element with that key. */
  lemma {:induction false} FillValueFrom<T, K, V>(s: seq<T>, key: T -> K, value: T -> V, k: K)
    requires k in Fill(s, key, value)
    ensures exists i :: 0 <= i < |s| && key(s[i]) == k && Fill(s, key, value)[k] == value(s[i])
  {
    var init := s[..|s| - 1];
    var x := s[|s| - 1];
    if key(x) == k {
      assert key(s[|s| - 1]) == k;
    } else {
      FillValueFrom(init, key, value, k);
      var i :| 0 <= i < |init| && key(init[i]) == k && Fill(init, key, value)[k] == value(init[i]);
      assert s[i] == init[i];
    }
  }

  /** The sum of all values of a dictionary. */
  ghost function MapSum<K>(d: map<K, int>): int
    decreases |d|
  {
    if d == map[] then 0
    else
      assert exists k :: k in d by {
        var k :| k in d.Keys;
      }
      var k :| k in d;
      d[k] + MapSum(d - {k})
  }

  /** MapSum may peel off any key, not only the one it chose. */
  lemma {:induction false} MapSumRemove<K>(d: map<K, int>, k: K)
    requires k in d
    ensures MapSum(d) == d[k] + MapSum(d - {k})
    decreases |d|
  {
    assert d != map[];
    var j :| j in d && MapSum(d) == d[j] + MapSum(d - {j});
    if j != k {
      var dj := d - {j};
      var dk := d - {k};
      assert |dj| < |d| && |dk| < |d| by {
        assert dj.Keys == d.Keys - {j} && dk.Keys == d.Keys - {k};
      }
      MapSumRemove(dj, k);
      MapSumRemove(dk, j);
      assert dj - {k} == dk - {j};
    }
  }

  lemma MapSumUpdate<K>(d: map<K, int>, k: K, v: int)
    ensures MapSum(d[k := v]) == MapSum(d) - Get(d, k) + v
  {
    var u := d[k := v];
    MapSumRemove(u, k);
    if k in d {
      MapSumRemove(d, k);
      assert u - {k} == d - {k};
    } else {
      assert u - {k} == d;
    }
  }

  function Cell(v: int): int
  {
    v
  }

  /** Sum of a sequence of integers, left to right. */
  function SeqSum(s: seq<int>): int
  {
    SumOf(s, Cell)
  }

  /** Adding one to a single cell adds one to the total. */
  lemma SeqSumBump(s: seq<int>, i: int)
    requires 0 <= i < |s|
    ensures SeqSum(s[i := s[i] + 1]) == SeqSum(s) + 1
  {
    var t := s[i := s[i] + 1];
    assert s == s[..i] + [s[i]] + s[i + 1..];
    assert t == s[..i] + [s[i] + 1] + s[i + 1..];
    SumAppend(s[..i] + [s[i]], s[i + 1..], Cell);
    SumAppend(s[..i], [s[i]], Cell);
    SumAppend(s[..i] + [s[i] + 1], s[i + 1..], Cell);
    SumAppend(s[..i], [s[i] + 1], Cell);
    assert [s[i]][..0] == [] && [s[i] + 1][..0] == [];
  }
}
