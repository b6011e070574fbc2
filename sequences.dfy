/**
 * Facts about sequences of characters (or any values) that the generator
 * relies on: distinctness, the set of elements, and the two list
 * comprehensions of the source, `set(...)` read back as a list and
 * `[c for c in xs if c not in excluded]`.
 */
module Sequences {

  /** No value occurs at two positions. */
  predicate Distinct<T(==)>(s: seq<T>) {
    forall i, j :: 0 <= i < j < |s| ==> s[i] != s[j]
  }

  /** The set of values occurring in `s`. */
  ghost function Elems<T>(s: seq<T>): set<T> {
    set x | x in s
  }

  lemma DistinctCons<T>(s: seq<T>)
    requires |s| > 0
    ensures Distinct(s) <==> s[0] !in s[1..] && Distinct(s[1..])
  {
    if s[0] !in s[1..] && Distinct(s[1..]) {
      forall i, j | 0 <= i < j < |s| ensures s[i] != s[j] {
        if i > 0 {
          assert s[i] == s[1..][i - 1] && s[j] == s[1..][j - 1];
        } else {
          assert s[j] == s[1..][j - 1];
        }
      }
    }
    if Distinct(s) {
      forall i, j | 0 <= i < j < |s| - 1 ensures s[1..][i] != s[1..][j] {
        assert s[1..][i] == s[i + 1] && s[1..][j] == s[j + 1];
      }
    }
  }

  lemma DistinctConcat<T>(a: seq<T>, b: seq<T>)
    requires Distinct(a) && Distinct(b)
    requires forall x :: x in a ==> x !in b
    ensures Distinct(a + b)
  {
    var s := a + b;
    forall i, j | 0 <= i < j < |s| ensures s[i] != s[j] {
      if j < |a| {
        assert s[i] == a[i] && s[j] == a[j];
      } else if i >= |a| {
        assert s[i] == b[i - |a|] && s[j] == b[j - |a|];
      } else {
        assert s[i] == a[i] && s[j] == b[j - |a|];
        assert a[i] in a;
      }
    }
  }

  /**
   * A sequence has at most as many distinct values as positions, and
   * exactly as many precisely when it is duplicate-free.
   */
  lemma {:induction false} ElemsCard<T>(s: seq<T>)
    ensures |Elems(s)| <= |s|
    ensures |Elems(s)| == |s| <==> Distinct(s)
  {
    if s == [] {
      assert Elems(s) == {};
    } else {
      ElemsCard(s[1..]);
      DistinctCons(s);
      assert Elems(s) == {s[0]} + Elems(s[1..]);
      if s[0] in s[1..] {
        assert Elems(s) == Elems(s[1..]);
      }
    }
  }

  /** Pigeonhole: a duplicate-free sequence drawn from `pool` is no longer than `pool`. */
  lemma DistinctWithin<T>(s: seq<T>, pool: seq<T>)
    requires Distinct(s)
    requires forall x :: x in s ==> x in pool
    ensures |s| <= |pool|
  {
    ElemsCard(s);
    ElemsCard(pool);
    var e, p := Elems(s), Elems(pool);
    assert e <= p;
    assert p == e + (p - e);
    assert e !! (p - e);
  }

  /** Reordering a sequence keeps it duplicate-free. */
  lemma PermutationKeepsDistinct<T>(s: seq<T>, t: seq<T>)
    requires multiset(s) == multiset(t)
    requires Distinct(s)
    ensures Distinct(t)
  {
    assert |s| == |multiset(s)| == |multiset(t)| == |t|;
    assert forall x :: x in s <==> x in multiset(s);
    assert forall x :: x in t <==> x in multiset(t);
    assert Elems(s) == Elems(t);
    ElemsCard(s);
    ElemsCard(t);
  }

  /**
   * The list comprehension `[x for x in s if x not in excluded]`: the
   * elements of `s`, in order, that do not occur in `excluded`.
   */
  function Without<T(==,!new)>(s: seq<T>, excluded: seq<T>): (r: seq<T>)
    ensures forall x :: x in r <==> x in s && x !in excluded
    ensures |r| <= |s|
    ensures Distinct(s) ==> Distinct(r)
  {
    if s == [] then []
    else
      var rest := Without(s[1..], excluded);
      DistinctCons(s);
      if s[0] in excluded then rest
      else
        DistinctCons([s[0]] + rest);
        assert ([s[0]] + rest)[1..] == rest;
        [s[0]] + rest
  }

  lemma {:induction false} WithoutConcat<T(!new)>(a: seq<T>, b: seq<T>, excluded: seq<T>)
    ensures Without(a + b, excluded) == Without(a, excluded) + Without(b, excluded)
  {
    if a != [] {
      assert (a + b)[1..] == a[1..] + b;
      WithoutConcat(a[1..], b, excluded);
    } else {
      assert a + b == b;
    }
  }

  lemma {:induction false} WithoutDisjoint<T(!new)>(s: seq<T>, excluded: seq<T>)
    requires forall x :: x in s ==> x !in excluded
    ensures Without(s, excluded) == s
  {
    if s != [] {
      assert s[0] in s;
      assert forall x :: x in s[1..] ==> x in s;
      WithoutDisjoint(s[1..], excluded);
      assert s == [s[0]] + s[1..];
    }
  }

  lemma {:induction false} WithoutCovered<T(!new)>(s: seq<T>, excluded: seq<T>)
    requires forall x :: x in s ==> x in excluded
    ensures Without(s, excluded) == []
  {
    if s != [] {
      WithoutCovered(s[1..], excluded);
    }
  }

  /**
   * Removing from a duplicate-free `s` a duplicate-free list of values that
   * all occur in `s` leaves exactly `|s| - |excluded|` values.
   */
  lemma WithoutSize<T(!new)>(s: seq<T>, excluded: seq<T>)
    requires Distinct(s) && Distinct(excluded)
    requires forall x :: x in excluded ==> x in s
    ensures |Without(s, excluded)| == |s| - |excluded|
  {
    var w := Without(s, excluded);
    ElemsCard(s);
    ElemsCard(excluded);
    ElemsCard(w);
    var es, ex, ew := Elems(s), Elems(excluded), Elems(w);
    assert ew == es - ex;
    assert es == ew + ex;
    assert ew !! ex;
  }

  /**
   * `set(s)` read back as a list: every value of `s` once, in order of
   * first occurrence.
   */
  function Dedup<T(==,!new)>(s: seq<T>): (r: seq<T>)
    ensures Distinct(r)
    ensures forall x :: x in r <==> x in s
    ensures Distinct(s) ==> r == s
  {
    if s == [] then []
    else
      var init, last := s[..|s| - 1], s[|s| - 1];
      var d := Dedup(init);
      assert s == init + [last];
      assert forall x :: x in s <==> x in init || x == last;
      if last in d then d
      else
        DistinctConcat(d, [last]);
        d + [last]
  }
}
