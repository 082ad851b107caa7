/** The `std::vector` and `std::find` operations the triangulator uses, on
    sequences, with the facts about them that the sweep proof needs. */
module Vectors {

  /** No value occurs twice. */
  predicate Distinct<T(==)>(s: seq<T>)
  {
    forall a, b :: 0 <= a < b < |s| ==> s[a] != s[b]
  }

  /** `std::find(begin, end, x) - begin`: the position of the first occurrence of
      `x`, or `|s|` (the position of `end()`) when there is none. */
  function Find<T(==)>(s: seq<T>, x: T): (r: nat)
    ensures r <= |s|
    ensures r < |s| <==> x in s
    ensures r < |s| ==> s[r] == x
    ensures x !in s[..r]
  {
    if s == [] then 0
    else if s[0] == x then 0
    else
      assert s[..1 + Find(s[1..], x)] == [s[0]] + s[1..][..Find(s[1..], x)];
      1 + Find(s[1..], x)
  }

  /** `erase(begin() + p)`: the entry at `p` goes, the ones after it move down. */
  function EraseAt<T>(s: seq<T>, p: nat): (r: seq<T>)
    requires p < |s|
    ensures |r| == |s| - 1
    ensures forall m :: 0 <= m < p ==> r[m] == s[m]
    ensures forall m :: p <= m < |r| ==> r[m] == s[m + 1]
  {
    s[..p] + s[p + 1..]
  }

  /** `s` with every occurrence of `x` taken out, order kept. */
  function Without(s: seq<int>, x: int): seq<int>
  {
    if s == [] then []
    else Without(s[..|s| - 1], x) + (if s[|s| - 1] == x then [] else [s[|s| - 1]])
  }

  lemma {:induction false} WithoutMembers(s: seq<int>, x: int, y: int)
    ensures y in Without(s, x) <==> y in s && y != x
  {
    if s != [] {
      WithoutMembers(s[..|s| - 1], x, y);
      assert s == s[..|s| - 1] + [s[|s| - 1]];
    }
  }

  lemma {:induction false} WithoutAppend(s: seq<int>, t: seq<int>, x: int)
    ensures Without(s + t, x) == Without(s, x) + Without(t, x)
    decreases |t|
  {
    if t == [] {
      assert s + t == s;
    } else {
      var t0 := t[..|t| - 1];
      assert (s + t)[..|s + t| - 1] == s + t0;
      WithoutAppend(s, t0, x);
    }
  }

  lemma {:induction false} WithoutAbsent(s: seq<int>, x: int)
    requires x !in s
    ensures Without(s, x) == s
  {
    if s != [] {
      assert x !in s[..|s| - 1];
      WithoutAbsent(s[..|s| - 1], x);
      assert s == s[..|s| - 1] + [s[|s| - 1]];
    }
  }

  lemma WithoutOnly(x: int)
    ensures Without([x], x) == []
  {
    assert [x][..0] == [];
  }

  /** Taking x out of a sequence that holds it once only leaves what was around it. */
  lemma WithoutSingle(before: seq<int>, x: int, after: seq<int>)
    requires x !in before && x !in after
    ensures Without(before + [x] + after, x) == before + after
  {
    calc {
      Without(before + [x] + after, x);
      { WithoutAppend(before + [x], after, x); }
      Without(before + [x], x) + Without(after, x);
      { WithoutAppend(before, [x], x); }
      Without(before, x) + Without([x], x) + Without(after, x);
      { WithoutAbsent(before, x); WithoutAbsent(after, x); WithoutOnly(x); }
      before + [] + after;
    }
  }

  /** Erasing what `std::find` found takes out the value itself, and, in a
      sequence without repeats, every trace of it. */
  lemma EraseFound(s: seq<int>, x: int)
    requires Distinct(s) && x in s
    ensures EraseAt(s, Find(s, x)) == Without(s, x)
  {
    var p := Find(s, x);
    var before, after := s[..p], s[p + 1..];
    assert s == before + [x] + after;
    assert x !in after by {
      forall m | 0 <= m < |after| ensures after[m] != x {
        assert after[m] == s[p + 1 + m] && s[p] == x;
      }
    }
    WithoutSingle(before, x, after);
  }

  /** `std::find` on a prefix: the value occurs among the first `k` entries
      exactly when its first occurrence is before `k`. */
  lemma FindInPrefix<T>(s: seq<T>, x: T, k: nat)
    requires k <= |s|
    ensures x in s[..k] <==> Find(s, x) < k
  {
    var p := Find(s, x);
    if p < k {
      assert s[..k][p] == x;
    }
  }

  /** In a sequence without repeats every entry is found where it is. */
  lemma FindDistinct<T>(s: seq<T>, m: nat)
    requires Distinct(s) && m < |s|
    ensures Find(s, s[m]) == m
  {
  }

  /** A value without repeats in one sequence has at most one copy in it. */
  lemma {:induction false} DistinctCount<T>(t: seq<T>, x: T)
    requires Distinct(t)
    ensures multiset(t)[x] <= 1
  {
    if t != [] {
      var t0 := t[..|t| - 1];
      assert t == t0 + [t[|t| - 1]];
      DistinctCount(t0, x);
      if t[|t| - 1] == x {
        assert x !in t0;
      }
    }
  }

  /** A rearrangement of a sequence without repeats has none either. */
  lemma PermutationDistinct<T>(s: seq<T>, t: seq<T>)
    requires multiset(s) == multiset(t) && Distinct(t)
    ensures Distinct(s)
  {
    forall a, b | 0 <= a < b < |s| ensures s[a] != s[b] {
      if s[a] == s[b] {
        var x := s[a];
        assert s == s[..b] + [x] + s[b + 1..];
        assert x in s[..b];
        assert multiset(s)[x] >= multiset(s[..b])[x] + 1;
        DistinctCount(t, x);
        assert false;
      }
    }
  }

  /** Pigeonhole: values without repeats drawn from [0, n) number at most n. */
  lemma {:induction false} DistinctBelow(s: seq<int>, n: nat)
    requires Distinct(s)
    requires forall m :: 0 <= m < |s| ==> 0 <= s[m] < n
    ensures |s| <= n
    decreases n
  {
    if n == 0 {
    } else if n - 1 !in s {
      DistinctBelow(s, n - 1);
    } else {
      var p := Find(s, n - 1);
      var r := EraseAt(s, p);
      forall m | 0 <= m < |r| ensures 0 <= r[m] < n - 1 {
        if m < p { assert r[m] == s[m] && s[m] != s[p]; }
        else { assert r[m] == s[m + 1] && s[m + 1] != s[p]; }
      }
      assert Distinct(r) by {
        forall a, b | 0 <= a < b < |r| ensures r[a] != r[b] {
          var a' := if a < p then a else a + 1;
          var b' := if b < p then b else b + 1;
          assert r[a] == s[a'] && r[b] == s[b'] && a' < b';
        }
      }
      DistinctBelow(r, n - 1);
    }
  }
}
