/** Small data types and sequence facts shared by the whole model. */
module Prelude {

  datatype Option<+T> = None | Some(value: T)

  datatype Result<+T> = Ok(value: T) | Err(error: string)

  /** The range of Rust's `u32`, used for IMAP UIDs and UIDVALIDITY values. */
  type u32 = x: int | 0 <= x < 0x1_0000_0000

  function Min(a: int, b: int): int { if a <= b then a else b }
  function Max(a: int, b: int): int { if a >= b then a else b }

  lemma {:induction false} LeastExists<T(!new)>(s: set<T>, f: T -> int)
    requires s != {}
    ensures exists x :: x in s && forall y :: y in s ==> f(x) <= f(y)
    decreases |s|
  {
    var x :| x in s;
    if s == {x} {
      assert forall y :: y in s ==> y == x;
    } else {
      LeastExists(s - {x}, f);
      var m :| m in s - {x} && forall y :: y in s - {x} ==> f(m) <= f(y);
      var least := if f(x) <= f(m) then x else m;
      assert forall y :: y in s ==> f(least) <= f(y);
    }
  }

  /** The elements of `s` that satisfy `p`, in order. */
  function Filter<T(!new)>(s: seq<T>, p: T -> bool): (r: seq<T>)
    ensures |r| <= |s|
  {
    if s == [] then []
    else
      var rest := Filter(s[..|s| - 1], p);
      if p(s[|s| - 1]) then rest + [s[|s| - 1]] else rest
  }

  lemma {:induction false} FilterIn<T(!new)>(s: seq<T>, p: T -> bool)
    ensures forall x :: x in Filter(s, p) <==> x in s && p(x)
  {
    if s != [] {
      FilterIn(s[..|s| - 1], p);
      assert s == s[..|s| - 1] + [s[|s| - 1]];
    }
  }

  lemma {:induction false} FilterAppend<T(!new)>(s: seq<T>, t: seq<T>, p: T -> bool)
    ensures Filter(s + t, p) == Filter(s, p) + Filter(t, p)
  {
    if t == [] {
      assert s + t == s;
    } else {
      var init := t[..|t| - 1];
      assert (s + t)[..|s + t| - 1] == s + init;
      FilterAppend(s, init, p);
    }
  }

  lemma {:induction false} FilterPrefix<T(!new)>(s: seq<T>, n: nat, p: T -> bool)
    requires n <= |s|
    ensures Filter(s[..n], p) <= Filter(s, p)
  {
    if n < |s| {
      FilterPrefix(s[..|s| - 1], n, p);
      assert s[..|s| - 1][..n] == s[..n];
    } else {
      assert s[..n] == s;
    }
  }

  /** Filtering twice is filtering by the conjunction, in either order. */
  lemma {:induction false} FilterCommutes<T(!new)>(s: seq<T>, p: T -> bool, q: T -> bool)
    ensures Filter(Filter(s, p), q) == Filter(Filter(s, q), p)
  {
    if s != [] {
      var init, last := s[..|s| - 1], s[|s| - 1];
      FilterCommutes(init, p, q);
      FilterAppend(Filter(init, p), [last], q);
      FilterAppend(Filter(init, q), [last], p);
      assert [last][..0] == [];
    }
  }

  lemma {:induction false} FilterAll<T(!new)>(s: seq<T>, p: T -> bool)
    requires forall x :: x in s ==> p(x)
    ensures Filter(s, p) == s
  {
    if s != [] {
      FilterAll(s[..|s| - 1], p);
    }
  }

  lemma {:induction false} FilterNone<T(!new)>(s: seq<T>, p: T -> bool)
    requires forall x :: x in s ==> !p(x)
    ensures Filter(s, p) == []
  {
    if s != [] {
      FilterNone(s[..|s| - 1], p);
    }
  }

  lemma ThreeParts<T>(s: seq<T>, i: nat, j: nat)
    requires i <= j <= |s|
    ensures s == s[..i] + s[i..j] + s[j..]
  {}

  /** Only the middle part is dropped. */
  lemma FilterEnds<T(!new)>(a: seq<T>, b: seq<T>, c: seq<T>, p: T -> bool)
    requires forall x :: x in a ==> p(x)
    requires forall x :: x in b ==> !p(x)
    requires forall x :: x in c ==> p(x)
    ensures Filter(a + b + c, p) == a + c
  {
    hide Filter;
    FilterAppend(a + b, c, p);
    FilterAppend(a, b, p);
    FilterAll(a, p);
    FilterNone(b, p);
    FilterAll(c, p);
  }

  lemma AllAre<T(!new)>(s: seq<T>, part: seq<T>, p: T -> bool, from: nat, kept: bool)
    requires from + |part| <= |s|
    requires forall i :: 0 <= i < |part| ==> part[i] == s[from + i] && p(s[from + i]) == kept
    ensures forall x :: x in part ==> p(x) == kept
  {
    hide *;
    forall x | x in part ensures p(x) == kept {
      var i :| 0 <= i < |part| && part[i] == x;
    }
  }

  lemma PartsApart<T(!new)>(s: seq<T>, a: seq<T>, b: seq<T>, c: seq<T>, p: T -> bool)
    requires s == a + b + c
    requires forall i :: 0 <= i < |s| ==> (p(s[i]) <==> !(|a| <= i < |a| + |b|))
    ensures forall x :: x in a ==> p(x)
    ensures forall x :: x in b ==> !p(x)
    ensures forall x :: x in c ==> p(x)
  {
    hide *;
    AllAre(s, a, p, 0, true);
    AllAre(s, b, p, |a|, false);
    AllAre(s, c, p, |a| + |b|, true);
  }

  lemma FilterMiddle<T(!new)>(s: seq<T>, a: seq<T>, b: seq<T>, c: seq<T>, p: T -> bool)
    requires s == a + b + c
    requires forall i :: 0 <= i < |s| ==> (p(s[i]) <==> !(|a| <= i < |a| + |b|))
    ensures Filter(s, p) == a + c
  {
    hide *;
    PartsApart(s, a, b, c, p);
    FilterEnds(a, b, c, p);
  }

  /** Predicates that agree on the elements select the same subsequence. */
  lemma {:induction false} FilterExt<T(!new)>(s: seq<T>, p: T -> bool, q: T -> bool)
    requires forall x :: x in s ==> p(x) == q(x)
    ensures Filter(s, p) == Filter(s, q)
  {
    if s != [] {
      FilterExt(s[..|s| - 1], p, q);
    }
  }

  /** Every element stands in relation to every later one. */
  ghost predicate Pairwise<T(!new)>(s: seq<T>, rel: (T, T) -> bool) {
    forall i, j :: 0 <= i < j < |s| ==> rel(s[i], s[j])
  }

  lemma {:induction false} FilterPairwise<T(!new)>(s: seq<T>, p: T -> bool, rel: (T, T) -> bool)
    requires Pairwise(s, rel)
    ensures Pairwise(Filter(s, p), rel)
  {
    if s != [] {
      var init, last := s[..|s| - 1], s[|s| - 1];
      var r := Filter(init, p);
      FilterPairwise(init, p, rel);
      FilterIn(init, p);
      forall i | 0 <= i < |r| ensures rel(r[i], last) {
        assert r[i] in init;
        var j :| 0 <= j < |init| && init[j] == r[i];
        assert s[j] == r[i];
      }
    }
  }
}
