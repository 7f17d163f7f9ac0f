/** The query operators the catalog uses (`Where`, `FirstOrDefault` and
    `OrderBy(c => c.Name)`), as functions over in-memory sequences of rows. */
module Queries {
  import opened Models

  /** `Where`: the elements that satisfy `keep`, in their original order. */
  function Where<T(!new)>(s: seq<T>, keep: T -> bool): (r: seq<T>)
    ensures |r| <= |s|
    ensures forall x :: x in r <==> x in s && keep(x)
    decreases |s|
  {
    if s == [] then []
    else if keep(s[0]) then [s[0]] + Where(s[1..], keep)
    else Where(s[1..], keep)
  }

  /** When every element is kept, `Where` returns its input. */
  lemma {:induction false} WhereKeepsAll<T(!new)>(s: seq<T>, keep: T -> bool)
    requires forall x :: x in s ==> keep(x)
    ensures Where(s, keep) == s
    decreases |s|
  {
    if s != [] {
      assert s[0] in s;
      forall x | x in s[1..] ensures keep(x) {
        assert x in s;
      }
      WhereKeepsAll(s[1..], keep);
      assert s == [s[0]] + s[1..];
    }
  }

  /** Filtering twice with the same condition is filtering once. */
  lemma WhereIdempotent<T(!new)>(s: seq<T>, keep: T -> bool)
    ensures Where(Where(s, keep), keep) == Where(s, keep)
  {
    WhereKeepsAll(Where(s, keep), keep);
  }

  /** `Where` distributes over concatenation. */
  lemma {:induction false} WhereAppend<T(!new)>(s: seq<T>, t: seq<T>, keep: T -> bool)
    ensures Where(s + t, keep) == Where(s, keep) + Where(t, keep)
    decreases |s|
  {
    if s != [] {
      assert (s + t)[1..] == s[1..] + t;
      WhereAppend(s[1..], t, keep);
    } else {
      assert s + t == t;
    }
  }

  /** No two elements share a key. */
  ghost predicate DistinctBy<T, K>(s: seq<T>, key: T -> K) {
    forall i, j :: 0 <= i < j < |s| ==> key(s[i]) != key(s[j])
  }

  /** Filtering keeps keys distinct. */
  lemma {:induction false} WhereKeepsDistinct<T(!new), K>(s: seq<T>, key: T -> K, keep: T -> bool)
    requires DistinctBy(s, key)
    ensures DistinctBy(Where(s, keep), key)
    decreases |s|
  {
    if s != [] {
      var tail := s[1..];
      assert DistinctBy(tail, key) by {
        forall i, j | 0 <= i < j < |tail| ensures key(tail[i]) != key(tail[j]) {
          assert tail[i] == s[i + 1] && tail[j] == s[j + 1];
        }
      }
      WhereKeepsDistinct(tail, key, keep);
      var rest := Where(tail, keep);
      if keep(s[0]) {
        forall x | x in rest ensures key(x) != key(s[0]) {
          var k :| 0 <= k < |tail| && tail[k] == x;
          assert s[k + 1] == x;
        }
        var r := [s[0]] + rest;
        forall i, j | 0 <= i < j < |r| ensures key(r[i]) != key(r[j]) {
          if i == 0 { assert r[j] in rest; } else { assert r[i] == rest[i - 1] && r[j] == rest[j - 1]; }
        }
      }
    }
  }

  /** `FirstOrDefault`: the first element that satisfies `p`, or None. */
  function FirstOrDefault<T(!new)>(s: seq<T>, p: T -> bool): (r: Option<T>)
    ensures r.None? <==> forall x :: x in s ==> !p(x)
    ensures r.Some? ==> exists i :: 0 <= i < |s| && s[i] == r.value && p(s[i])
                                    && forall j :: 0 <= j < i ==> !p(s[j])
    decreases |s|
  {
    if s == [] then None
    else if p(s[0]) then Some(s[0])
    else
      var r := FirstOrDefault(s[1..], p);
      if r.Some? then
        ghost var i :| 0 <= i < |s[1..]| && s[1..][i] == r.value && p(s[1..][i])
                       && forall j :: 0 <= j < i ==> !p(s[1..][j]);
        assert s[i + 1] == r.value && forall j :: 0 <= j < i + 1 ==> !p(s[j]) by {
          forall j | 0 <= j < i + 1 ensures !p(s[j]) {
            if j > 0 { assert s[j] == s[1..][j - 1]; }
          }
        }
        r
      else
        r
  }

  // ---- ordering by name ----------------------------------------------------

  /** Ordinal comparison of two names, character by character; a proper
      prefix orders before the longer name. */
  predicate NameAtMost(a: string, b: string)
    decreases |a|
  {
    if a == [] then true
    else if b == [] then false
    else if a[0] != b[0] then a[0] < b[0]
    else NameAtMost(a[1..], b[1..])
  }

  lemma {:induction false} NameAtMostTotal(a: string, b: string)
    ensures NameAtMost(a, b) || NameAtMost(b, a)
    decreases |a|
  {
    if a != [] && b != [] && a[0] == b[0] {
      NameAtMostTotal(a[1..], b[1..]);
    }
  }

  lemma {:induction false} NameAtMostTransitive(a: string, b: string, c: string)
    requires NameAtMost(a, b) && NameAtMost(b, c)
    ensures NameAtMost(a, c)
    decreases |a|
  {
    if a != [] && b != [] && c != [] && a[0] == b[0] && b[0] == c[0] {
      NameAtMostTransitive(a[1..], b[1..], c[1..]);
    }
  }

  lemma {:induction false} NameAtMostAntisymmetric(a: string, b: string)
    requires NameAtMost(a, b) && NameAtMost(b, a)
    ensures a == b
    decreases |a|
  {
    if a != [] {
      NameAtMostAntisymmetric(a[1..], b[1..]);
      assert a == [a[0]] + a[1..] && b == [b[0]] + b[1..];
    }
  }

  predicate SortedByName(cs: seq<Category>) {
    forall i, j :: 0 <= i < j < |cs| ==> NameAtMost(cs[i].Name, cs[j].Name)
  }

  /** Places `c` before the first element whose name is not smaller, so that
      equal names keep their input order. */
  function InsertByName(c: Category, sorted: seq<Category>): (r: seq<Category>)
    requires SortedByName(sorted)
    ensures SortedByName(r)
    ensures multiset(r) == multiset(sorted) + multiset{c}
    decreases |sorted|
  {
    if sorted == [] then [c]
    else if NameAtMost(c.Name, sorted[0].Name) then
      forall j | 0 <= j < |sorted| ensures NameAtMost(c.Name, sorted[j].Name) {
        if j > 0 { NameAtMostTransitive(c.Name, sorted[0].Name, sorted[j].Name); }
      }
      [c] + sorted
    else
      var rest := InsertByName(c, sorted[1..]);
      assert multiset(sorted) == multiset{sorted[0]} + multiset(sorted[1..]) by {
        assert sorted == [sorted[0]] + sorted[1..];
      }
      NameAtMostTotal(c.Name, sorted[0].Name);
      forall x | x in rest ensures NameAtMost(sorted[0].Name, x.Name) {
        assert x in multiset(rest);
        if x != c {
          assert x in multiset(sorted[1..]);
          assert x in sorted[1..];
        }
      }
      [sorted[0]] + rest
  }

  /** `OrderBy(c => c.Name)`: a stable sort of the categories by name. */
  function OrderByName(cs: seq<Category>): (r: seq<Category>)
    ensures SortedByName(r)
    ensures multiset(r) == multiset(cs)
    decreases |cs|
  {
    if cs == [] then []
    else
      assert cs == [cs[0]] + cs[1..];
      InsertByName(cs[0], OrderByName(cs[1..]))
  }
}
