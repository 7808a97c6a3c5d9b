// Python's ordering of `str` values (code point by code point) and sorting by
// it. Dafny's `<` on sequences means "proper prefix", so the order is defined
// here explicitly.
module StringOrder {

  /** Python's `a < b` on strings. */
  predicate LexLess(a: string, b: string)
  {
    if |a| == 0 then |b| > 0
    else if |b| == 0 then false
    else if a[0] != b[0] then a[0] < b[0]
    else LexLess(a[1..], b[1..])
  }

  lemma {:induction false} LexLessIrreflexive(a: string)
    ensures !LexLess(a, a)
  {
    if |a| > 0 {
      LexLessIrreflexive(a[1..]);
    }
  }

  lemma {:induction false} LexLessTransitive(a: string, b: string, c: string)
    requires LexLess(a, b) && LexLess(b, c)
    ensures LexLess(a, c)
  {
    if |a| > 0 && |b| > 0 && |c| > 0 && a[0] == b[0] && b[0] == c[0] {
      LexLessTransitive(a[1..], b[1..], c[1..]);
    }
  }

  /** Distinct strings are always ordered one way or the other, never both. */
  lemma {:induction false} LexLessTotal(a: string, b: string)
    ensures a != b ==> (LexLess(a, b) || LexLess(b, a))
    ensures !(LexLess(a, b) && LexLess(b, a))
  {
    if |a| > 0 && |b| > 0 && a[0] == b[0] {
      LexLessTotal(a[1..], b[1..]);
      if a != b {
        assert a == [a[0]] + a[1..] && b == [b[0]] + b[1..];
      }
    }
  }

  function Elems(s: seq<string>): set<string>
  {
    set x | x in s
  }

  predicate StrictlySorted(s: seq<string>)
  {
    forall i, j :: 0 <= i < j < |s| ==> LexLess(s[i], s[j])
  }

  /** Inserts x into a strictly sorted list, leaving it alone if present. */
  function Insert(x: string, s: seq<string>): (r: seq<string>)
    requires StrictlySorted(s)
    ensures StrictlySorted(r)
    ensures Elems(r) == Elems(s) + {x}
    ensures |r| == if x in s then |s| else |s| + 1
  {
    if |s| == 0 then [x]
    else if x == s[0] then s
    else if LexLess(x, s[0]) then
      assert x !in s by {
        forall i | 0 <= i < |s| ensures s[i] != x {
          if i > 0 { LexLessTransitive(x, s[0], s[i]); LexLessIrreflexive(x); }
        }
      }
      forall k | 0 <= k < |s| ensures LexLess(x, s[k]) {
        if k > 0 { LexLessTransitive(x, s[0], s[k]); }
      }
      var r := [x] + s;
      assert forall i, j :: 0 <= i < j < |r| ==> LexLess(r[i], r[j]) by {
        forall i, j | 0 <= i < j < |r| ensures LexLess(r[i], r[j]) {
          if i == 0 { assert r[j] == s[j - 1]; } else { assert r[i] == s[i - 1] && r[j] == s[j - 1]; }
        }
      }
      r
    else
      LexLessTotal(x, s[0]);
      var rest := Insert(x, s[1..]);
      assert Elems(s) == {s[0]} + Elems(s[1..]);
      forall j | 0 <= j < |rest| ensures LexLess(s[0], rest[j]) {
        assert rest[j] in Elems(rest);
      }
      assert x in s <==> x in s[1..];
      var r := [s[0]] + rest;
      assert Elems(r) == {s[0]} + Elems(rest);
      r
  }

  /** `sorted(xs)` for a set of strings: the strictly increasing list of its
      elements. */
  method SortedOfSet(xs: set<string>) returns (r: seq<string>)
    ensures StrictlySorted(r)
    ensures Elems(r) == xs
    ensures |r| == |xs|
  {
    r := [];
    var todo := xs;
    while todo != {}
      invariant StrictlySorted(r)
      invariant todo <= xs
      invariant Elems(r) == xs - todo
      invariant |r| == |xs - todo|
      decreases todo
    {
      var x :| x in todo;
      assert x !in Elems(r);
      assert x !in r;
      r := Insert(x, r);
      assert xs - (todo - {x}) == (xs - todo) + {x};
      todo := todo - {x};
    }
  }
}
