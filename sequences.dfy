// Order-preserving de-duplication (`dict.fromkeys`, and the key order of a
// dict built by insertion) and positions in lists.
module Sequences {

  predicate Distinct<T(==,!new)>(s: seq<T>)
  {
    forall i, j :: 0 <= i < j < |s| ==> s[i] != s[j]
  }

  /** The position of the first occurrence of x (`list.index`). */
  function FirstIndex<T(==,!new)>(s: seq<T>, x: T): (i: nat)
    requires x in s
    ensures i < |s| && s[i] == x
    ensures forall j :: 0 <= j < i ==> s[j] != x
  {
    if x in s[..|s| - 1] then FirstIndex(s[..|s| - 1], x) else |s| - 1
  }

  /** `tuple(dict.fromkeys(s))`: each element once, at its first occurrence. */
  function Dedup<T(==,!new)>(s: seq<T>): (r: seq<T>)
    ensures Distinct(r)
    ensures forall x :: x in r <==> x in s
    ensures |r| <= |s|
  {
    if |s| == 0 then []
    else
      var d := Dedup(s[..|s| - 1]);
      var x := s[|s| - 1];
      assert forall y :: y in s <==> y in s[..|s| - 1] || y == x;
      if x in d then d else d + [x]
  }

  /** The kept elements appear in the order of their first occurrences. */
  lemma {:induction false} DedupFirstOccurrenceOrder<T(!new)>(s: seq<T>)
    ensures forall i, j :: 0 <= i < j < |Dedup(s)| ==> FirstIndex(s, Dedup(s)[i]) < FirstIndex(s, Dedup(s)[j])
  {
    if |s| > 0 {
      var init := s[..|s| - 1];
      DedupFirstOccurrenceOrder(init);
      var d := Dedup(init);
      forall y | y in init ensures FirstIndex(s, y) == FirstIndex(init, y) {
        FirstIndexOfInit(s, y);
      }
    }
  }

  lemma FirstIndexOfInit<T(!new)>(s: seq<T>, y: T)
    requires |s| > 0 && y in s[..|s| - 1]
    ensures FirstIndex(s, y) == FirstIndex(s[..|s| - 1], y)
  {
  }

  /** De-duplicating a longer list only appends: `Dedup(a)` is a prefix of
      `Dedup(a + b)`. */
  lemma {:induction false} DedupPrefix<T(!new)>(a: seq<T>, b: seq<T>)
    ensures Dedup(a) <= Dedup(a + b)
  {
    if |b| > 0 {
      var b' := b[..|b| - 1];
      DedupPrefix(a, b');
      assert (a + b)[..|a + b| - 1] == a + b';
    } else {
      assert a + b == a;
    }
  }

  /** Appending one element to a list appends it to the de-duplicated list
      unless it is already there: the insertion order of a dict's keys. */
  lemma DedupSnoc<T(!new)>(s: seq<T>, x: T)
    ensures Dedup(s + [x]) == if x in Dedup(s) then Dedup(s) else Dedup(s) + [x]
  {
    assert (s + [x])[..|s|] == s;
  }
}
