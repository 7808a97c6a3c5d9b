// The tree and account helpers of pages/utils.py: the pre-order walk of an
// account tree, the rollup of leaf values onto every ancestor path, and the
// indented display of account names.
module TreeWalk {
  import opened Wrappers
  import opened AccountPath
  import opened Ledger
  import opened Sequences

  // ---- yield_tree_nodes ----------------------------------------------------

  /** The number of nodes in a tree. */
  function Size(n: Node): (k: nat)
    ensures k >= 1
    decreases n, 1
  {
    1 + SizeAll(n.children)
  }

  function SizeAll(cs: seq<Node>): nat
    decreases cs, 0
  {
    if |cs| == 0 then 0 else Size(cs[0]) + SizeAll(cs[1..])
  }

  /** `yield_tree_nodes`: the node, then each child's walk in child order. */
  function Preorder(n: Node): (r: seq<Node>)
    ensures |r| == Size(n)
    ensures r[0] == n
    decreases n, 1
  {
    [n] + PreorderAll(n.children)
  }

  function PreorderAll(cs: seq<Node>): (r: seq<Node>)
    ensures |r| == SizeAll(cs)
    decreases cs, 0
  {
    if |cs| == 0 then [] else Preorder(cs[0]) + PreorderAll(cs[1..])
  }

  /** Every node of the walk is followed immediately by its whole subtree, in
      walk order: a node comes before all of its descendants, and each
      subtree occupies one contiguous run. */
  lemma {:induction false} SubtreeContiguous(n: Node, i: nat)
    requires i < |Preorder(n)|
    ensures i + Size(Preorder(n)[i]) <= |Preorder(n)|
    ensures Preorder(n)[i..i + Size(Preorder(n)[i])] == Preorder(Preorder(n)[i])
    decreases n, 1
  {
    var P := Preorder(n);
    if i == 0 {
      assert P[0..Size(n)] == P;
    } else {
      var F := PreorderAll(n.children);
      assert P[i] == F[i - 1];
      ForestContiguous(n.children, i - 1);
      assert P[i..i + Size(P[i])] == F[i - 1..i - 1 + Size(P[i])];
    }
  }

  lemma {:induction false} ForestContiguous(cs: seq<Node>, j: nat)
    requires j < |PreorderAll(cs)|
    ensures j + Size(PreorderAll(cs)[j]) <= |PreorderAll(cs)|
    ensures PreorderAll(cs)[j..j + Size(PreorderAll(cs)[j])] == Preorder(PreorderAll(cs)[j])
    decreases cs, 0
  {
    var F := PreorderAll(cs);
    var H := Preorder(cs[0]);
    var T := PreorderAll(cs[1..]);
    assert F == H + T;
    if j < |H| {
      SubtreeContiguous(cs[0], j);
      assert F[j] == H[j];
      SliceOfConcat(H, T, j, j + Size(H[j]));
    } else {
      ForestContiguous(cs[1..], j - |H|);
      assert F[j] == T[j - |H|];
      SliceOfConcat(H, T, j, j + Size(F[j]));
    }
  }

  /** A child's walk sits inside its parent's walk, right after the walks of
      its earlier siblings. */
  lemma {:induction false} ChildWalkOffset(n: Node, c: nat)
    requires c < |n.children|
    ensures 1 + SizeAll(n.children[..c]) + Size(n.children[c]) <= |Preorder(n)|
    ensures Preorder(n)[1 + SizeAll(n.children[..c])..1 + SizeAll(n.children[..c]) + Size(n.children[c])]
         == Preorder(n.children[c])
  {
    ForestOffset(n.children, c);
    var o := SizeAll(n.children[..c]);
    SliceOfConcat([n], PreorderAll(n.children), 1 + o, 1 + o + Size(n.children[c]));
  }

  /** A slice of a concatenation that lies inside one of its parts. */
  lemma SliceOfConcat<T>(a: seq<T>, b: seq<T>, i: nat, j: nat)
    requires i <= j <= |a| + |b|
    ensures j <= |a| ==> (a + b)[i..j] == a[i..j]
    ensures |a| <= i ==> (a + b)[i..j] == b[i - |a|..j - |a|]
  {
  }

  lemma {:induction false} ForestOffset(cs: seq<Node>, c: nat)
    requires c < |cs|
    ensures SizeAll(cs[..c]) + Size(cs[c]) <= |PreorderAll(cs)|
    ensures PreorderAll(cs)[SizeAll(cs[..c])..SizeAll(cs[..c]) + Size(cs[c])] == Preorder(cs[c])
  {
    if c == 0 {
      assert cs[..0] == [];
    } else {
      ForestOffset(cs[1..], c - 1);
      assert cs[1..][..c - 1] == cs[..c][1..];
      assert cs[1..][c - 1] == cs[c];
      var H := Preorder(cs[0]);
      assert PreorderAll(cs) == H + PreorderAll(cs[1..]);
      assert SizeAll(cs[..c]) == Size(cs[0]) + SizeAll(cs[1..][..c - 1]);
      assert |H| == Size(cs[0]);
      SliceOfConcat(H, PreorderAll(cs[1..]), SizeAll(cs[..c]), SizeAll(cs[..c]) + Size(cs[c]));
    }
  }

  /** A ledger tree as fava builds it: every child's account is its parent's
      account plus one more segment. */
  ghost predicate WellFormed(n: Node)
    decreases n
  {
    forall c :: c in n.children ==> Parent(c.account) == n.account && WellFormed(c)
  }

  /** In the walk of a well-formed tree, every node after the root is preceded
      by a node holding its parent account, and no account has fewer segments
      than the root's. */
  lemma {:induction false} WalkParentsBefore(n: Node)
    requires WellFormed(n)
    ensures forall i :: 0 < i < |Preorder(n)| ==>
      exists j :: 0 <= j < i && Preorder(n)[j].account == Parent(Preorder(n)[i].account)
    ensures forall i :: 0 <= i < |Preorder(n)| ==>
      |Segments(Preorder(n)[i].account)| >= |Segments(n.account)|
    decreases n, 1
  {
    var P := Preorder(n);
    var F := PreorderAll(n.children);
    ForestParentsBefore(n.children, n.account);
    forall i | 0 < i < |P|
      ensures exists j :: 0 <= j < i && P[j].account == Parent(P[i].account)
    {
      assert P[i] == F[i - 1];
      if Parent(F[i - 1].account) != n.account {
        var j :| 0 <= j < i - 1 && F[j].account == Parent(F[i - 1].account);
        assert P[j + 1] == F[j];
      }
    }
    forall i | 0 < i < |P| ensures |Segments(P[i].account)| >= |Segments(n.account)| {
      assert P[i] == F[i - 1];
    }
  }

  lemma {:induction false} ForestParentsBefore(cs: seq<Node>, a: string)
    requires forall c :: c in cs ==> Parent(c.account) == a && WellFormed(c)
    ensures forall i :: 0 <= i < |PreorderAll(cs)| ==>
      Parent(PreorderAll(cs)[i].account) == a
      || exists j :: 0 <= j < i && PreorderAll(cs)[j].account == Parent(PreorderAll(cs)[i].account)
    ensures forall i :: 0 <= i < |PreorderAll(cs)| ==>
      |Segments(PreorderAll(cs)[i].account)| >= |Segments(a)|
    decreases cs, 0
  {
    if |cs| > 0 {
      var F := PreorderAll(cs);
      var H := Preorder(cs[0]);
      var T := PreorderAll(cs[1..]);
      assert F == H + T;
      WalkParentsBefore(cs[0]);
      ForestParentsBefore(cs[1..], a);
      ParentSegments(cs[0].account);
      forall i | 0 <= i < |F|
        ensures Parent(F[i].account) == a || exists j :: 0 <= j < i && F[j].account == Parent(F[i].account)
      {
        if i >= |H| {
          assert F[i] == T[i - |H|];
          if Parent(T[i - |H|].account) != a {
            var j :| 0 <= j < i - |H| && T[j].account == Parent(T[i - |H|].account);
            assert F[j + |H|] == T[j];
          }
        } else if i > 0 {
          assert F[i] == H[i];
          var j :| 0 <= j < i && H[j].account == Parent(H[i].account);
          assert F[j] == H[j];
        }
      }
      forall i | 0 <= i < |F| ensures |Segments(F[i].account)| >= |Segments(a)| {
        if i >= |H| {
          assert F[i] == T[i - |H|];
        } else {
          assert F[i] == H[i];
        }
      }
    }
  }

  /** The parent path drops exactly the last segment; a top-level account
      has the empty parent. */
  lemma ParentSegments(account: string)
    ensures |Segments(account)| >= 2 ==>
      Segments(Parent(account)) == Segments(account)[..|Segments(account)| - 1]
    ensures |Segments(account)| == 1 ==> Parent(account) == ""
    ensures |Segments(Parent(account))| <= |Segments(account)|
  {
    var s := Segments(account);
    if |s| >= 2 {
      SegmentsOfPrefix(account, |s| - 1);
    } else {
      assert s[..|s| - 1] == [];
    }
  }

  // ---- rollup_accounts -----------------------------------------------------

  /** One entry of the pandas Series: its account index and its value, `None`
      standing for NaN. */
  type SeriesEntry = (string, Option<real>)

  datatype RollupError = EmptySeries

  /** `series[series.notna()]`, as (account, value) pairs. */
  function DropNaN(series: seq<SeriesEntry>): (r: seq<(string, real)>)
    ensures |r| <= |series|
  {
    if |series| == 0 then []
    else
      var rest := DropNaN(series[..|series| - 1]);
      var last := series[|series| - 1];
      if last.1.Some? then rest + [(last.0, last.1.value)] else rest
  }

  /** The sum of the values whose account is `key` or lies below it. */
  function RolledValue(entries: seq<(string, real)>, key: string): real
  {
    if |entries| == 0 then 0.0
    else
      var last := entries[|entries| - 1];
      RolledValue(entries[..|entries| - 1], key)
        + (if last.0 == key || key + [Sep] <= last.0 then last.1 else 0.0)
  }

  /** Every path that appears as some entry's account or one of its
      segment prefixes. */
  ghost predicate IsRolledKey(entries: seq<(string, real)>, key: string)
  {
    exists i :: 0 <= i < |entries| && key in SegmentPrefixes(entries[i].0)
  }

  /** A path that is no entry's segment prefix has rolled value 0. */
  lemma {:induction false} RolledValueAbsent(entries: seq<(string, real)>, key: string)
    ensures !IsRolledKey(entries, key) ==> RolledValue(entries, key) == 0.0
  {
    if |entries| > 0 && !IsRolledKey(entries, key) {
      var init := entries[..|entries| - 1];
      var last := entries[|entries| - 1];
      SegmentPrefixIff(key, last.0);
      RolledValueAbsent(init, key);
    }
  }

  /** Adding one entry adds its value under exactly its segment prefixes. */
  lemma RolledSnoc(entries: seq<(string, real)>, e: (string, real), key: string)
    ensures IsRolledKey(entries + [e], key) <==> IsRolledKey(entries, key) || key in SegmentPrefixes(e.0)
    ensures RolledValue(entries + [e], key)
         == RolledValue(entries, key) + (if key in SegmentPrefixes(e.0) then e.1 else 0.0)
  {
    var all := entries + [e];
    assert all[..|entries|] == entries;
    SegmentPrefixIff(key, e.0);
    if IsRolledKey(entries, key) {
      var i :| 0 <= i < |entries| && key in SegmentPrefixes(entries[i].0);
      assert all[i] == entries[i];
    }
    if IsRolledKey(all, key) {
      var i :| 0 <= i < |all| && key in SegmentPrefixes(all[i].0);
      if i < |entries| { assert all[i] == entries[i]; }
    }
    if key in SegmentPrefixes(e.0) {
      assert all[|entries|] == e;
    }
  }

  /** Longer segment prefixes are strictly longer strings, so the prefixes of
      one account are pairwise distinct. */
  lemma SegmentPrefixesDistinct(account: string)
    ensures Distinct(SegmentPrefixes(account))
  {
    var P := SegmentPrefixes(account);
    var s := Segments(account);
    forall i, j | 0 <= i < j < |P| ensures P[i] != P[j] {
      assert s[..j + 1][..i + 1] == s[..i + 1];
      JoinAppend(s[..j + 1], i + 1, Sep);
      assert P[i] == Join(s[..i + 1]) && P[j] == Join(s[..j + 1]);
      assert |P[j]| > |P[i]|;
    }
  }

  /** The inner loop of `rollup_accounts`: add `val` under every segment
      prefix of `account`, creating missing keys (at the end, in order) with 0. */
  method AddUnderPrefixes(keys: seq<string>, rollup: map<string, real>, account: string, val: real)
    returns (keys': seq<string>, rollup': map<string, real>)
    requires Distinct(keys)
    requires forall k :: k in rollup <==> k in keys
    ensures Distinct(keys') && keys <= keys'
    ensures forall k :: k in rollup' <==> k in keys'
    ensures forall k :: k in keys' <==> k in keys || k in SegmentPrefixes(account)
    ensures forall k :: k in rollup' ==>
      rollup'[k] == (if k in rollup then rollup[k] else 0.0) + (if k in SegmentPrefixes(account) then val else 0.0)
  {
    var prefixes := SegmentPrefixes(account);
    SegmentPrefixesDistinct(account);
    keys', rollup' := keys, rollup;
    var j := 0;
    while j < |prefixes|
      invariant 0 <= j <= |prefixes|
      invariant Distinct(keys') && keys <= keys'
      invariant forall k :: k in rollup' <==> k in keys'
      invariant forall k :: k in keys' <==> k in keys || k in prefixes[..j]
      invariant forall k :: k in rollup' ==>
        rollup'[k] == (if k in rollup then rollup[k] else 0.0) + (if k in prefixes[..j] then val else 0.0)
    {
      var path := prefixes[j];
      assert path !in prefixes[..j];
      if path !in rollup' {
        keys' := keys' + [path];
        rollup' := rollup'[path := 0.0];
      }
      rollup' := rollup'[path := rollup'[path] + val];
      assert prefixes[..j + 1] == prefixes[..j] + [path];
      j := j + 1;
    }
    assert prefixes[..j] == prefixes;
  }

  /** The outer loop's invariant: `keys` lists, once each, exactly the paths
      rolled up from `entries`, and `rollup` holds each one's rolled value. */
  ghost predicate Rolled(entries: seq<(string, real)>, keys: seq<string>, rollup: map<string, real>)
  {
    && Distinct(keys)
    && (forall k :: k in rollup <==> k in keys)
    && (forall k :: k in keys <==> IsRolledKey(entries, k))
    && (forall k :: k in rollup ==> rollup[k] == RolledValue(entries, k))
  }

  /** Adding one entry's value under its prefixes keeps the invariant. */
  lemma RollupStep(entries: seq<(string, real)>, e: (string, real), entries': seq<(string, real)>,
                   keys: seq<string>, rollup: map<string, real>, keys': seq<string>, rollup': map<string, real>)
    requires entries' == entries + [e]
    requires Rolled(entries, keys, rollup)
    requires Distinct(keys')
    requires forall k :: k in rollup' <==> k in keys'
    requires forall k :: k in keys' <==> k in keys || k in SegmentPrefixes(e.0)
    requires forall k :: k in rollup' ==>
      rollup'[k] == (if k in rollup then rollup[k] else 0.0) + (if k in SegmentPrefixes(e.0) then e.1 else 0.0)
    ensures Rolled(entries', keys', rollup')
  {
    forall k ensures IsRolledKey(entries', k) <==> IsRolledKey(entries, k) || k in SegmentPrefixes(e.0)
                 ensures RolledValue(entries', k)
                      == RolledValue(entries, k) + (if k in SegmentPrefixes(e.0) then e.1 else 0.0)
                 ensures !IsRolledKey(entries, k) ==> RolledValue(entries, k) == 0.0 {
      RolledSnoc(entries, e, k);
      RolledValueAbsent(entries, k);
    }
  }

  /** `rollup_accounts`: for every non-NaN entry and every segment prefix of
      its account, add the entry's value under that prefix; keys keep their
      first-insertion order. Fails when nothing is left after dropping NaN
      (unpacking an empty `zip`). */
  method RollupAccounts(series: seq<SeriesEntry>) returns (r: Result<seq<(string, real)>, RollupError>)
    ensures r.Err? <==> DropNaN(series) == []
    ensures r.Ok? ==> forall k :: 0 <= k < |r.value| ==> IsRolledKey(DropNaN(series), r.value[k].0)
    ensures r.Ok? ==> forall i, key :: 0 <= i < |DropNaN(series)| && key in SegmentPrefixes(DropNaN(series)[i].0)
                        ==> exists k :: 0 <= k < |r.value| && r.value[k].0 == key
    ensures r.Ok? ==> forall k1, k2 :: 0 <= k1 < k2 < |r.value| ==> r.value[k1].0 != r.value[k2].0
    ensures r.Ok? ==> forall k :: 0 <= k < |r.value| ==> r.value[k].1 == RolledValue(DropNaN(series), r.value[k].0)
  {
    var entries := DropNaN(series);
    var keys: seq<string> := [];
    var rollup: map<string, real> := map[];
    var i := 0;
    while i < |entries|
      invariant 0 <= i <= |entries|
      invariant Rolled(entries[..i], keys, rollup)
    {
      var account, val := entries[i].0, entries[i].1;
      var keys', rollup' := AddUnderPrefixes(keys, rollup, account, val);
      RollupStep(entries[..i], entries[i], entries[..i + 1], keys, rollup, keys', rollup');
      keys, rollup := keys', rollup';
      i := i + 1;
    }
    assert entries[..i] == entries;
    RolledKeysEmpty(entries, keys, rollup);
    if |keys| == 0 {
      return Err(EmptySeries);
    }
    var out := seq(|keys|, q requires 0 <= q < |keys| => (keys[q], rollup[keys[q]]));
    RolledPairs(entries, keys, rollup, out);
    r := Ok(out);
  }

  /** No path is rolled up exactly when there is no entry. */
  lemma RolledKeysEmpty(entries: seq<(string, real)>, keys: seq<string>, rollup: map<string, real>)
    requires Rolled(entries, keys, rollup)
    ensures |keys| == 0 <==> entries == []
  {
    if |entries| > 0 {
      assert IsRolledKey(entries, SegmentPrefixes(entries[0].0)[0]);
    }
    if |keys| > 0 {
      assert IsRolledKey(entries, keys[0]);
    }
  }

  /** The (key, value) pairs of the final rollup: every rolled path once, with
      its rolled value. */
  lemma RolledPairs(entries: seq<(string, real)>, keys: seq<string>, rollup: map<string, real>,
                    out: seq<(string, real)>)
    requires Rolled(entries, keys, rollup)
    requires |out| == |keys| && forall q :: 0 <= q < |keys| ==> out[q] == (keys[q], rollup[keys[q]])
    ensures forall k :: 0 <= k < |out| ==> IsRolledKey(entries, out[k].0)
    ensures forall i, key :: 0 <= i < |entries| && key in SegmentPrefixes(entries[i].0)
              ==> exists k :: 0 <= k < |out| && out[k].0 == key
    ensures forall k1, k2 :: 0 <= k1 < k2 < |out| ==> out[k1].0 != out[k2].0
    ensures forall k :: 0 <= k < |out| ==> out[k].1 == RolledValue(entries, out[k].0)
  {
    forall i, key | 0 <= i < |entries| && key in SegmentPrefixes(entries[i].0)
      ensures exists q :: 0 <= q < |out| && out[q].0 == key
    {
      assert IsRolledKey(entries, key);
      var q :| 0 <= q < |keys| && keys[q] == key;
      assert out[q].0 == key;
    }
  }

  /** A NaN entry contributes nothing: dropping it leaves every rolled value
      as it was. */
  lemma {:induction false} RolledValueIgnoresNaN(series: seq<SeriesEntry>, account: string, key: string)
    ensures RolledValue(DropNaN(series + [(account, None)]), key) == RolledValue(DropNaN(series), key)
  {
    assert (series + [(account, None)])[..|series|] == series;
  }

  // ---- treeify_accounts ----------------------------------------------------

  const Nbsp: char := '\U{00A0}'

  /** `"\u00A0" * n`. */
  function Spaces(n: nat): (r: string)
    ensures |r| == n
    ensures forall i :: 0 <= i < n ==> r[i] == Nbsp
  {
    if n == 0 then "" else [Nbsp] + Spaces(n - 1)
  }

  /** `treeify_accounts` on one account: two non-breaking spaces per level
      below the top, then the last segment; a top-level account unchanged. */
  function TreeifyAccount(account: string): (r: string)
    ensures |LastSegment(account)| <= |r| && r[|r| - |LastSegment(account)|..] == LastSegment(account)
    ensures forall i :: 0 <= i < |r| - |LastSegment(account)| ==> r[i] == Nbsp
  {
    var s := Segments(account);
    if |s| == 1 then
      JoinSplit(account, Sep);
      account
    else Spaces(2 * (|s| - 1)) + s[|s| - 1]
  }

  /** `treeify_accounts` on a list: element-wise. */
  function TreeifyAccounts(accounts: seq<string>): (r: seq<string>)
    ensures |r| == |accounts|
    ensures forall i :: 0 <= i < |r| ==> r[i] == TreeifyAccount(accounts[i])
  {
    if |accounts| == 0 then []
    else [TreeifyAccount(accounts[0])] + TreeifyAccounts(accounts[1..])
  }

  /** The display form never contains a colon, and it is the account itself
      exactly when the account is top-level. */
  lemma TreeifyFixedIff(account: string)
    ensures Sep !in TreeifyAccount(account)
    ensures TreeifyAccount(account) == account <==> Sep !in account
  {
    TopLevelIff(account);
    var s := Segments(account);
    if |s| > 1 {
      var r := TreeifyAccount(account);
      var pad := Spaces(2 * (|s| - 1));
      forall i | 0 <= i < |r| ensures r[i] != Sep {
        if i < |pad| { assert r[i] == Nbsp; } else { assert r[i] == s[|s| - 1][i - |pad|]; }
      }
    }
  }

  /** The indentation of the display form counts the levels below the top. */
  lemma TreeifyIndent(account: string)
    requires Sep in account
    ensures var d := |Segments(account)|;
      TreeifyAccount(account)[..2 * (d - 1)] == Spaces(2 * (d - 1))
      && TreeifyAccount(account)[2 * (d - 1)..] == LastSegment(account)
  {
    TopLevelIff(account);
  }
}
