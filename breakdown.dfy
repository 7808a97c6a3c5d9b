// The pruning loop of `create_breakdown_chart`: it turns one account tree
// into the flat {parent, id, name, value} records of an icicle or sunburst
// chart, hiding nodes that are too small overall or next to their parent,
// together with everything below them.
module Breakdown {
  import opened Wrappers
  import opened AccountPath
  import opened Ledger
  import opened Sequences
  import opened TreeWalk
  import opened SignConvention

  datatype Record = Record(parent: string, id: string, name: string, value: real)

  datatype BreakdownError =
    | UnknownRoot(account: string)   // from_account raised ValueError
    | NonPositiveMaximum             // `assert mx > 0` failed
    | MissingParent(parent: string)  // `lookup[parent]` raised KeyError

  function Accounts(nodes: seq<Node>): (r: seq<string>)
    ensures |r| == |nodes|
    ensures forall i :: 0 <= i < |nodes| ==> r[i] == nodes[i].account
  {
    seq(|nodes|, i requires 0 <= i < |nodes| => nodes[i].account)
  }

  /** The values of the `lookup` dict: each account's inverted balance, a later
      node with the same account overwriting an earlier one. */
  function LookupValues(nodes: seq<Node>, invert: int, currency: string): (L: map<string, real>)
    ensures forall a :: a in L <==> a in Accounts(nodes)
  {
    if |nodes| == 0 then map[]
    else
      var last := nodes[|nodes| - 1];
      assert Accounts(nodes) == Accounts(nodes[..|nodes| - 1]) + [last.account];
      LookupValues(nodes[..|nodes| - 1], invert, currency)[last.account := invert as real * BalanceOf(last, currency)]
  }

  /** The keys of `lookup` in dict order: the walked accounts at their first
      occurrence. */
  function WalkKeys(root: Node): seq<string>
  {
    Dedup(Accounts(Preorder(root)))
  }

  function WalkLookup(root: Node, invert: int, currency: string): map<string, real>
  {
    LookupValues(Preorder(root), invert, currency)
  }

  /** `max(lookup.values())`. */
  function MaxValue(keys: seq<string>, L: map<string, real>): (m: real)
    requires |keys| > 0
    requires forall k :: k in keys ==> k in L
    ensures forall k :: k in keys ==> L[k] <= m
    ensures exists k :: k in keys && L[k] == m
  {
    if |keys| == 1 then L[keys[0]]
    else
      var rest := MaxValue(keys[1..], L);
      assert forall k :: k in keys ==> k == keys[0] || k in keys[1..];
      if L[keys[0]] >= rest then L[keys[0]] else rest
  }

  /** `min_display = min_fraction * mx`. */
  function MinDisplay(minFraction: real, mx: real): real
  {
    minFraction * mx
  }

  function Ids(sd: seq<Record>): (r: seq<string>)
    ensures |r| == |sd|
    ensures forall k :: 0 <= k < |sd| ==> r[k] == sd[k].id
  {
    seq(|sd|, k requires 0 <= k < |sd| => sd[k].id)
  }

  /** When the i-th visited account is emitted: no earlier account that was
      left out is a (raw string) prefix of it, it reaches the display minimum,
      and it reaches a tenth of its parent's value. */
  ghost predicate Kept(keys: seq<string>, L: map<string, real>, minDisplay: real, ids: seq<string>, i: nat)
    requires i < |keys|
  {
    && keys[i] in L
    && (forall j :: 0 <= j < i && keys[j] !in ids ==> !(keys[j] <= keys[i]))
    && L[keys[i]] >= minDisplay
    && (Parent(keys[i]) == "" || (Parent(keys[i]) in L && L[keys[i]] >= L[Parent(keys[i])] / 10.0))
  }

  /** The records are exactly the kept accounts, in visiting order, each
      carrying its id, parent path, last segment and looked-up value. */
  ghost predicate Characterizes(keys: seq<string>, L: map<string, real>, minDisplay: real, sd: seq<Record>)
  {
    && (forall k :: 0 <= k < |sd| ==>
          sd[k].id in keys && sd[k].id in L
          && sd[k] == Record(Parent(sd[k].id), sd[k].id, LastSegment(sd[k].id), L[sd[k].id]))
    && (forall k1, k2 :: 0 <= k1 < k2 < |sd| ==> FirstIndex(keys, sd[k1].id) < FirstIndex(keys, sd[k2].id))
    && (forall i :: 0 <= i < |keys| ==> (keys[i] in Ids(sd) <==> Kept(keys, L, minDisplay, Ids(sd), i)))
  }

  /** The loop reaches the i-th account's `lookup[parent]` and raises: no
      earlier account left out is a prefix of it, it reaches the display
      minimum, and its non-empty parent path is not a key. */
  ghost predicate Blocked(keys: seq<string>, L: map<string, real>, minDisplay: real, ids: seq<string>, i: nat)
    requires i < |keys|
  {
    && keys[i] in L
    && (forall j :: 0 <= j < i && keys[j] !in ids ==> !(keys[j] <= keys[i]))
    && L[keys[i]] >= minDisplay
    && Parent(keys[i]) != "" && Parent(keys[i]) !in L
  }

  /** `ids` holds exactly the kept accounts among the first i visited. */
  ghost predicate Decisions(keys: seq<string>, L: map<string, real>, minDisplay: real, ids: seq<string>, i: nat)
    requires i <= |keys|
  {
    forall j :: 0 <= j < i ==> (keys[j] in ids <==> Kept(keys, L, minDisplay, ids, j))
  }

  /** None of the first i accounts makes the loop raise. */
  ghost predicate Unblocked(keys: seq<string>, L: map<string, real>, minDisplay: real, ids: seq<string>, i: nat)
    requires i <= |keys|
  {
    forall j :: 0 <= j < i ==> !Blocked(keys, L, minDisplay, ids, j)
  }

  /** The i-th account is the first one at which the loop raises `KeyError`. */
  ghost predicate FirstBlocked(keys: seq<string>, L: map<string, real>, minDisplay: real, i: nat)
  {
    i < |keys|
    && exists ids :: Decisions(keys, L, minDisplay, ids, i)
                     && Unblocked(keys, L, minDisplay, ids, i)
                     && Blocked(keys, L, minDisplay, ids, i)
  }

  /** The loop runs to its end without raising. */
  ghost predicate NoneBlocked(keys: seq<string>, L: map<string, real>, minDisplay: real)
  {
    forall i :: 0 <= i < |keys| ==> !FirstBlocked(keys, L, minDisplay, i)
  }

  lemma WalkKeysInLookup(root: Node, invert: int, currency: string)
    ensures |WalkKeys(root)| > 0
    ensures Distinct(WalkKeys(root))
    ensures forall k :: k in WalkKeys(root) <==> k in WalkLookup(root, invert, currency)
  {
    assert Accounts(Preorder(root))[0] in WalkKeys(root);
  }

  /** The pruning loop of `create_breakdown_chart` (the figure built from the
      records afterwards is not modelled). */
  method CreateBreakdown(root: Node, currency: string, minFraction: real)
    returns (r: Result<seq<Record>, BreakdownError>)
    ensures FromAccount(root.account).Err? <==> r == Err(UnknownRoot(root.account))
    ensures FromAccount(root.account).Ok? ==>
      var keys := WalkKeys(root);
      var L := WalkLookup(root, FromAccount(root.account).value.invert, currency);
      && |keys| > 0 && (forall k :: k in keys <==> k in L)
      && (r == Err(NonPositiveMaximum) <==> MaxValue(keys, L) <= 0.0)
      && (MaxValue(keys, L) > 0.0 ==> (r.Ok? <==> NoneBlocked(keys, L, MinDisplay(minFraction, MaxValue(keys, L)))))
      && (r.Err? && r.error.MissingParent? ==>
            exists i: nat :: FirstBlocked(keys, L, MinDisplay(minFraction, MaxValue(keys, L)), i)
                        && r.error == MissingParent(Parent(keys[i])))
      && (r.Ok? ==> MaxValue(keys, L) > 0.0 && Characterizes(keys, L, MinDisplay(minFraction, MaxValue(keys, L)), r.value))
  {
    var bp := FromAccount(root.account);
    if bp.Err? {
      return Err(UnknownRoot(root.account));
    }
    var invert := bp.value.invert;
    WalkKeysInLookup(root, invert, currency);
    r := BreakdownOfLookup(WalkKeys(root), WalkLookup(root, invert, currency), minFraction);
  }

  /** From `mx = max(lookup.values())` on, for the visiting order `keys` of
      the dict `L`. */
  method BreakdownOfLookup(keys: seq<string>, L: map<string, real>, minFraction: real)
    returns (r: Result<seq<Record>, BreakdownError>)
    requires |keys| > 0 && Distinct(keys)
    requires forall k :: k in keys <==> k in L
    ensures r.Ok? || r.error.NonPositiveMaximum? || r.error.MissingParent?
    ensures r == Err(NonPositiveMaximum) <==> MaxValue(keys, L) <= 0.0
    ensures MaxValue(keys, L) > 0.0 ==> (r.Ok? <==> NoneBlocked(keys, L, MinDisplay(minFraction, MaxValue(keys, L))))
    ensures r.Err? && r.error.MissingParent? ==>
      exists i: nat :: FirstBlocked(keys, L, MinDisplay(minFraction, MaxValue(keys, L)), i)
                  && r.error == MissingParent(Parent(keys[i]))
    ensures r.Ok? ==> MaxValue(keys, L) > 0.0 && Characterizes(keys, L, MinDisplay(minFraction, MaxValue(keys, L)), r.value)
  {
    var mx := MaxValue(keys, L);
    if !(mx > 0.0) {
      return Err(NonPositiveMaximum);
    }
    r := Prune(keys, L, MinDisplay(minFraction, mx));
  }

  /** The loop over `lookup.keys()`: skip accounts under an already pruned
      one, prune those below the display minimum or below a tenth of their
      parent, emit the rest. */
  method Prune(keys: seq<string>, L: map<string, real>, minDisplay: real)
    returns (r: Result<seq<Record>, BreakdownError>)
    requires Distinct(keys)
    requires forall k :: k in keys ==> k in L
    ensures r.Ok? || r.error.MissingParent?
    ensures r.Ok? <==> NoneBlocked(keys, L, minDisplay)
    ensures r.Err? ==> exists i: nat :: FirstBlocked(keys, L, minDisplay, i) && r.error == MissingParent(Parent(keys[i]))
    ensures r.Ok? ==> Characterizes(keys, L, minDisplay, r.value)
  {
    var pruned: seq<string> := [];
    var sd: seq<Record> := [];
    ghost var pos: seq<nat> := [];
    ghost var ppos: seq<nat> := [];
    var i := 0;
    while i < |keys|
      invariant PruneInv(keys, L, minDisplay, pruned, ppos, sd, pos, i)
    {
      var account := keys[i];
      var value := L[account];
      if Covered(pruned, account) {
        SkipStep(keys, L, minDisplay, pruned, ppos, sd, pos, i);
      } else if value < minDisplay {
        PruneStep(keys, L, minDisplay, pruned, ppos, sd, pos, i);
        pruned := pruned + [account];
        ppos := ppos + [i];
      } else {
        var parent := Parent(account);
        if parent != "" && parent !in L {
          BlockedHere(keys, L, minDisplay, pruned, ppos, sd, pos, i);
          assert FirstBlocked(keys, L, minDisplay, i);
          return Err(MissingParent(parent));
        }
        if parent != "" && value < L[parent] / 10.0 {
          PruneStep(keys, L, minDisplay, pruned, ppos, sd, pos, i);
          pruned := pruned + [account];
          ppos := ppos + [i];
        } else {
          EmitStep(keys, L, minDisplay, pruned, ppos, sd, pos, i);
          sd := sd + [Record(parent, account, LastSegment(account), value)];
          pos := pos + [i];
        }
      }
      i := i + 1;
    }
    PruneDone(keys, L, minDisplay, pruned, ppos, sd, pos);
    NoneBlockedDone(keys, L, minDisplay, Ids(sd));
    r := Ok(sd);
  }

  /** What the pruning loop keeps after visiting the first i accounts. */
  ghost predicate PruneInv(keys: seq<string>, L: map<string, real>, minDisplay: real,
                           pruned: seq<string>, ppos: seq<nat>, sd: seq<Record>, pos: seq<nat>, i: nat)
  {
    && Layout(keys, L, pruned, ppos, sd, pos, i)
    && Decided(keys, L, minDisplay, pruned, sd, i)
    && Unblocked(keys, L, minDisplay, Ids(sd), i)
  }

  /** `pos` and `ppos` record where each emitted and each pruned account was
      visited. */
  ghost predicate Layout(keys: seq<string>, L: map<string, real>,
                         pruned: seq<string>, ppos: seq<nat>, sd: seq<Record>, pos: seq<nat>, i: nat)
  {
    && Distinct(keys)
    && (forall k :: k in keys ==> k in L)
    && i <= |keys|
    && |pos| == |sd|
    && (forall k :: 0 <= k < |sd| ==> pos[k] < i && keys[pos[k]] == sd[k].id)
    && (forall k1, k2 :: 0 <= k1 < k2 < |sd| ==> pos[k1] < pos[k2])
    && (forall k :: 0 <= k < |sd| ==>
          sd[k] == Record(Parent(sd[k].id), sd[k].id, LastSegment(sd[k].id), L[sd[k].id]))
    && |ppos| == |pruned|
    && (forall q :: 0 <= q < |pruned| ==> ppos[q] < i && keys[ppos[q]] == pruned[q] && pruned[q] !in Ids(sd))
  }

  /** Every visited account was emitted exactly when it is kept, and every
      visited account left out lies under a pruned one. */
  ghost predicate Decided(keys: seq<string>, L: map<string, real>, minDisplay: real,
                          pruned: seq<string>, sd: seq<Record>, i: nat)
    requires i <= |keys|
  {
    && (forall j :: 0 <= j < i && keys[j] !in Ids(sd) ==> Covered(pruned, keys[j]))
    && (forall j :: 0 <= j < i ==> (keys[j] in Ids(sd) <==> Kept(keys, L, minDisplay, Ids(sd), j)))
  }

  lemma NotYetEmitted(keys: seq<string>, L: map<string, real>,
                      pruned: seq<string>, ppos: seq<nat>, sd: seq<Record>, pos: seq<nat>, i: nat)
    requires Layout(keys, L, pruned, ppos, sd, pos, i) && i < |keys|
    ensures keys[i] !in Ids(sd)
  {
    forall k | 0 <= k < |sd| ensures sd[k].id != keys[i] {
      assert keys[pos[k]] == sd[k].id;
    }
  }

  lemma SkipStep(keys: seq<string>, L: map<string, real>, minDisplay: real,
                 pruned: seq<string>, ppos: seq<nat>, sd: seq<Record>, pos: seq<nat>, i: nat)
    requires PruneInv(keys, L, minDisplay, pruned, ppos, sd, pos, i) && i < |keys|
    requires Covered(pruned, keys[i])
    ensures PruneInv(keys, L, minDisplay, pruned, ppos, sd, pos, i + 1)
  {
    NotYetEmitted(keys, L, pruned, ppos, sd, pos, i);
    var p :| p in pruned && p <= keys[i];
    var q :| 0 <= q < |pruned| && pruned[q] == p;
    assert keys[ppos[q]] !in Ids(sd);
    assert !Kept(keys, L, minDisplay, Ids(sd), i);
    assert Covered(pruned, keys[i]);
    DecidedStep(keys, L, minDisplay, pruned, sd, i);
    UnblockedStep(keys, L, minDisplay, Ids(sd), i, ppos[q]);
  }

  /** Deciding the i-th account as the invariant says extends the decisions. */
  lemma DecidedStep(keys: seq<string>, L: map<string, real>, minDisplay: real,
                    pruned: seq<string>, sd: seq<Record>, i: nat)
    requires i < |keys| && Decided(keys, L, minDisplay, pruned, sd, i)
    requires keys[i] !in Ids(sd) ==> Covered(pruned, keys[i])
    requires keys[i] in Ids(sd) <==> Kept(keys, L, minDisplay, Ids(sd), i)
    ensures Decided(keys, L, minDisplay, pruned, sd, i + 1)
  {
  }

  lemma PruneStep(keys: seq<string>, L: map<string, real>, minDisplay: real,
                  pruned: seq<string>, ppos: seq<nat>, sd: seq<Record>, pos: seq<nat>, i: nat)
    requires PruneInv(keys, L, minDisplay, pruned, ppos, sd, pos, i) && i < |keys|
    requires L[keys[i]] < minDisplay
      || (Parent(keys[i]) != "" && Parent(keys[i]) in L && L[keys[i]] < L[Parent(keys[i])] / 10.0)
    ensures PruneInv(keys, L, minDisplay, pruned + [keys[i]], ppos + [i], sd, pos, i + 1)
  {
    NotYetEmitted(keys, L, pruned, ppos, sd, pos, i);
    assert !Kept(keys, L, minDisplay, Ids(sd), i);
    UnblockedLookup(keys, L, minDisplay, Ids(sd), i);
    CoveredAppend(pruned, keys[i], keys);
    assert Decided(keys, L, minDisplay, pruned + [keys[i]], sd, i);
    DecidedStep(keys, L, minDisplay, pruned + [keys[i]], sd, i);
  }

  lemma EmitStep(keys: seq<string>, L: map<string, real>, minDisplay: real,
                 pruned: seq<string>, ppos: seq<nat>, sd: seq<Record>, pos: seq<nat>, i: nat)
    requires PruneInv(keys, L, minDisplay, pruned, ppos, sd, pos, i) && i < |keys|
    requires !Covered(pruned, keys[i])
    requires L[keys[i]] >= minDisplay
    requires Parent(keys[i]) == "" || (Parent(keys[i]) in L && L[keys[i]] >= L[Parent(keys[i])] / 10.0)
    ensures PruneInv(keys, L, minDisplay, pruned, ppos,
      sd + [Record(Parent(keys[i]), keys[i], LastSegment(keys[i]), L[keys[i]])], pos + [i], i + 1)
  {
    NotYetEmitted(keys, L, pruned, ppos, sd, pos, i);
    var sd' := sd + [Record(Parent(keys[i]), keys[i], LastSegment(keys[i]), L[keys[i]])];
    assert Ids(sd') == Ids(sd) + [keys[i]];
    assert Layout(keys, L, pruned, ppos, sd', pos + [i], i + 1);
    assert Kept(keys, L, minDisplay, Ids(sd), i) by {
      NoPrunedPrefix(keys, L, minDisplay, pruned, ppos, sd, pos, i);
    }
    DecidedEmit(keys, L, minDisplay, pruned, sd, sd', i);
    assert !Blocked(keys, L, minDisplay, Ids(sd), i);
    UnblockedEmit(keys, L, minDisplay, Ids(sd), i);
  }

  /** Emitting an account that does not raise keeps every earlier account
      from raising. */
  lemma UnblockedEmit(keys: seq<string>, L: map<string, real>, minDisplay: real, ids: seq<string>, i: nat)
    requires Distinct(keys) && i < |keys|
    requires Unblocked(keys, L, minDisplay, ids, i) && !Blocked(keys, L, minDisplay, ids, i)
    ensures Unblocked(keys, L, minDisplay, ids + [keys[i]], i + 1)
  {
    forall j | 0 <= j <= i ensures !Blocked(keys, L, minDisplay, ids + [keys[i]], j) {
      Agree(keys, L, minDisplay, ids, ids + [keys[i]], j);
    }
  }

  /** An account below the display minimum, or whose parent is "" or a key,
      does not make the loop raise. */
  lemma UnblockedLookup(keys: seq<string>, L: map<string, real>, minDisplay: real, ids: seq<string>, i: nat)
    requires i < |keys| && keys[i] in L && Unblocked(keys, L, minDisplay, ids, i)
    requires L[keys[i]] < minDisplay || Parent(keys[i]) == "" || Parent(keys[i]) in L
    ensures Unblocked(keys, L, minDisplay, ids, i + 1)
  {
    assert !Blocked(keys, L, minDisplay, ids, i);
  }

  /** An account under an earlier account left out does not make the loop
      raise. */
  lemma UnblockedStep(keys: seq<string>, L: map<string, real>, minDisplay: real, ids: seq<string>, i: nat, j: nat)
    requires i < |keys| && Unblocked(keys, L, minDisplay, ids, i)
    requires j < i && keys[j] !in ids && keys[j] <= keys[i]
    ensures Unblocked(keys, L, minDisplay, ids, i + 1)
  {
    assert !Blocked(keys, L, minDisplay, ids, i);
  }

  /** No account left out before an uncovered account i is a prefix of it. */
  lemma NoPrunedPrefix(keys: seq<string>, L: map<string, real>, minDisplay: real,
                       pruned: seq<string>, ppos: seq<nat>, sd: seq<Record>, pos: seq<nat>, i: nat)
    requires PruneInv(keys, L, minDisplay, pruned, ppos, sd, pos, i) && i < |keys|
    requires !Covered(pruned, keys[i])
    ensures forall j :: 0 <= j < i && keys[j] !in Ids(sd) ==> !(keys[j] <= keys[i])
  {
    forall j | 0 <= j < i && keys[j] !in Ids(sd) ensures !(keys[j] <= keys[i]) {
      var p :| p in pruned && p <= keys[j];
      if keys[j] <= keys[i] {
        PrefixTransitive(p, keys[j], keys[i]);
      }
    }
  }

  /** An uncovered account above the display minimum whose parent is not a
      key makes the loop raise. */
  lemma BlockedHere(keys: seq<string>, L: map<string, real>, minDisplay: real,
                    pruned: seq<string>, ppos: seq<nat>, sd: seq<Record>, pos: seq<nat>, i: nat)
    requires PruneInv(keys, L, minDisplay, pruned, ppos, sd, pos, i) && i < |keys|
    requires !Covered(pruned, keys[i]) && L[keys[i]] >= minDisplay
    requires Parent(keys[i]) != "" && Parent(keys[i]) !in L
    ensures Decisions(keys, L, minDisplay, Ids(sd), i)
    ensures Unblocked(keys, L, minDisplay, Ids(sd), i)
    ensures Blocked(keys, L, minDisplay, Ids(sd), i)
  {
    NoPrunedPrefix(keys, L, minDisplay, pruned, ppos, sd, pos, i);
  }

  /** Decisions and raising at account j depend only on which earlier
      accounts were emitted. */
  lemma Agree(keys: seq<string>, L: map<string, real>, minDisplay: real, a: seq<string>, b: seq<string>, j: nat)
    requires j < |keys|
    requires forall q :: 0 <= q < j ==> (keys[q] in a <==> keys[q] in b)
    ensures Kept(keys, L, minDisplay, a, j) == Kept(keys, L, minDisplay, b, j)
    ensures Blocked(keys, L, minDisplay, a, j) == Blocked(keys, L, minDisplay, b, j)
  {
  }

  /** Two emitted sets that both follow the decisions agree on the first i
      accounts: the decisions are determined by the keys and the lookup. */
  lemma {:induction false} DecisionsAgree(keys: seq<string>, L: map<string, real>, minDisplay: real,
                                          a: seq<string>, b: seq<string>, i: nat)
    requires i <= |keys|
    requires Decisions(keys, L, minDisplay, a, i) && Decisions(keys, L, minDisplay, b, i)
    ensures forall q :: 0 <= q < i ==> (keys[q] in a <==> keys[q] in b)
  {
    if i > 0 {
      DecisionsAgree(keys, L, minDisplay, a, b, i - 1);
      Agree(keys, L, minDisplay, a, b, i - 1);
    }
  }

  /** A loop that found no account to raise at raises at no account. */
  lemma NoneBlockedDone(keys: seq<string>, L: map<string, real>, minDisplay: real, ids: seq<string>)
    requires Decisions(keys, L, minDisplay, ids, |keys|) && Unblocked(keys, L, minDisplay, ids, |keys|)
    ensures NoneBlocked(keys, L, minDisplay)
  {
    forall i | 0 <= i < |keys| ensures !FirstBlocked(keys, L, minDisplay, i) {
      if FirstBlocked(keys, L, minDisplay, i) {
        var ids' :| Decisions(keys, L, minDisplay, ids', i)
                    && Unblocked(keys, L, minDisplay, ids', i)
                    && Blocked(keys, L, minDisplay, ids', i);
        assert Decisions(keys, L, minDisplay, ids, i);
        DecisionsAgree(keys, L, minDisplay, ids, ids', i);
        Agree(keys, L, minDisplay, ids, ids', i);
        assert false;
      }
    }
  }

  lemma DecidedEmit(keys: seq<string>, L: map<string, real>, minDisplay: real,
                    pruned: seq<string>, sd: seq<Record>, sd': seq<Record>, i: nat)
    requires Distinct(keys) && i < |keys| && (forall k :: k in keys ==> k in L)
    requires Decided(keys, L, minDisplay, pruned, sd, i)
    requires keys[i] !in Ids(sd) && Ids(sd') == Ids(sd) + [keys[i]]
    requires Kept(keys, L, minDisplay, Ids(sd), i)
    ensures Decided(keys, L, minDisplay, pruned, sd', i + 1)
  {
    KeptExtendAll(keys, L, minDisplay, Ids(sd), i);
    forall j | 0 <= j < i ensures keys[j] in Ids(sd') <==> keys[j] in Ids(sd) {
    }
  }

  lemma PruneDone(keys: seq<string>, L: map<string, real>, minDisplay: real,
                  pruned: seq<string>, ppos: seq<nat>, sd: seq<Record>, pos: seq<nat>)
    requires PruneInv(keys, L, minDisplay, pruned, ppos, sd, pos, |keys|)
    ensures Characterizes(keys, L, minDisplay, sd)
  {
    forall k1, k2 | 0 <= k1 < k2 < |sd| ensures FirstIndex(keys, sd[k1].id) < FirstIndex(keys, sd[k2].id) {
      DistinctFirstIndex(keys, pos[k1]);
      DistinctFirstIndex(keys, pos[k2]);
    }
  }

  /** Every emitted record reaches the display minimum and a tenth of its
      parent's value; with a non-negative fraction its value is non-negative. */
  lemma EmittedBounds(keys: seq<string>, L: map<string, real>, mx: real, minFraction: real, sd: seq<Record>, k: nat)
    requires forall a :: a in keys ==> a in L
    requires Characterizes(keys, L, MinDisplay(minFraction, mx), sd)
    requires mx > 0.0 && k < |sd|
    ensures sd[k].value >= MinDisplay(minFraction, mx)
    ensures minFraction >= 0.0 ==> sd[k].value >= 0.0
    ensures sd[k].parent != "" ==> sd[k].parent in L && sd[k].value * 10.0 >= L[sd[k].parent]
  {
    assert sd[k].id in keys;
    var i :| 0 <= i < |keys| && keys[i] == sd[k].id;
    assert Ids(sd)[k] == keys[i];
    assert Kept(keys, L, MinDisplay(minFraction, mx), Ids(sd), i);
  }

  /** Every key with a non-empty parent path that is itself a key comes after
      that parent. */
  ghost predicate ParentsFirst(keys: seq<string>)
  {
    forall i :: 0 <= i < |keys| && Parent(keys[i]) != "" && Parent(keys[i]) in keys ==>
      exists j :: 0 <= j < i && keys[j] == Parent(keys[i])
  }

  /** The walk of a well-formed tree visits each parent account before its
      children, also after de-duplication, and the root's own parent path is
      never visited. */
  lemma WalkKeysParentsFirst(root: Node)
    requires WellFormed(root)
    ensures ParentsFirst(WalkKeys(root))
  {
    var A := Accounts(Preorder(root));
    var P := Preorder(root);
    WalkParentsBefore(root);
    forall i | 0 < i < |A| ensures exists j :: 0 <= j < i && A[j] == Parent(A[i]) {
      var j :| 0 <= j < i && P[j].account == Parent(P[i].account);
      assert A[j] == Parent(A[i]);
    }
    DedupParentsFirst(A);
  }

  lemma DedupParentsFirst(A: seq<string>)
    requires |A| > 0
    requires forall i :: 0 < i < |A| ==> exists j :: 0 <= j < i && A[j] == Parent(A[i])
    requires forall i :: 0 <= i < |A| ==> |Segments(A[i])| >= |Segments(A[0])|
    ensures ParentsFirst(Dedup(A))
  {
    var keys := Dedup(A);
    DedupFirstOccurrenceOrder(A);
    forall i | 0 <= i < |keys| && Parent(keys[i]) != "" && Parent(keys[i]) in keys
      ensures exists j :: 0 <= j < i && keys[j] == Parent(keys[i])
    {
      DedupParentFirst(A, i);
    }
  }

  /** One key of the de-duplicated walk: its parent, when a key, comes first. */
  lemma DedupParentFirst(A: seq<string>, i: nat)
    requires |A| > 0
    requires forall i :: 0 < i < |A| ==> exists j :: 0 <= j < i && A[j] == Parent(A[i])
    requires forall i :: 0 <= i < |A| ==> |Segments(A[i])| >= |Segments(A[0])|
    requires forall i, j :: 0 <= i < j < |Dedup(A)| ==> FirstIndex(A, Dedup(A)[i]) < FirstIndex(A, Dedup(A)[j])
    requires i < |Dedup(A)| && Parent(Dedup(A)[i]) != "" && Parent(Dedup(A)[i]) in Dedup(A)
    ensures exists j :: 0 <= j < i && Dedup(A)[j] == Parent(Dedup(A)[i])
  {
    var keys := Dedup(A);
    var x := keys[i];
    var p := Parent(x);
    ParentFirstIndex(A, x);
    var i' :| 0 <= i' < |keys| && keys[i'] == p;
    KeyOrder(A, i', i);
  }

  /** De-duplicated keys keep the order of their first visits. */
  lemma KeyOrder(A: seq<string>, i1: nat, i2: nat)
    requires forall i, j :: 0 <= i < j < |Dedup(A)| ==> FirstIndex(A, Dedup(A)[i]) < FirstIndex(A, Dedup(A)[j])
    requires i1 < |Dedup(A)| && i2 < |Dedup(A)|
    requires FirstIndex(A, Dedup(A)[i1]) < FirstIndex(A, Dedup(A)[i2])
    ensures i1 < i2
  {
    if i2 <= i1 {
      assert false;
    }
  }

  /** In a walk that visits parents first, a parent path that is visited is
      first visited before the account. */
  lemma ParentFirstIndex(A: seq<string>, x: string)
    requires |A| > 0
    requires forall i :: 0 < i < |A| ==> exists j :: 0 <= j < i && A[j] == Parent(A[i])
    requires forall i :: 0 <= i < |A| ==> |Segments(A[i])| >= |Segments(A[0])|
    requires x in A && Parent(x) != "" && Parent(x) in A
    ensures FirstIndex(A, Parent(x)) < FirstIndex(A, x)
  {
    var p := Parent(x);
    var a := FirstIndex(A, x);
    var m := FirstIndex(A, p);
    ParentSegments(x);
    assert a != 0;
    var j :| 0 <= j < a && A[j] == Parent(A[a]);
    assert m <= j;
  }


  /** With parents visited first, a record's parent is the id of an earlier
      record. */
  lemma ParentEmittedEarlier(keys: seq<string>, L: map<string, real>, minDisplay: real, sd: seq<Record>, k: nat)
    requires Distinct(keys) && ParentsFirst(keys)
    requires forall a :: a in keys <==> a in L
    requires Characterizes(keys, L, minDisplay, sd)
    requires k < |sd| && sd[k].parent != ""
    ensures exists k' :: 0 <= k' < k && sd[k'].id == sd[k].parent
  {
    var x := sd[k].id;
    var i :| 0 <= i < |keys| && keys[i] == x;
    assert Ids(sd)[k] == x;
    assert Kept(keys, L, minDisplay, Ids(sd), i);
    var p := Parent(x);
    var j :| 0 <= j < i && keys[j] == p;
    ParentIsPrefix(x);
    assert keys[j] in Ids(sd);
    var k' :| 0 <= k' < |sd| && Ids(sd)[k'] == p;
    DistinctFirstIndex(keys, i);
    DistinctFirstIndex(keys, j);
    RecordOrder(keys, L, minDisplay, sd, k', k);
  }

  /** Records come in visiting order: a record whose id is visited earlier
      comes earlier. */
  lemma RecordOrder(keys: seq<string>, L: map<string, real>, minDisplay: real, sd: seq<Record>, k1: nat, k2: nat)
    requires Characterizes(keys, L, minDisplay, sd)
    requires k1 < |sd| && k2 < |sd|
    requires FirstIndex(keys, sd[k1].id) < FirstIndex(keys, sd[k2].id)
    ensures k1 < k2
  {
    if k2 <= k1 {
      assert false;
    }
  }

  /** For a well-formed tree, each emitted record's parent is "" or the id of
      a record emitted before it. */
  lemma BreakdownParentsEarlier(root: Node, invert: int, currency: string, minDisplay: real, sd: seq<Record>)
    requires WellFormed(root)
    requires Characterizes(WalkKeys(root), WalkLookup(root, invert, currency), minDisplay, sd)
    ensures forall k :: 0 <= k < |sd| && sd[k].parent != "" ==>
      exists k' :: 0 <= k' < k && sd[k'].id == sd[k].parent
  {
    WalkKeysInLookup(root, invert, currency);
    WalkKeysParentsFirst(root);
    forall k | 0 <= k < |sd| && sd[k].parent != ""
      ensures exists k' :: 0 <= k' < k && sd[k'].id == sd[k].parent
    {
      ParentEmittedEarlier(WalkKeys(root), WalkLookup(root, invert, currency), minDisplay, sd, k);
    }
  }

  /** `any(account.startswith(p) for p in pruned)`. */
  predicate Covered(pruned: seq<string>, account: string)
  {
    exists p :: p in pruned && p <= account
  }

  lemma CoveredAppend(pruned: seq<string>, x: string, seen: seq<string>)
    ensures Covered(pruned + [x], x)
    ensures forall a :: a in seen && Covered(pruned, a) ==> Covered(pruned + [x], a)
  {
    assert x in pruned + [x];
    forall a | a in seen && Covered(pruned, a) ensures Covered(pruned + [x], a) {
      var p :| p in pruned && p <= a;
      assert p in pruned + [x];
    }
  }

  lemma PrefixTransitive(a: string, b: string, c: string)
    requires a <= b && b <= c
    ensures a <= c
  {
    assert c[..|a|] == c[..|b|][..|a|];
  }

  lemma DistinctFirstIndex(keys: seq<string>, p: nat)
    requires Distinct(keys) && p < |keys|
    ensures FirstIndex(keys, keys[p]) == p
  {
  }

  lemma KeptExtendAll(keys: seq<string>, L: map<string, real>, minDisplay: real, ids: seq<string>, i: nat)
    requires Distinct(keys) && i < |keys|
    requires forall k :: k in keys ==> k in L
    ensures forall j :: 0 <= j <= i ==>
      Kept(keys, L, minDisplay, ids + [keys[i]], j) == Kept(keys, L, minDisplay, ids, j)
  {
    forall j | 0 <= j <= i
      ensures Kept(keys, L, minDisplay, ids + [keys[i]], j) == Kept(keys, L, minDisplay, ids, j)
    {
      KeptExtend(keys, L, minDisplay, ids, keys[i], j);
    }
  }

  /** Emitting an account that was not yet visited leaves every earlier
      decision as it was. */
  lemma KeptExtend(keys: seq<string>, L: map<string, real>, minDisplay: real, ids: seq<string>, x: string, j: nat)
    requires Distinct(keys) && j < |keys| && keys[j] in L
    requires forall q :: 0 <= q < j ==> keys[q] != x
    ensures Kept(keys, L, minDisplay, ids + [x], j) == Kept(keys, L, minDisplay, ids, j)
  {
    forall q | 0 <= q < j ensures (keys[q] in ids + [x]) == (keys[q] in ids) { }
  }
}
