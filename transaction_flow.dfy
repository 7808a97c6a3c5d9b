// The transaction flow diagram of `to_sankey_data`: every two-posting
// transaction is one directed flow between its truncated accounts; flows are
// totalled per directed pair, netted per unordered pair, and drawn between
// nodes sorted by relative flow.
module TransactionFlow {
  import opened Wrappers
  import opened AccountPath
  import opened Ledger
  import opened Sequences
  import opened StringOrder
  import HierarchyFlow

  /** A directed account pair, a key of `linktotals` or `abstotals`. */
  type Pair = (string, string)

  /** One directed flow: the truncated source and destination accounts and the
      destination posting's weight. */
  datatype Flow = Flow(source: string, dest: string, weight: real)

  /** `relative_flow` divides by zero for a node whose inflow and outflow sum
      to zero. */
  datatype TxnFlowError = DivisionByZero(account: string)

  /** A missing key of a `defaultdict(lambda: 0)` reads as 0. */
  function Get<K>(m: map<K, real>, k: K): real
  {
    if k in m then m[k] else 0.0
  }

  // ---- the flows ------------------------------------------------------------

  /** The flow one directive contributes: only a Transaction with exactly two
      postings whose truncated accounts differ counts; the source is the
      first posting when its units are negative and the second otherwise, and
      the flow carries the other (destination) posting's weight. */
  function FlowOf(d: Directive, maxdepth: int): (r: Option<Flow>)
    ensures r.Some? <==>
      d.Transaction? && |d.postings| == 2
      && Truncate(d.postings[0].account, maxdepth) != Truncate(d.postings[1].account, maxdepth)
    ensures r.Some? ==> r.value.source != r.value.dest
    ensures r.Some? && d.postings[0].units < 0.0 ==>
      r.value == Flow(Truncate(d.postings[0].account, maxdepth), Truncate(d.postings[1].account, maxdepth),
                      d.postings[1].weight)
    ensures r.Some? && d.postings[0].units >= 0.0 ==>
      r.value == Flow(Truncate(d.postings[1].account, maxdepth), Truncate(d.postings[0].account, maxdepth),
                      d.postings[0].weight)
  {
    match d
    case Other(_, _, _) => None
    case Transaction(_, _, _, _, _, _, postings, _) =>
      if |postings| != 2 then None
      else
        var source := if postings[0].units < 0.0 then postings[0] else postings[1];
        var dest := if postings[0].units < 0.0 then postings[1] else postings[0];
        var sa := Truncate(source.account, maxdepth);
        var da := Truncate(dest.account, maxdepth);
        if sa == da then None else Some(Flow(sa, da, dest.weight))
  }

  /** The flows of a directive list, in order. */
  function Flows(txns: seq<Directive>, maxdepth: int): seq<Flow>
  {
    if |txns| == 0 then []
    else
      var init := Flows(txns[..|txns| - 1], maxdepth);
      match FlowOf(txns[|txns| - 1], maxdepth)
      case None => init
      case Some(f) => init + [f]
  }

  /** A flow is counted exactly when some directive contributes it. */
  lemma FlowsIff(txns: seq<Directive>, maxdepth: int, f: Flow)
    ensures f in Flows(txns, maxdepth) <==> exists i :: 0 <= i < |txns| && FlowOf(txns[i], maxdepth) == Some(f)
  {
    if f in Flows(txns, maxdepth) {
      FlowsSound(txns, maxdepth, f);
    }
    if exists i :: 0 <= i < |txns| && FlowOf(txns[i], maxdepth) == Some(f) {
      var i :| 0 <= i < |txns| && FlowOf(txns[i], maxdepth) == Some(f);
      FlowsComplete(txns, maxdepth, i);
    }
  }

  lemma {:induction false} FlowsSound(txns: seq<Directive>, maxdepth: int, f: Flow)
    requires f in Flows(txns, maxdepth)
    ensures exists i :: 0 <= i < |txns| && FlowOf(txns[i], maxdepth) == Some(f)
  {
    var init := txns[..|txns| - 1];
    var last := txns[|txns| - 1];
    if f in Flows(init, maxdepth) {
      FlowsSound(init, maxdepth, f);
      var i :| 0 <= i < |init| && FlowOf(init[i], maxdepth) == Some(f);
      assert txns[i] == init[i];
    } else {
      assert FlowOf(last, maxdepth) == Some(f);
    }
  }

  lemma {:induction false} FlowsComplete(txns: seq<Directive>, maxdepth: int, i: nat)
    requires i < |txns| && FlowOf(txns[i], maxdepth).Some?
    ensures FlowOf(txns[i], maxdepth).value in Flows(txns, maxdepth)
  {
    var last := |txns| - 1;
    var init := txns[..last];
    if i == last {
      FlowsOfLast(txns, maxdepth);
    } else {
      assert init[i] == txns[i];
      FlowsComplete(init, maxdepth, i);
      FlowsOfInit(txns, maxdepth);
    }
  }

  /** The last directive's flow is among the flows of all. */
  lemma FlowsOfLast(txns: seq<Directive>, maxdepth: int)
    requires |txns| > 0 && FlowOf(txns[|txns| - 1], maxdepth).Some?
    ensures FlowOf(txns[|txns| - 1], maxdepth).value in Flows(txns, maxdepth)
  {
  }

  /** The flows of all but the last directive are among the flows of all. */
  lemma FlowsOfInit(txns: seq<Directive>, maxdepth: int)
    requires |txns| > 0
    ensures forall f :: f in Flows(txns[..|txns| - 1], maxdepth) ==> f in Flows(txns, maxdepth)
  {
  }

  /** No counted flow is a self-loop. */
  lemma {:induction false} FlowsNoSelfLoops(txns: seq<Directive>, maxdepth: int)
    ensures forall f :: f in Flows(txns, maxdepth) ==> f.source != f.dest
  {
    forall f | f in Flows(txns, maxdepth) ensures f.source != f.dest {
      FlowsIff(txns, maxdepth, f);
    }
  }

  // ---- totals ---------------------------------------------------------------

  /** The total weight flowing from p.0 to p.1 (`linktotals[p]`). */
  function PairTotal(flows: seq<Flow>, p: Pair): real
  {
    if |flows| == 0 then 0.0
    else
      var f := flows[|flows| - 1];
      PairTotal(flows[..|flows| - 1], p) + (if (f.source, f.dest) == p then f.weight else 0.0)
  }

  /** The total weight flowing into a (`inflows[a]`). */
  function InTotal(flows: seq<Flow>, a: string): real
  {
    if |flows| == 0 then 0.0
    else
      var f := flows[|flows| - 1];
      InTotal(flows[..|flows| - 1], a) + (if f.dest == a then f.weight else 0.0)
  }

  /** The total weight flowing out of a (`outflows[a]`). */
  function OutTotal(flows: seq<Flow>, a: string): real
  {
    if |flows| == 0 then 0.0
    else
      var f := flows[|flows| - 1];
      OutTotal(flows[..|flows| - 1], a) + (if f.source == a then f.weight else 0.0)
  }

  /** The net weight flowing from c.0 to c.1. */
  function NetFlow(flows: seq<Flow>, c: Pair): real
  {
    PairTotal(flows, c) - PairTotal(flows, (c.1, c.0))
  }

  function PairOf(f: Flow): Pair
  {
    (f.source, f.dest)
  }

  function Pairs(flows: seq<Flow>): (r: seq<Pair>)
    ensures |r| == |flows| && forall k :: 0 <= k < |flows| ==> r[k] == PairOf(flows[k])
  {
    seq(|flows|, k requires 0 <= k < |flows| => PairOf(flows[k]))
  }

  /** The canonical orientation of a pair: lexicographically smaller account
      first. */
  function Canon(p: Pair): Pair
  {
    if LexLess(p.0, p.1) then p else (p.1, p.0)
  }

  function CanonAll(ps: seq<Pair>): (r: seq<Pair>)
    ensures |r| == |ps| && forall k :: 0 <= k < |ps| ==> r[k] == Canon(ps[k])
  {
    seq(|ps|, k requires 0 <= k < |ps| => Canon(ps[k]))
  }

  /** The keys of `abstotals`, in dict order: the canonical pairs of the keys
      of `linktotals`, each once. */
  function LinkPairs(flows: seq<Flow>): seq<Pair>
  {
    Dedup(CanonAll(Dedup(Pairs(flows))))
  }

  /** Whether a is an account some flow starts or ends at. */
  ghost predicate IsEndpoint(flows: seq<Flow>, a: string)
  {
    exists f :: f in flows && (f.source == a || f.dest == a)
  }

  /** One link per unordered account pair: the link pairs are distinct, each
      is ordered with the smaller account first, each is the canonical pair
      of some flow and every flow's canonical pair is one of them; their
      endpoints are exactly the flows' endpoints. */
  lemma LinkPairsFacts(flows: seq<Flow>)
    requires forall f :: f in flows ==> f.source != f.dest
    ensures Distinct(LinkPairs(flows))
    ensures forall c :: c in LinkPairs(flows) ==> LexLess(c.0, c.1)
    ensures forall c :: c in LinkPairs(flows) <==> exists f :: f in flows && Canon(PairOf(f)) == c
    ensures forall a :: IsEndpoint(flows, a) <==> exists c :: c in LinkPairs(flows) && (c.0 == a || c.1 == a)
  {
    var U := LinkPairs(flows);
    var P := Pairs(flows);
    var C := CanonAll(Dedup(P));
    forall c | c in U ensures exists f :: f in flows && Canon(PairOf(f)) == c {
      var k :| 0 <= k < |C| && C[k] == c;
      var p := Dedup(P)[k];
      assert p in P;
      var j :| 0 <= j < |P| && P[j] == p;
      assert flows[j] in flows && Canon(PairOf(flows[j])) == c;
    }
    forall f | f in flows ensures Canon(PairOf(f)) in U && LexLess(Canon(PairOf(f)).0, Canon(PairOf(f)).1) {
      var j :| 0 <= j < |flows| && flows[j] == f;
      assert P[j] == PairOf(f);
      assert PairOf(f) in Dedup(P);
      var k :| 0 <= k < |Dedup(P)| && Dedup(P)[k] == PairOf(f);
      assert C[k] == Canon(PairOf(f));
      LexLessTotal(f.source, f.dest);
    }
    forall a | IsEndpoint(flows, a) ensures exists c :: c in U && (c.0 == a || c.1 == a) {
      var f :| f in flows && (f.source == a || f.dest == a);
      assert Canon(PairOf(f)) in U;
    }
    forall a | exists c :: c in U && (c.0 == a || c.1 == a) ensures IsEndpoint(flows, a) {
      var c :| c in U && (c.0 == a || c.1 == a);
      var f :| f in flows && Canon(PairOf(f)) == c;
    }
  }

  /** Two equal flows in opposite directions between a and b leave one link
      pair, whose net flow is zero: the link is still emitted, with value 0. */
  lemma OpposingFlowsCancel(a: string, b: string, w: real)
    requires a != b
    ensures var F := [Flow(a, b, w), Flow(b, a, w)];
      && LinkPairs(F) == [Canon((a, b))]
      && NetFlow(F, Canon((a, b))) == 0.0
  {
    OpposingPairs(a, b, w);
    OpposingTotals(a, b, w);
    LexLessTotal(a, b);
  }

  /** The two opposing flows collapse to one canonical link pair. */
  lemma OpposingPairs(a: string, b: string, w: real)
    requires a != b
    ensures LinkPairs([Flow(a, b, w), Flow(b, a, w)]) == [Canon((a, b))]
  {
    var F := [Flow(a, b, w), Flow(b, a, w)];
    assert Pairs(F) == [(a, b), (b, a)];
    DedupTwo((a, b), (b, a));
    LexLessTotal(a, b);
    var c := Canon((a, b));
    assert CanonAll([(a, b), (b, a)]) == [c, c];
    DedupTwo(c, c);
  }

  /** `Dedup` of a two-element list. */
  lemma DedupTwo(p: Pair, q: Pair)
    ensures Dedup([p, q]) == if p == q then [p] else [p, q]
  {
    assert [p, q][..1] == [p];
    assert [p][..0] == [];
  }

  /** Each direction of the two opposing flows carries w. */
  lemma OpposingTotals(a: string, b: string, w: real)
    requires a != b
    ensures var F := [Flow(a, b, w), Flow(b, a, w)];
      PairTotal(F, (a, b)) == w && PairTotal(F, (b, a)) == w
  {
    var F := [Flow(a, b, w), Flow(b, a, w)];
    assert F[..1] == [Flow(a, b, w)] && F[..1][..0] == [];
    var F1 := [Flow(a, b, w)];
    assert F1[..0] == [];
    assert PairTotal(F1, (a, b)) == w && PairTotal(F1, (b, a)) == 0.0;
  }

  // ---- first loop: accumulate linktotals, inflows, outflows -------------------

  /** The state of the first loop after the flows F: `linktotals` keyed in
      order of first appearance, and `inflows`/`outflows` per account. */
  ghost predicate Accumulated(F: seq<Flow>, keys: seq<Pair>, totals: map<Pair, real>,
                              inflows: map<string, real>, outflows: map<string, real>)
  {
    && KeysAccumulated(F, keys, totals)
    && (forall p :: Get(totals, p) == PairTotal(F, p))
    && AccountsAccumulated(F, inflows, outflows)
  }

  ghost predicate KeysAccumulated(F: seq<Flow>, keys: seq<Pair>, totals: map<Pair, real>)
  {
    && keys == Dedup(Pairs(F))
    && (forall p :: p in totals <==> p in keys)
  }

  ghost predicate AccountsAccumulated(F: seq<Flow>, inflows: map<string, real>, outflows: map<string, real>)
  {
    && (forall a :: Get(inflows, a) == InTotal(F, a))
    && (forall a :: Get(outflows, a) == OutTotal(F, a))
  }

  /** Adding one flow's weight to the three dicts accounts for that flow. */
  lemma AccumulateStep(F: seq<Flow>, keys: seq<Pair>, totals: map<Pair, real>,
                       inflows: map<string, real>, outflows: map<string, real>, sa: string, da: string, weight: real)
    requires Accumulated(F, keys, totals, inflows, outflows)
    ensures Accumulated(F + [Flow(sa, da, weight)],
                        if (sa, da) in totals then keys else keys + [(sa, da)],
                        totals[(sa, da) := Get(totals, (sa, da)) + weight],
                        inflows[da := Get(inflows, da) + weight],
                        outflows[sa := Get(outflows, sa) + weight])
  {
    KeysStep(F, keys, totals, sa, da, weight);
    TotalsStep(F, totals, sa, da, weight);
    AccountsStep(F, inflows, outflows, sa, da, weight);
  }

  lemma TotalsStep(F: seq<Flow>, totals: map<Pair, real>, sa: string, da: string, weight: real)
    requires forall p :: Get(totals, p) == PairTotal(F, p)
    ensures forall p :: Get(totals[(sa, da) := Get(totals, (sa, da)) + weight], p) == PairTotal(F + [Flow(sa, da, weight)], p)
  {
    TotalsSnoc(F, Flow(sa, da, weight));
  }

  lemma KeysStep(F: seq<Flow>, keys: seq<Pair>, totals: map<Pair, real>, sa: string, da: string, weight: real)
    requires KeysAccumulated(F, keys, totals)
    ensures KeysAccumulated(F + [Flow(sa, da, weight)], if (sa, da) in totals then keys else keys + [(sa, da)],
                            totals[(sa, da) := Get(totals, (sa, da)) + weight])
  {
    assert Pairs(F + [Flow(sa, da, weight)]) == Pairs(F) + [(sa, da)];
    DedupSnoc(Pairs(F), (sa, da));
  }

  lemma AccountsStep(F: seq<Flow>, inflows: map<string, real>, outflows: map<string, real>,
                     sa: string, da: string, weight: real)
    requires AccountsAccumulated(F, inflows, outflows)
    ensures AccountsAccumulated(F + [Flow(sa, da, weight)], inflows[da := Get(inflows, da) + weight],
                                outflows[sa := Get(outflows, sa) + weight])
  {
    TotalsSnoc(F, Flow(sa, da, weight));
  }

  /** Each total over one more flow adds that flow's weight where it applies. */
  lemma TotalsSnoc(F: seq<Flow>, f: Flow)
    ensures forall p :: PairTotal(F + [f], p) == PairTotal(F, p) + (if PairOf(f) == p then f.weight else 0.0)
    ensures forall a :: InTotal(F + [f], a) == InTotal(F, a) + (if f.dest == a then f.weight else 0.0)
    ensures forall a :: OutTotal(F + [f], a) == OutTotal(F, a) + (if f.source == a then f.weight else 0.0)
  {
    assert (F + [f])[..|F|] == F;
  }

  /** The flows of one more directive. */
  lemma FlowsSnoc(txns: seq<Directive>, maxdepth: int, i: nat)
    requires i < |txns|
    ensures FlowOf(txns[i], maxdepth).None? ==> Flows(txns[..i + 1], maxdepth) == Flows(txns[..i], maxdepth)
    ensures FlowOf(txns[i], maxdepth).Some? ==>
      Flows(txns[..i + 1], maxdepth) == Flows(txns[..i], maxdepth) + [FlowOf(txns[i], maxdepth).value]
  {
    assert txns[..i + 1][..i] == txns[..i];
  }

  /** The first loop of `to_sankey_data`: per-pair totals keyed in order of
      first appearance, and per-account inflow and outflow totals. */
  method AccumulateFlows(txns: seq<Directive>, maxdepth: int)
    returns (keys: seq<Pair>, totals: map<Pair, real>, inflows: map<string, real>, outflows: map<string, real>)
    ensures keys == Dedup(Pairs(Flows(txns, maxdepth)))
    ensures forall p :: p in totals <==> p in keys
    ensures forall p :: Get(totals, p) == PairTotal(Flows(txns, maxdepth), p)
    ensures forall a :: Get(inflows, a) == InTotal(Flows(txns, maxdepth), a)
    ensures forall a :: Get(outflows, a) == OutTotal(Flows(txns, maxdepth), a)
  {
    keys, totals, inflows, outflows := [], map[], map[], map[];
    for i := 0 to |txns|
      invariant Accumulated(Flows(txns[..i], maxdepth), keys, totals, inflows, outflows)
    {
      FlowsSnoc(txns, maxdepth, i);
      var txn := txns[i];
      if !txn.Transaction? || |txn.postings| != 2 {
        assert FlowOf(txn, maxdepth).None?;
        continue;
      }
      var source, dest;
      if txn.postings[0].units < 0.0 {
        source, dest := txn.postings[0], txn.postings[1];
      } else {
        source, dest := txn.postings[1], txn.postings[0];
      }
      var sa := Truncate(source.account, maxdepth);
      var da := Truncate(dest.account, maxdepth);
      if sa == da {
        assert FlowOf(txn, maxdepth).None?;
        continue;
      }
      var weight := dest.weight;
      assert FlowOf(txn, maxdepth) == Some(Flow(sa, da, weight));
      AccumulateStep(Flows(txns[..i], maxdepth), keys, totals, inflows, outflows, sa, da, weight);
      outflows := outflows[sa := Get(outflows, sa) + weight];
      inflows := inflows[da := Get(inflows, da) + weight];
      if (sa, da) !in totals {
        keys := keys + [(sa, da)];
      }
      totals := totals[(sa, da) := Get(totals, (sa, da)) + weight];
    }
    assert txns[..|txns|] == txns;
  }

  // ---- second loop: net into canonical pairs ----------------------------------

  /** What the second loop adds to `abstotals[c]` for the linktotals entry
      (k, w). */
  function Contribution(k: Pair, w: real, c: Pair): real
  {
    if LexLess(k.0, k.1) then (if k == c then w else 0.0)
    else if (k.1, k.0) == c then -w else 0.0
  }

  /** `abstotals[c]` after the second loop has seen the entries ks. */
  function SignedSum(ks: seq<Pair>, totals: map<Pair, real>, c: Pair): real
    requires forall k :: k in ks ==> k in totals
  {
    if |ks| == 0 then 0.0
    else
      var k := ks[|ks| - 1];
      SignedSum(ks[..|ks| - 1], totals, c) + Contribution(k, totals[k], c)
  }

  /** Over distinct keys, a canonical pair collects its own total minus the
      total of the reverse pair. */
  lemma {:induction false} SignedSumIsNet(ks: seq<Pair>, totals: map<Pair, real>, c: Pair)
    requires Distinct(ks) && forall k :: k in ks ==> k in totals
    requires LexLess(c.0, c.1)
    ensures SignedSum(ks, totals, c) ==
      (if c in ks then totals[c] else 0.0) - (if (c.1, c.0) in ks then totals[(c.1, c.0)] else 0.0)
  {
    if |ks| > 0 {
      var init := ks[..|ks| - 1];
      var k := ks[|ks| - 1];
      assert Distinct(init);
      SignedSumIsNet(init, totals, c);
      assert forall x :: x in ks <==> x in init || x == k;
      assert k !in init;
      LexLessTotal(c.0, c.1);
      if k == (c.1, c.0) {
        assert !LexLess(k.0, k.1);
      }
    }
  }

  /** The state of the second loop after the `linktotals` keys ks:
      `abstotals` keyed by canonical pair in order of first appearance ... */
  ghost predicate NettedKeys(ks: seq<Pair>, akeys: seq<Pair>, net: map<Pair, real>)
  {
    && akeys == Dedup(CanonAll(ks))
    && (forall c :: c in net <==> c in akeys)
  }

  /** ... each holding its signed sum over ks. */
  ghost predicate NettedSums(ks: seq<Pair>, totals: map<Pair, real>, net: map<Pair, real>)
    requires forall k :: k in ks ==> k in totals
  {
    forall c :: Get(net, c) == SignedSum(ks, totals, c)
  }

  /** One more `linktotals` entry k puts its canonical pair c at the end of
      the `abstotals` keys unless it is already there. */
  lemma NetKeysStep(ks: seq<Pair>, ks': seq<Pair>, akeys: seq<Pair>, net: map<Pair, real>, k: Pair, c: Pair, v: real)
    requires ks' == ks + [k]
    requires NettedKeys(ks, akeys, net) && c == Canon(k)
    ensures NettedKeys(ks', if c in net then akeys else akeys + [c], net[c := v])
  {
    assert CanonAll(ks + [k]) == CanonAll(ks) + [c];
    DedupSnoc(CanonAll(ks), c);
  }

  lemma NetSumsStepLess(ks: seq<Pair>, ks': seq<Pair>, totals: map<Pair, real>, net: map<Pair, real>,
                        sa: string, da: string, w: real)
    requires (sa, da) in totals && forall k :: k in ks ==> k in totals
    requires ks' == ks + [(sa, da)] && w == totals[(sa, da)]
    requires NettedSums(ks, totals, net) && LexLess(sa, da)
    ensures forall k :: k in ks' ==> k in totals
    ensures NettedSums(ks', totals, net[(sa, da) := Get(net, (sa, da)) + w])
  {
    SignedSumSnoc(ks, totals, (sa, da));
  }

  lemma NetSumsStepMore(ks: seq<Pair>, ks': seq<Pair>, totals: map<Pair, real>, net: map<Pair, real>,
                        sa: string, da: string, w: real)
    requires (sa, da) in totals && forall k :: k in ks ==> k in totals
    requires ks' == ks + [(sa, da)] && w == totals[(sa, da)]
    requires NettedSums(ks, totals, net) && !LexLess(sa, da)
    ensures forall k :: k in ks' ==> k in totals
    ensures NettedSums(ks', totals, net[(da, sa) := Get(net, (da, sa)) - w])
  {
    SignedSumSnoc(ks, totals, (sa, da));
  }

  lemma SignedSumSnoc(ks: seq<Pair>, totals: map<Pair, real>, k: Pair)
    requires k in totals && forall x :: x in ks ==> x in totals
    ensures forall c :: SignedSum(ks + [k], totals, c) == SignedSum(ks, totals, c) + Contribution(k, totals[k], c)
  {
    assert (ks + [k])[..|ks|] == ks;
  }

  /** The second loop of `to_sankey_data`. */
  method NetPairs(keys: seq<Pair>, totals: map<Pair, real>) returns (akeys: seq<Pair>, net: map<Pair, real>)
    requires Distinct(keys) && forall k :: k in keys ==> k in totals
    ensures akeys == Dedup(CanonAll(keys))
    ensures forall c :: c in net <==> c in akeys
    ensures forall c: Pair :: LexLess(c.0, c.1) ==>
      Get(net, c) == (if c in keys then totals[c] else 0.0) - (if (c.1, c.0) in keys then totals[(c.1, c.0)] else 0.0)
  {
    akeys, net := [], map[];
    for i := 0 to |keys|
      invariant forall k :: k in keys[..i] ==> k in totals
      invariant NettedKeys(keys[..i], akeys, net)
      invariant NettedSums(keys[..i], totals, net)
    {
      assert keys[..i + 1] == keys[..i] + [keys[i]];
      var (sa, da) := keys[i];
      var weight := totals[keys[i]];
      if LexLess(sa, da) {
        NetKeysStep(keys[..i], keys[..i + 1], akeys, net, (sa, da), (sa, da), Get(net, (sa, da)) + weight);
        NetSumsStepLess(keys[..i], keys[..i + 1], totals, net, sa, da, weight);
        if (sa, da) !in net {
          akeys := akeys + [(sa, da)];
        }
        net := net[(sa, da) := Get(net, (sa, da)) + weight];
      } else {
        NetKeysStep(keys[..i], keys[..i + 1], akeys, net, (sa, da), (da, sa), Get(net, (da, sa)) - weight);
        NetSumsStepMore(keys[..i], keys[..i + 1], totals, net, sa, da, weight);
        if (da, sa) !in net {
          akeys := akeys + [(da, sa)];
        }
        net := net[(da, sa) := Get(net, (da, sa)) - weight];
      }
    }
    assert keys[..|keys|] == keys;
    NettedSumsAreNet(keys, totals, net);
  }

  lemma NettedSumsAreNet(keys: seq<Pair>, totals: map<Pair, real>, net: map<Pair, real>)
    requires Distinct(keys) && forall k :: k in keys ==> k in totals
    requires NettedSums(keys, totals, net)
    ensures forall c: Pair :: LexLess(c.0, c.1) ==>
      Get(net, c) == (if c in keys then totals[c] else 0.0) - (if (c.1, c.0) in keys then totals[(c.1, c.0)] else 0.0)
  {
    forall c: Pair | LexLess(c.0, c.1)
      ensures Get(net, c) == (if c in keys then totals[c] else 0.0) - (if (c.1, c.0) in keys then totals[(c.1, c.0)] else 0.0)
    {
      SignedSumIsNet(keys, totals, c);
    }
  }

  // ---- sorting by relative flow -----------------------------------------------

  /** `relative_flow` of an account with inflow i and outflow o. */
  function Ratio(i: real, o: real): real
    requires i + o != 0.0
  {
    (i - o) / (i + o)
  }

  /** `relative_flow(a)`: where a sits between a pure source (-1) and a pure
      sink (+1). */
  function RelativeFlow(flows: seq<Flow>, a: string): (r: real)
    requires InTotal(flows, a) + OutTotal(flows, a) != 0.0
    ensures r == 1.0 <==> OutTotal(flows, a) == 0.0
    ensures r == -1.0 <==> InTotal(flows, a) == 0.0
    ensures r == 0.0 <==> InTotal(flows, a) == OutTotal(flows, a)
  {
    RatioExtremes(InTotal(flows, a), OutTotal(flows, a));
    Ratio(InTotal(flows, a), OutTotal(flows, a))
  }

  /** The ratio is 1 exactly without outflow, -1 exactly without inflow and
      0 exactly when the two balance. */
  lemma RatioExtremes(i: real, o: real)
    requires i + o != 0.0
    ensures Ratio(i, o) == 1.0 <==> o == 0.0
    ensures Ratio(i, o) == -1.0 <==> i == 0.0
    ensures Ratio(i, o) == 0.0 <==> i == o
  {
    var d := i + o;
    var r := Ratio(i, o);
    assert r * d == i - o;
    if o == 0.0 {
      assert r == i / i;
    }
    if i == 0.0 {
      assert r == (-o) / o == -(o / o);
    }
    if r == 1.0 {
      assert i - o == d;
    }
    if r == -1.0 {
      assert i - o == -d;
    }
  }

  /** With non-negative weights, the relative flow lies in [-1, 1]. */
  lemma RatioBounds(i: real, o: real)
    requires i >= 0.0 && o >= 0.0 && i + o != 0.0
    ensures -1.0 <= Ratio(i, o) <= 1.0
    ensures Ratio(i, o) == 1.0 <==> o == 0.0
    ensures Ratio(i, o) == -1.0 <==> i == 0.0
  {
    QuotientBounds(i - o, i + o);
  }

  /** For s > 0 and -s <= a <= s, the quotient a / s lies in [-1, 1] and hits
      an end exactly when a does. */
  lemma QuotientBounds(a: real, s: real)
    requires s > 0.0 && -s <= a <= s
    ensures -1.0 <= a / s <= 1.0
    ensures a / s == 1.0 <==> a == s
    ensures a / s == -1.0 <==> a == -s
  {
    var q := a / s;
    assert q * s == a;
    assert (q - 1.0) * s == a - s;
    assert (q + 1.0) * s == a + s;
  }

  ghost predicate SortedBy(s: seq<string>, key: map<string, real>)
    requires forall x :: x in s ==> x in key
  {
    forall i, j :: 0 <= i < j < |s| ==> key[s[i]] <= key[s[j]]
  }

  /** Inserts x after every element whose key is not larger than x's. */
  function InsertByKey(x: string, s: seq<string>, key: map<string, real>): (r: seq<string>)
    requires x in key && forall y :: y in s ==> y in key
    ensures forall y :: y in r <==> y in s || y == x
    ensures |r| == |s| + 1
  {
    if |s| == 0 then [x]
    else if key[x] < key[s[0]] then [x] + s
    else
      assert forall y :: y in s <==> y == s[0] || y in s[1..];
      [s[0]] + InsertByKey(x, s[1..], key)
  }

  /** The head of a key-sorted list that x does not go before has a key no
      larger than any element of the insertion into its tail. */
  lemma HeadBelowInserted(x: string, s: seq<string>, key: map<string, real>, rest: seq<string>)
    requires x in key && forall y :: y in s ==> y in key
    requires SortedBy(s, key) && |s| > 0 && key[s[0]] <= key[x]
    requires rest == InsertByKey(x, s[1..], key)
    ensures forall j :: 0 <= j < |rest| ==> rest[j] in key && key[s[0]] <= key[rest[j]]
  {
    assert s[0] in s;
    forall j | 0 <= j < |rest| ensures rest[j] in key && key[s[0]] <= key[rest[j]] {
      assert rest[j] in rest;
      if rest[j] != x {
        var q :| 0 <= q < |s[1..]| && s[1..][q] == rest[j];
        assert s[q + 1] == rest[j];
      }
    }
  }

  /** Inserting into a key-sorted list keeps it key-sorted. */
  lemma {:induction false} InsertByKeySorted(x: string, s: seq<string>, key: map<string, real>)
    requires x in key && forall y :: y in s ==> y in key
    requires SortedBy(s, key)
    ensures SortedBy(InsertByKey(x, s, key), key)
  {
    var r := InsertByKey(x, s, key);
    if |s| > 0 && key[x] < key[s[0]] {
      forall i, j | 0 <= i < j < |r| ensures key[r[i]] <= key[r[j]] {
        if i == 0 {
          assert r[j] == s[j - 1];
        } else {
          assert r[i] == s[i - 1] && r[j] == s[j - 1];
        }
      }
    } else if |s| > 0 {
      var rest := InsertByKey(x, s[1..], key);
      InsertByKeySorted(x, s[1..], key);
      HeadBelowInserted(x, s, key, rest);
      assert r == [s[0]] + rest;
      forall i, j | 0 <= i < j < |r| ensures key[r[i]] <= key[r[j]] {
        assert r[j] == rest[j - 1];
        if i > 0 {
          assert r[i] == rest[i - 1];
          assert key[rest[i - 1]] <= key[rest[j - 1]];
        } else {
          assert key[s[0]] <= key[rest[j - 1]];
        }
      }
    }
  }

  /** Inserting a new element into a duplicate-free list keeps it so. */
  lemma {:induction false} InsertByKeyDistinct(x: string, s: seq<string>, key: map<string, real>)
    requires x in key && forall y :: y in s ==> y in key
    requires Distinct(s) && x !in s
    ensures Distinct(InsertByKey(x, s, key))
  {
    var r := InsertByKey(x, s, key);
    if |s| > 0 && !(key[x] < key[s[0]]) {
      var rest := InsertByKey(x, s[1..], key);
      InsertByKeyDistinct(x, s[1..], key);
      assert s[0] !in s[1..];
      assert s[0] !in rest;
      forall i, j | 0 <= i < j < |r| ensures r[i] != r[j] {
        assert r[j] == rest[j - 1];
        if i > 0 {
          assert r[i] == rest[i - 1];
        }
      }
    } else if |s| > 0 {
      forall i, j | 0 <= i < j < |r| ensures r[i] != r[j] {
        assert r[j] == s[j - 1];
        if i > 0 {
          assert r[i] == s[i - 1];
        }
      }
    }
  }

  /** `sorted(xs, key=...)` for a set: each element once, in non-decreasing
      key order (the order among equal keys is left open). */
  method SortByKey(xs: set<string>, key: map<string, real>) returns (r: seq<string>)
    requires forall x :: x in xs ==> x in key
    ensures Distinct(r)
    ensures forall x :: x in r <==> x in xs
    ensures forall x :: x in r ==> x in key
    ensures SortedBy(r, key)
  {
    r := [];
    var todo := xs;
    while todo != {}
      invariant todo <= xs
      invariant Distinct(r)
      invariant forall x :: x in r <==> x in xs && x !in todo
      invariant SortedBy(r, key)
      decreases todo
    {
      var x :| x in todo;
      InsertByKeySorted(x, r, key);
      InsertByKeyDistinct(x, r, key);
      r := InsertByKey(x, r, key);
      todo := todo - {x};
    }
  }

  // ---- third loop: orient and index the links -----------------------------------

  /** The last loop of `to_sankey_data`: each netted pair becomes a link of
      non-negative value, turned round when its net is negative. */
  method IndexFlowLinks(akeys: seq<Pair>, net: map<Pair, real>, nodes: seq<string>)
    returns (source: seq<nat>, target: seq<nat>, value: seq<real>)
    requires forall c :: c in akeys ==> c in net && c.0 in nodes && c.1 in nodes
    ensures |source| == |akeys| && |target| == |akeys| && |value| == |akeys|
    ensures forall k :: 0 <= k < |akeys| ==>
      && source[k] < |nodes| && target[k] < |nodes|
      && value[k] >= 0.0
      && (net[akeys[k]] < 0.0 ==>
            nodes[source[k]] == akeys[k].1 && nodes[target[k]] == akeys[k].0 && value[k] == -net[akeys[k]])
      && (net[akeys[k]] >= 0.0 ==>
            nodes[source[k]] == akeys[k].0 && nodes[target[k]] == akeys[k].1 && value[k] == net[akeys[k]])
  {
    source, target, value := [], [], [];
    for i := 0 to |akeys|
      invariant |source| == i && |target| == i && |value| == i
      invariant forall k :: 0 <= k < i ==>
        && source[k] < |nodes| && target[k] < |nodes|
        && value[k] >= 0.0
        && (net[akeys[k]] < 0.0 ==>
              nodes[source[k]] == akeys[k].1 && nodes[target[k]] == akeys[k].0 && value[k] == -net[akeys[k]])
        && (net[akeys[k]] >= 0.0 ==>
              nodes[source[k]] == akeys[k].0 && nodes[target[k]] == akeys[k].1 && value[k] == net[akeys[k]])
    {
      var (s, t) := akeys[i];
      var v := net[akeys[i]];
      if v < 0.0 {
        s, t := t, s;
        v := -v;
      }
      source := source + [FirstIndex(nodes, s)];
      target := target + [FirstIndex(nodes, t)];
      value := value + [v];
    }
  }

  // ---- the whole function ---------------------------------------------------------

  /** `to_sankey_data(txns, maxdepth)`: the node labels (full truncated
      account names) sorted by relative flow, and one link per unordered
      account pair that some flow connects, oriented along its net flow and
      valued at its absolute size (zero for exactly opposing equal flows). */
  method ToSankeyData(txns: seq<Directive>, maxdepth: int) returns (r: Result<HierarchyFlow.SankeyData, TxnFlowError>)
    ensures var F := Flows(txns, maxdepth);
      r.Err? <==> exists a :: IsEndpoint(F, a) && InTotal(F, a) + OutTotal(F, a) == 0.0
    ensures var F := Flows(txns, maxdepth);
      r.Err? ==> IsEndpoint(F, r.error.account) && InTotal(F, r.error.account) + OutTotal(F, r.error.account) == 0.0
    ensures r.Ok? ==>
      var F := Flows(txns, maxdepth);
      var nodes := r.value.labels;
      && Distinct(nodes)
      && (forall a :: a in nodes <==> IsEndpoint(F, a))
      && (forall a :: a in nodes ==> InTotal(F, a) + OutTotal(F, a) != 0.0)
      && (forall i, j :: 0 <= i < j < |nodes| ==> RelativeFlow(F, nodes[i]) <= RelativeFlow(F, nodes[j]))
    ensures r.Ok? ==>
      var F := Flows(txns, maxdepth);
      var U := LinkPairs(F);
      var d := r.value;
      && |d.source| == |U| && |d.target| == |U| && |d.value| == |U|
      && forall k :: 0 <= k < |U| ==>
           && d.source[k] < |d.labels| && d.target[k] < |d.labels|
           && d.value[k] == (if NetFlow(F, U[k]) < 0.0 then -NetFlow(F, U[k]) else NetFlow(F, U[k]))
           && d.labels[d.source[k]] == (if NetFlow(F, U[k]) < 0.0 then U[k].1 else U[k].0)
           && d.labels[d.target[k]] == (if NetFlow(F, U[k]) < 0.0 then U[k].0 else U[k].1)
  {
    ghost var F := Flows(txns, maxdepth);
    var akeys, net, inflows, outflows := FlowTotals(txns, maxdepth);
    EndpointsOfLinkPairs(txns, maxdepth);
    var sorted := NodesByRelativeFlow(akeys, inflows, outflows);
    if sorted.Err? {
      return Err(sorted.error);
    }
    var nodes := sorted.value;
    NodeOrder(F, inflows, outflows, nodes);
    var source, target, value := IndexFlowLinks(akeys, net, nodes);
    LinkOrientation(F, akeys, net, nodes, source, target, value);
    r := Ok(HierarchyFlow.SankeyData(nodes, source, target, value));
  }

  /** The order by `Ratio` over the dicts is the order by relative flow. */
  lemma NodeOrder(F: seq<Flow>, inflows: map<string, real>, outflows: map<string, real>, nodes: seq<string>)
    requires forall a :: Get(inflows, a) == InTotal(F, a)
    requires forall a :: Get(outflows, a) == OutTotal(F, a)
    requires forall a :: a in nodes ==> Get(inflows, a) + Get(outflows, a) != 0.0
    requires forall i, j :: 0 <= i < j < |nodes| ==>
      Ratio(Get(inflows, nodes[i]), Get(outflows, nodes[i])) <= Ratio(Get(inflows, nodes[j]), Get(outflows, nodes[j]))
    ensures forall a :: a in nodes ==> InTotal(F, a) + OutTotal(F, a) != 0.0
    ensures forall i, j :: 0 <= i < j < |nodes| ==> RelativeFlow(F, nodes[i]) <= RelativeFlow(F, nodes[j])
  {
    forall i, j | 0 <= i < j < |nodes| ensures RelativeFlow(F, nodes[i]) <= RelativeFlow(F, nodes[j]) {
      assert nodes[i] in nodes && nodes[j] in nodes;
    }
  }

  /** The indexed links, read back through the net flows. */
  lemma LinkOrientation(F: seq<Flow>, akeys: seq<Pair>, net: map<Pair, real>, nodes: seq<string>,
                        source: seq<nat>, target: seq<nat>, value: seq<real>)
    requires forall c :: c in akeys ==> c in net && net[c] == NetFlow(F, c)
    requires |source| == |akeys| && |target| == |akeys| && |value| == |akeys|
    requires forall k :: 0 <= k < |akeys| ==>
      && source[k] < |nodes| && target[k] < |nodes|
      && (net[akeys[k]] < 0.0 ==>
            nodes[source[k]] == akeys[k].1 && nodes[target[k]] == akeys[k].0 && value[k] == -net[akeys[k]])
      && (net[akeys[k]] >= 0.0 ==>
            nodes[source[k]] == akeys[k].0 && nodes[target[k]] == akeys[k].1 && value[k] == net[akeys[k]])
    ensures forall k :: 0 <= k < |akeys| ==>
      && value[k] == (if NetFlow(F, akeys[k]) < 0.0 then -NetFlow(F, akeys[k]) else NetFlow(F, akeys[k]))
      && nodes[source[k]] == (if NetFlow(F, akeys[k]) < 0.0 then akeys[k].1 else akeys[k].0)
      && nodes[target[k]] == (if NetFlow(F, akeys[k]) < 0.0 then akeys[k].0 else akeys[k].1)
  {
    forall k | 0 <= k < |akeys|
      ensures value[k] == (if NetFlow(F, akeys[k]) < 0.0 then -NetFlow(F, akeys[k]) else NetFlow(F, akeys[k]))
      ensures nodes[source[k]] == (if NetFlow(F, akeys[k]) < 0.0 then akeys[k].1 else akeys[k].0)
      ensures nodes[target[k]] == (if NetFlow(F, akeys[k]) < 0.0 then akeys[k].0 else akeys[k].1)
    {
      assert akeys[k] in akeys;
    }
  }

  /** The two accumulation loops, stated over the flows: the `abstotals`
      keys are the link pairs, each holding its net flow, and the inflow and
      outflow dicts hold the per-account totals. */
  method FlowTotals(txns: seq<Directive>, maxdepth: int)
    returns (akeys: seq<Pair>, net: map<Pair, real>, inflows: map<string, real>, outflows: map<string, real>)
    ensures akeys == LinkPairs(Flows(txns, maxdepth))
    ensures forall c :: c in akeys ==> c in net && net[c] == NetFlow(Flows(txns, maxdepth), c)
    ensures forall a :: Get(inflows, a) == InTotal(Flows(txns, maxdepth), a)
    ensures forall a :: Get(outflows, a) == OutTotal(Flows(txns, maxdepth), a)
  {
    var keys, totals;
    keys, totals, inflows, outflows := AccumulateFlows(txns, maxdepth);
    ghost var F := Flows(txns, maxdepth);
    akeys, net := NetPairs(keys, totals);
    LinkPairsCanonical(txns, maxdepth);
    forall c | c in akeys ensures c in net && net[c] == NetFlow(F, c) {
      assert Get(net, c) == Get(totals, c) - Get(totals, (c.1, c.0));
    }
  }

  /** Every link pair of the flows is canonical. */
  lemma LinkPairsCanonical(txns: seq<Directive>, maxdepth: int)
    ensures forall c :: c in LinkPairs(Flows(txns, maxdepth)) ==> LexLess(c.0, c.1)
  {
    FlowsNoSelfLoops(txns, maxdepth);
    LinkPairsFacts(Flows(txns, maxdepth));
  }

  /** The accounts of the link pairs are exactly the flows' endpoints. */
  lemma EndpointsOfLinkPairs(txns: seq<Directive>, maxdepth: int)
    ensures forall a :: IsEndpoint(Flows(txns, maxdepth), a) <==> IsPairEndpoint(LinkPairs(Flows(txns, maxdepth)), a)
  {
    FlowsNoSelfLoops(txns, maxdepth);
    LinkPairsFacts(Flows(txns, maxdepth));
  }

  /** Whether a is an account of one of the pairs. */
  ghost predicate IsPairEndpoint(pairs: seq<Pair>, a: string)
  {
    exists c :: c in pairs && (c.0 == a || c.1 == a)
  }

  /** The node list: the pairs' accounts sorted by relative flow, or the
      division by zero of `relative_flow` on an account whose inflow and
      outflow sum to zero. */
  method NodesByRelativeFlow(akeys: seq<Pair>, inflows: map<string, real>, outflows: map<string, real>)
    returns (r: Result<seq<string>, TxnFlowError>)
    ensures r.Err? <==> exists a :: IsPairEndpoint(akeys, a) && Get(inflows, a) + Get(outflows, a) == 0.0
    ensures r.Err? ==> IsPairEndpoint(akeys, r.error.account)
                       && Get(inflows, r.error.account) + Get(outflows, r.error.account) == 0.0
    ensures r.Ok? ==>
      && Distinct(r.value)
      && (forall a :: a in r.value <==> IsPairEndpoint(akeys, a))
      && (forall a :: a in r.value ==> Get(inflows, a) + Get(outflows, a) != 0.0)
      && (forall i, j :: 0 <= i < j < |r.value| ==>
            Ratio(Get(inflows, r.value[i]), Get(outflows, r.value[i]))
              <= Ratio(Get(inflows, r.value[j]), Get(outflows, r.value[j])))
  {
    var nodeSet := (set c | c in akeys :: c.0) + (set c | c in akeys :: c.1);
    assert forall a :: a in nodeSet <==> IsPairEndpoint(akeys, a);
    if exists a :: a in nodeSet && Get(inflows, a) + Get(outflows, a) == 0.0 {
      var a :| a in nodeSet && Get(inflows, a) + Get(outflows, a) == 0.0;
      return Err(DivisionByZero(a));
    }
    var key := map a | a in nodeSet :: Ratio(Get(inflows, a), Get(outflows, a));
    var nodes := SortByKey(nodeSet, key);
    r := Ok(nodes);
  }
}
