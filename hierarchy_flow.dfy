// The hierarchy flow diagram of `create_hierarchy_sankey_data`: rollup
// links inside the left (income-like) and right (expense-like) trees, one net
// link, one matched link, then the nodes in topological order and the links
// as index pairs into that order.
module HierarchyFlow {
  import opened Wrappers
  import opened AccountPath
  import opened Ledger
  import opened Sequences
  import opened TreeWalk
  import opened SignConvention
  import opened TopoSort

  /** A flow link: source account, target account, value. */
  type Link = (string, string, real)

  datatype FlowError =
    | UnknownRoot(account: string)     // from_account raised ValueError
    | NegativeTotal(account: string)   // `assert total >= 0` failed
    | CyclicLinks                      // topological_sort raised NetworkXUnfeasible

  /** The node and link lists handed to the Sankey trace: node labels, and for
      each link the indices of its endpoints and its value. */
  datatype SankeyData = SankeyData(labels: seq<string>, source: seq<nat>, target: seq<nat>, value: seq<real>)

  /** A side's value of one node: its balance with the root class's sign. */
  function SideValue(bp: BreakdownParams, n: Node, currency: string): real
  {
    bp.invert as real * BalanceOf(n, currency)
  }

  /** The link one walked node contributes: none above depth `maxHierarchy`,
      none for the root class itself, none below the threshold `mn`;
      otherwise the node and its parent path, pointing up the tree when the
      direction is +1 and down it otherwise. */
  function NodeLink(n: Node, bp: BreakdownParams, currency: string, maxHierarchy: int, mn: real): (r: Option<Link>)
    ensures r.Some? <==>
      2 <= |Segments(n.account)| <= maxHierarchy && SideValue(bp, n, currency) >= mn
    ensures r.Some? ==> r.value.2 == SideValue(bp, n, currency) && r.value.2 >= mn
    ensures r.Some? && bp.direction == 1 ==> r.value.0 == n.account && r.value.1 == Parent(n.account)
    ensures r.Some? && bp.direction != 1 ==> r.value.0 == Parent(n.account) && r.value.1 == n.account
  {
    var splits := Segments(n.account);
    if |splits| > maxHierarchy || |splits| == 1 then None
    else
      var balance := SideValue(bp, n, currency);
      if balance < mn then None
      else if bp.direction == 1 then Some((n.account, Parent(n.account), balance))
      else Some((Parent(n.account), n.account, balance))
  }

  /** The links of a sequence of walked nodes, in walk order. */
  function LinksOf(nodes: seq<Node>, bp: BreakdownParams, currency: string, maxHierarchy: int, mn: real): seq<Link>
  {
    if |nodes| == 0 then []
    else
      var init := LinksOf(nodes[..|nodes| - 1], bp, currency, maxHierarchy, mn);
      match NodeLink(nodes[|nodes| - 1], bp, currency, maxHierarchy, mn)
      case None => init
      case Some(l) => init + [l]
  }

  /** One more walked node adds its link, if any, at the end. */
  lemma LinksOfStep(nodes: seq<Node>, i: nat, bp: BreakdownParams, currency: string, maxHierarchy: int, mn: real)
    requires i < |nodes|
    ensures LinksOf(nodes[..i + 1], bp, currency, maxHierarchy, mn)
         == LinksOf(nodes[..i], bp, currency, maxHierarchy, mn)
            + (var l := NodeLink(nodes[i], bp, currency, maxHierarchy, mn); if l.Some? then [l.value] else [])
  {
    assert nodes[..i + 1][..i] == nodes[..i];
  }

  /** A link is produced exactly when some walked node contributes it. */
  lemma {:induction false} LinksOfIff(nodes: seq<Node>, bp: BreakdownParams, currency: string, maxHierarchy: int, mn: real, l: Link)
    ensures l in LinksOf(nodes, bp, currency, maxHierarchy, mn) <==>
      exists i :: 0 <= i < |nodes| && NodeLink(nodes[i], bp, currency, maxHierarchy, mn) == Some(l)
  {
    if |nodes| > 0 {
      var init := nodes[..|nodes| - 1];
      LinksOfIff(init, bp, currency, maxHierarchy, mn, l);
      if exists i :: 0 <= i < |nodes| && NodeLink(nodes[i], bp, currency, maxHierarchy, mn) == Some(l) {
        var i :| 0 <= i < |nodes| && NodeLink(nodes[i], bp, currency, maxHierarchy, mn) == Some(l);
        if i < |nodes| - 1 {
          assert init[i] == nodes[i];
        }
      }
      if exists i :: 0 <= i < |init| && NodeLink(init[i], bp, currency, maxHierarchy, mn) == Some(l) {
        var i :| 0 <= i < |init| && NodeLink(init[i], bp, currency, maxHierarchy, mn) == Some(l);
        assert nodes[i] == init[i];
      }
    }
  }

  /** `_to_hierarchy_links`: walk the tree and collect the rollup links. */
  method HierarchyLinks(root: Node, currency: string, maxHierarchy: int) returns (r: Result<seq<Link>, FlowError>)
    ensures FromAccount(root.account).Err? <==> r == Err(UnknownRoot(root.account))
    ensures NegativeSide(root, currency) <==> r == Err(NegativeTotal(root.account))
    ensures SideOk(root, currency) ==> r == Ok(SideLinks(root, currency, maxHierarchy))
  {
    var res := FromAccount(root.account);
    if res.Err? {
      return Err(UnknownRoot(root.account));
    }
    var bp := res.value;
    var total := SideValue(bp, root, currency);
    if total < 0.0 {
      return Err(NegativeTotal(root.account));
    }
    var links := CollectLinks(Preorder(root), bp, currency, maxHierarchy, total / 20.0);
    return Ok(links);
  }

  /** The loop of `_to_hierarchy_links` over the walked nodes. */
  method CollectLinks(nodes: seq<Node>, bp: BreakdownParams, currency: string, maxHierarchy: int, mn: real)
    returns (links: seq<Link>)
    ensures links == LinksOf(nodes, bp, currency, maxHierarchy, mn)
  {
    links := [];
    for i := 0 to |nodes|
      invariant links == LinksOf(nodes[..i], bp, currency, maxHierarchy, mn)
    {
      LinksOfStep(nodes, i, bp, currency, maxHierarchy, mn);
      var node := nodes[i];
      var splits := Segments(node.account);
      if |splits| > maxHierarchy {
        continue;
      }
      if |splits| == 1 {
        continue;
      }
      var parent := Join(splits[..|splits| - 1]);
      var balance := SideValue(bp, node, currency);
      if balance < mn {
        continue;
      }
      if bp.direction == 1 {
        links := links + [(node.account, parent, balance)];
      } else {
        links := links + [(parent, node.account, balance)];
      }
    }
    assert nodes[..|nodes|] == nodes;
  }

  /** The net link: profit out of the left root when it takes in more than
      the right side spends, otherwise a loss into the right root (with value
      0 when the two are equal). */
  function NetLink(leftAccount: string, rightAccount: string, tin: real, tout: real,
                   netPositive: string, netNegative: string): (l: Link)
    ensures l.2 >= 0.0
    ensures l.2 == 0.0 <==> tin == tout
    ensures l.2 == tin - tout || l.2 == tout - tin
    ensures tin > tout ==> l.0 == leftAccount && l.1 == netPositive
    ensures tin <= tout ==> l.0 == netNegative && l.1 == rightAccount
  {
    if tin > tout then (leftAccount, netPositive, tin - tout)
    else (netNegative, rightAccount, tout - tin)
  }

  function Min(a: real, b: real): (m: real)
    ensures m <= a && m <= b && (m == a || m == b)
  {
    if a <= b then a else b
  }

  /** The side's root class is known and its total is negative: the
      `assert total >= 0` of `_to_hierarchy_links` fails. */
  predicate NegativeSide(root: Node, currency: string)
  {
    FromAccount(root.account).Ok? && SideValue(FromAccount(root.account).value, root, currency) < 0.0
  }

  /** The side passes both checks of `_to_hierarchy_links`. */
  predicate SideOk(root: Node, currency: string)
  {
    FromAccount(root.account).Ok? && SideValue(FromAccount(root.account).value, root, currency) >= 0.0
  }

  /** The side's total, once its root class is known. */
  function SideTotal(root: Node, currency: string): real
    requires FromAccount(root.account).Ok?
  {
    SideValue(FromAccount(root.account).value, root, currency)
  }

  /** The rollup links of a side that passes its checks, with the threshold
      a twentieth of its total. */
  function SideLinks(root: Node, currency: string, maxHierarchy: int): seq<Link>
    requires SideOk(root, currency)
  {
    LinksOf(Preorder(root), FromAccount(root.account).value, currency, maxHierarchy, SideTotal(root, currency) / 20.0)
  }

  /** The link list of `create_hierarchy_sankey_data` once both sides pass
      their checks. */
  function AllLinks(left: Node, right: Node, currency: string,
                    netPositive: string, netNegative: string, maxHierarchy: int): seq<Link>
    requires SideOk(left, currency) && SideOk(right, currency)
  {
    var tin := SideTotal(left, currency);
    var tout := SideTotal(right, currency);
    SideLinks(left, currency, maxHierarchy) + SideLinks(right, currency, maxHierarchy)
    + [NetLink(left.account, right.account, tin, tout, netPositive, netNegative)]
    + [(left.account, right.account, Min(tin, tout))]
  }

  /** `[l[:2] for l in links]`. */
  function LinkEdges(links: seq<Link>): (e: seq<Edge>)
    ensures |e| == |links|
    ensures forall k :: 0 <= k < |links| ==> e[k] == (links[k].0, links[k].1)
  {
    seq(|links|, k requires 0 <= k < |links| => (links[k].0, links[k].1))
  }

  /** The link list of `create_hierarchy_sankey_data`: the left side's
      rollup links, the right side's, the net link and the matched link. */
  method SankeyLinks(left: Node, right: Node, currency: string,
                     netPositive: string, netNegative: string, maxHierarchy: int)
    returns (r: Result<seq<Link>, FlowError>)
    ensures FromAccount(left.account).Err? ==> r == Err(UnknownRoot(left.account))
    ensures NegativeSide(left, currency) ==> r == Err(NegativeTotal(left.account))
    ensures SideOk(left, currency) && FromAccount(right.account).Err? ==> r == Err(UnknownRoot(right.account))
    ensures SideOk(left, currency) && NegativeSide(right, currency) ==> r == Err(NegativeTotal(right.account))
    ensures r.Ok? <==> SideOk(left, currency) && SideOk(right, currency)
    ensures r.Ok? ==> r.value == AllLinks(left, right, currency, netPositive, netNegative, maxHierarchy)
  {
    var hl := HierarchyLinks(left, currency, maxHierarchy);
    if hl.Err? {
      assert !SideOk(left, currency);
      return Err(hl.error);
    }
    assert SideOk(left, currency);
    var hr := HierarchyLinks(right, currency, maxHierarchy);
    if hr.Err? {
      assert !SideOk(right, currency);
      return Err(hr.error);
    }
    assert SideOk(right, currency);
    var links := hl.value + hr.value;
    var tin := SideTotal(left, currency);
    var tout := SideTotal(right, currency);
    links := links + [NetLink(left.account, right.account, tin, tout, netPositive, netNegative)];
    links := links + [(left.account, right.account, Min(tin, tout))];
    return Ok(links);
  }

  /** `idx`, the node labels and the link index lists for a topological
      order of the links' endpoints. */
  method IndexLinks(links: seq<Link>, order: seq<string>) returns (d: SankeyData)
    requires IsTopologicalOrder(order, LinkEdges(links))
    ensures |d.labels| == |order|
    ensures forall i :: 0 <= i < |order| ==> d.labels[i] == LastSegment(order[i])
    ensures |d.source| == |links| && |d.target| == |links| && |d.value| == |links|
    ensures forall k :: 0 <= k < |links| ==>
      && d.source[k] < d.target[k] < |order|
      && order[d.source[k]] == links[k].0
      && order[d.target[k]] == links[k].1
      && d.value[k] == links[k].2
  {
    var edges := LinkEdges(links);
    var labels := seq(|order|, i requires 0 <= i < |order| => LastSegment(order[i]));
    forall k | 0 <= k < |links| ensures links[k].0 in order && links[k].1 in order {
      assert edges[k] == (links[k].0, links[k].1);
    }
    var source := seq(|links|, k requires 0 <= k < |links| && links[k].0 in order => FirstIndex(order, links[k].0));
    var target := seq(|links|, k requires 0 <= k < |links| && links[k].1 in order => FirstIndex(order, links[k].1));
    var value := seq(|links|, k requires 0 <= k < |links| => links[k].2);
    forall k | 0 <= k < |links| ensures source[k] < target[k] {
      assert edges[k] == (links[k].0, links[k].1);
    }
    d := SankeyData(labels, source, target, value);
  }

  /** `create_hierarchy_sankey_data`. The list of links and the node order
      (the full account names behind the labels) are returned as ghost
      results so that the contract can name them. */
  method CreateHierarchySankeyData(left: Node, right: Node, currency: string,
                                   netPositive: string, netNegative: string, maxHierarchy: int)
    returns (r: Result<SankeyData, FlowError>, ghost links: seq<Link>, ghost order: seq<string>)
    ensures FromAccount(left.account).Err? ==> r == Err(UnknownRoot(left.account))
    ensures NegativeSide(left, currency) ==> r == Err(NegativeTotal(left.account))
    ensures SideOk(left, currency) && FromAccount(right.account).Err? ==> r == Err(UnknownRoot(right.account))
    ensures SideOk(left, currency) && NegativeSide(right, currency) ==> r == Err(NegativeTotal(right.account))
    ensures SideOk(left, currency) && SideOk(right, currency) ==>
      && links == AllLinks(left, right, currency, netPositive, netNegative, maxHierarchy)
      && (r.Ok? <==> exists o :: IsTopologicalOrder(o, LinkEdges(links)))
    ensures r.Ok? ==> SideOk(left, currency) && SideOk(right, currency)
    ensures r.Ok? ==>
      && IsTopologicalOrder(order, LinkEdges(links))
      && |r.value.labels| == |order|
      && (forall i :: 0 <= i < |order| ==> r.value.labels[i] == LastSegment(order[i]))
      && |r.value.source| == |links| && |r.value.target| == |links| && |r.value.value| == |links|
      && (forall k :: 0 <= k < |links| ==>
            && r.value.source[k] < r.value.target[k] < |order|
            && order[r.value.source[k]] == links[k].0
            && order[r.value.target[k]] == links[k].1
            && r.value.value[k] == links[k].2)
    ensures r == Err(CyclicLinks) ==> forall o :: !IsTopologicalOrder(o, LinkEdges(links))
    ensures SideOk(left, currency) && SideOk(right, currency) && (forall o :: !IsTopologicalOrder(o, LinkEdges(links))) ==>
      r == Err(CyclicLinks)
  {
    order := [];
    var sl := SankeyLinks(left, right, currency, netPositive, netNegative, maxHierarchy);
    if sl.Err? {
      return Err(sl.error), [], [];
    }
    var ls := sl.value;
    links := ls;
    var sorted := TopologicalSort(LinkEdges(ls));
    if sorted.Err? {
      return Err(CyclicLinks), links, [];
    }
    order := sorted.value;
    var d := IndexLinks(ls, sorted.value);
    r := Ok(d);
  }

  // ---- conservation at the left root --------------------------------------

  /** The total value of the links leaving account a. */
  function OutSum(links: seq<Link>, a: string): real
  {
    if |links| == 0 then 0.0
    else OutSum(links[..|links| - 1], a) + (if links[|links| - 1].0 == a then links[|links| - 1].2 else 0.0)
  }

  lemma {:induction false} OutSumAppend(xs: seq<Link>, ys: seq<Link>, a: string)
    ensures OutSum(xs + ys, a) == OutSum(xs, a) + OutSum(ys, a)
  {
    if |ys| == 0 {
      assert xs + ys == xs;
    } else {
      OutSumAppend(xs, ys[..|ys| - 1], a);
      assert (xs + ys)[..|xs + ys| - 1] == xs + ys[..|ys| - 1];
    }
  }

  lemma {:induction false} OutSumNone(links: seq<Link>, a: string)
    requires forall k :: 0 <= k < |links| ==> links[k].0 != a
    ensures OutSum(links, a) == 0.0
  {
    if |links| > 0 {
      OutSumNone(links[..|links| - 1], a);
    }
  }

  /** When no rollup link and not the loss label start at the left root, the
      links leaving the left root carry exactly its total `tin`: the profit
      and the matched part when it takes in more, the matched part alone
      (`min(tin, tout) == tin`) otherwise. */
  lemma LeftRootOutflow(rollup: seq<Link>, leftAccount: string, rightAccount: string, tin: real, tout: real,
                        netPositive: string, netNegative: string)
    requires forall k :: 0 <= k < |rollup| ==> rollup[k].0 != leftAccount
    requires netNegative != leftAccount
    ensures OutSum(rollup + [NetLink(leftAccount, rightAccount, tin, tout, netPositive, netNegative)]
                          + [(leftAccount, rightAccount, Min(tin, tout))], leftAccount) == tin
  {
    var net := NetLink(leftAccount, rightAccount, tin, tout, netPositive, netNegative);
    OutSumNone(rollup, leftAccount);
    OutSumAppend(rollup, [net], leftAccount);
    OutSumAppend(rollup + [net], [(leftAccount, rightAccount, Min(tin, tout))], leftAccount);
    assert OutSum([net], leftAccount) == (if net.0 == leftAccount then net.2 else 0.0) by {
      assert [net][..0] == [];
    }
    assert OutSum([(leftAccount, rightAccount, Min(tin, tout))], leftAccount) == Min(tin, tout) by {
      assert [(leftAccount, rightAccount, Min(tin, tout))][..0] == [];
    }
  }

  /** Links of a side flowing up its tree start at accounts with at least two
      segments, so never at a top-level account. */
  lemma UpwardLinksAvoidTopLevel(nodes: seq<Node>, bp: BreakdownParams, currency: string, maxHierarchy: int, mn: real, a: string)
    requires bp.direction == 1 && Sep !in a
    ensures forall l :: l in LinksOf(nodes, bp, currency, maxHierarchy, mn) ==> l.0 != a
  {
    forall l | l in LinksOf(nodes, bp, currency, maxHierarchy, mn) ensures l.0 != a {
      LinksOfIff(nodes, bp, currency, maxHierarchy, mn, l);
      var i :| 0 <= i < |nodes| && NodeLink(nodes[i], bp, currency, maxHierarchy, mn) == Some(l);
      TopLevelIff(a);
    }
  }

  /** Every account in the walk of a well-formed tree with a non-empty root
      account shares the root's first segment. */
  lemma {:induction false} WalkFirstSegment(n: Node)
    requires WellFormed(n) && n.account != ""
    ensures forall m :: m in Preorder(n) ==> m.account != "" && FirstSegment(m.account) == FirstSegment(n.account)
    decreases n, 1
  {
    ForestFirstSegment(n.children, n.account);
  }

  lemma {:induction false} ForestFirstSegment(cs: seq<Node>, a: string)
    requires a != ""
    requires forall c :: c in cs ==> Parent(c.account) == a && WellFormed(c)
    ensures forall m :: m in PreorderAll(cs) ==> m.account != "" && FirstSegment(m.account) == FirstSegment(a)
    decreases cs, 0
  {
    if |cs| > 0 {
      var c := cs[0];
      ParentSegments(c.account);
      assert |Segments(c.account)| >= 2;
      assert FirstSegment(c.account) == FirstSegment(a) by {
        assert Segments(a) == Segments(c.account)[..|Segments(c.account)| - 1];
      }
      JoinSplit(c.account, Sep);
      WalkFirstSegment(c);
      ForestFirstSegment(cs[1..], a);
      assert PreorderAll(cs) == Preorder(c) + PreorderAll(cs[1..]);
    }
  }

  /** The first segment of a non-empty parent path is the account's own. */
  lemma ParentFirstSegment(account: string)
    requires Parent(account) != ""
    ensures FirstSegment(Parent(account)) == FirstSegment(account)
  {
    ParentSegments(account);
  }

  /** The links of a well-formed tree never start at a top-level account
      outside the tree's root class. */
  lemma LinksAvoidOtherClass(root: Node, bp: BreakdownParams, currency: string, maxHierarchy: int, mn: real, a: string)
    requires WellFormed(root) && root.account != ""
    requires Sep !in a && a != FirstSegment(root.account)
    ensures forall l :: l in LinksOf(Preorder(root), bp, currency, maxHierarchy, mn) ==> l.0 != a
  {
    var nodes := Preorder(root);
    WalkFirstSegment(root);
    ParentOfTopLevel(a);
    forall l | l in LinksOf(nodes, bp, currency, maxHierarchy, mn) ensures l.0 != a {
      LinksOfIff(nodes, bp, currency, maxHierarchy, mn, l);
      var i :| 0 <= i < |nodes| && NodeLink(nodes[i], bp, currency, maxHierarchy, mn) == Some(l);
      var acc := nodes[i].account;
      assert nodes[i] in nodes;
      assert FirstSegment(acc) == FirstSegment(root.account);
      ParentSegments(acc);
      if Parent(acc) != "" {
        ParentFirstSegment(acc);
      }
    }
  }

  /** The flow out of the left root in the finished link list: for a left
      side flowing up its tree (Income, Assets, Equity), a top-level left
      root, a well-formed right tree of another class and a loss label that
      is not the left root, the links leaving the left root sum to the left
      total `tin`, whatever the rollup thresholds. */
  lemma SankeyLeftOutflow(left: Node, right: Node, bpl: BreakdownParams, bpr: BreakdownParams, currency: string,
                          netPositive: string, netNegative: string, maxHierarchy: int,
                          tin: real, tout: real, mnl: real, mnr: real, links: seq<Link>)
    requires bpl.direction == 1
    requires Sep !in left.account && netNegative != left.account
    requires WellFormed(right) && right.account != "" && FirstSegment(right.account) != left.account
    requires links == LinksOf(Preorder(left), bpl, currency, maxHierarchy, mnl)
                    + LinksOf(Preorder(right), bpr, currency, maxHierarchy, mnr)
                    + [NetLink(left.account, right.account, tin, tout, netPositive, netNegative)]
                    + [(left.account, right.account, Min(tin, tout))]
    ensures OutSum(links, left.account) == tin
  {
    var ll := LinksOf(Preorder(left), bpl, currency, maxHierarchy, mnl);
    var rl := LinksOf(Preorder(right), bpr, currency, maxHierarchy, mnr);
    UpwardLinksAvoidTopLevel(Preorder(left), bpl, currency, maxHierarchy, mnl, left.account);
    LinksAvoidOtherClass(right, bpr, currency, maxHierarchy, mnr, left.account);
    var both: seq<Link> := ll + rl;
    forall k | 0 <= k < |both| ensures both[k].0 != left.account {
      if k < |ll| {
        assert both[k] == ll[k] && ll[k] in ll;
      } else {
        assert both[k] == rl[k - |ll|] && rl[k - |ll|] in rl;
      }
    }
    LeftRootOutflow(both, left.account, right.account, tin, tout, netPositive, netNegative);
  }
}
