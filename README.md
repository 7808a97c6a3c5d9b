# doudough chart core in Dafny

This project models the pure and loop-based core of doudough, a Dash
front end for beancount/fava ledgers. It covers how account trees and
transactions become chart data, and the page helpers built on the same
colon-separated account paths. It does not model the rendering layer.

- **Sign convention** (`SignConvention`): `BreakdownParams.from_account`. It maps the root account class to an `invert` sign and a flow `direction`.
- **Breakdown pruning** (`Breakdown`): the loop of `create_breakdown_chart`.
  - It walks the account tree in pre-order and emits `{parent, id, name, value}` records.
  - It hides accounts below `min_fraction * mx`, accounts below a tenth of their parent, and everything whose name starts with an account already hidden.
- **Hierarchy flow graph** (`HierarchyFlow`, `TopoSort`): `_to_hierarchy_links` and `create_hierarchy_sankey_data`.
  - The link list holds the per-side rollup links, then the net (profit or loss) link, then the matched link.
  - The nodes are put in topological order and every link is indexed by its endpoints.
- **Transaction flow graph** (`TransactionFlow`): `to_sankey_data`.
  - Only two-posting transactions count; each gives one flow between truncated accounts.
  - The model accumulates the directed totals, nets them into canonical account pairs, and orients each link along its net flow.
  - The nodes are sorted by relative flow.
- **Account paths and trees** (`AccountPath`, `TreeWalk`, `Sequences`, `StringOrder`):
  - Python's `str.split`/`str.join` on `:`, `truncate_account` and parent paths;
  - `yield_tree_nodes`, `rollup_accounts` and `treeify_accounts`;
  - `dict.fromkeys` de-duplication, and Python's string order with `sorted` on sets.
- **Pages**:
  - the payee trie `MyTree`, `to_tree_node`, `apply_filter` and the posting grid of the payee renamer (`PayeeRenamer`);
  - the chip filter model and row shaping of the journal (`Journal`);
  - `label_account` and the autocomplete assembly of the header (`Header`);
  - the environment file list of the command line (`Cli`).

Amounts (Python `Decimal`) are `real`. A ledger tree node is
`Node(account, balance, children)`. A posting is `(account, units, weight)`,
with the weight given as data. Python dicts that keep insertion order are
modelled as a key sequence next to a `map`. A `defaultdict(lambda: 0)` is
read through `Get`, which returns 0 for a missing key. Every failing
`assert`, every `raise` and every failing lookup becomes an error value of
a `Result`.

The model follows the code as written, including these behaviours:
- `mx` is the maximum over all normalised node values, not the root's value.
- Subtree suppression uses a raw string `startswith`, so a pruned
  `Expenses:Car` also hides `Expenses:Cards`.
- When the two side totals are equal, a zero-valued LOSS link is still
  appended.
- Exactly opposing, equal transactions still produce one link, of value 0.
- `relative_flow` divides without a guard. An account whose inflow and
  outflow sum to zero makes `to_sankey_data` fail (`DivisionByZero`); it
  does not get a neutral rank.

## Model

| member | source | states |
|---|---|---|
| AccountPath.SplitOn | src/doudough/charting.py:97 | `account.split(":")` never returns an empty list, and no segment contains the separator |
| AccountPath.JoinSplit | src/doudough/charting.py:97-98 | joining the split segments gives back the original string |
| AccountPath.SplitJoin | src/doudough/charting.py:133 | splitting the join of colon-free segments returns exactly those segments |
| AccountPath.SplitConcat | src/doudough/pages/payee_renamer.py:95-96 | splitting `x + ":" + y` gives the segments of x followed by the segments of y |
| AccountPath.JoinAppend | src/doudough/pages/utils.py:86 | a join splits at every inner segment boundary into the join of the first k segments, a colon and the join of the rest |
| AccountPath.SegmentPrefixes | src/doudough/pages/utils.py:85-86 | there is one prefix path `":".join(splits[:i+1])` per segment |
| AccountPath.JoinedPrefix | src/doudough/pages/utils.py:86 | the join of the first k segments is a string prefix of the account, followed by a colon unless it is the whole account |
| AccountPath.SegmentsOfPrefix | src/doudough/pages/utils.py:86 | the join of the first k segments has exactly those k segments |
| AccountPath.Truncate | src/doudough/charting.py:132-133 | `truncate_account` is always a string prefix of its input, and "" when the slice keeps no segment |
| AccountPath.TruncateSegments | src/doudough/charting.py:132-133 | when at least one segment is kept, `truncate_account` keeps exactly the first `maxdepth` segments (Python slice bounds) |
| AccountPath.TruncateIdempotent | src/doudough/charting.py:132-133 | truncating twice to the same non-negative depth equals truncating once |
| AccountPath.TruncateIsSegmentPrefix | src/doudough/charting.py:132-133 | a truncation that keeps a segment is a string prefix of its input, and ends at a segment boundary |
| AccountPath.SegmentPrefixIff | src/doudough/pages/utils.py:84-87 | k is one of an account's prefix paths exactly when k is the account or `k + ":"` starts it |
| AccountPath.ParentIsPrefix | src/doudough/charting.py:97-98 | the parent path is "" or it plus a colon is a prefix of the account |
| AccountPath.ParentOfTopLevel | src/doudough/charting.py:97-100 | a colon-free account has parent "" and is its own first and last segment |
| AccountPath.FirstSegmentIdempotent | src/doudough/charting.py:31 | `split(":", 1)[0]` of a root class is itself |
| AccountPath.LastSegmentIsSuffix | src/doudough/charting.py:108 | `splits[-1]` is the longest colon-free suffix of the account, preceded by a colon when it is not the whole account |
| AccountPath.TopLevelIff | src/doudough/pages/app_shell/header.py:29-31 | an account has one segment exactly when it contains no colon |
| SignConvention.FromAccount | src/doudough/charting.py:26-48 | the five root classes give (invert, direction): Income (-1,+1), Expenses (+1,-1), Assets (+1,+1), Liabilities (-1,-1), Equity (-1,+1); both are ±1; any other root is `ValueError(account)` |
| SignConvention.FromAccountByRoot | src/doudough/charting.py:31 | only the first segment matters: an account and its root class get the same result |
| StringOrder.LexLessIrreflexive | src/doudough/charting.py:279 | Python's `<` on strings is irreflexive |
| StringOrder.LexLessTransitive | src/doudough/charting.py:279 | Python's `<` on strings is transitive |
| StringOrder.LexLessTotal | src/doudough/charting.py:279 | distinct strings are ordered exactly one way |
| StringOrder.Insert | src/doudough/pages/app_shell/header.py:210 | inserting into a strictly sorted list keeps it strictly sorted, adds exactly x, and grows it by one unless x is present |
| StringOrder.SortedOfSet | src/doudough/pages/app_shell/header.py:210 | `sorted(set)` is strictly increasing and holds exactly the set's elements, each once |
| Sequences.FirstIndex | src/doudough/charting.py:229 | `list.index`: the position of x, with no earlier occurrence of x |
| Sequences.Dedup | src/doudough/cli.py:18 | `dict.fromkeys` keeps each element once, holds exactly the input's elements, and is no longer than the input |
| Sequences.DedupFirstOccurrenceOrder | src/doudough/cli.py:26 | kept elements appear in the order of their first occurrences |
| Sequences.DedupPrefix | src/doudough/cli.py:25-26 | de-duplicating `a + b` only appends to the de-duplicated `a` |
| Sequences.DedupSnoc | src/doudough/charting.py:270 | a new dict key goes to the end of the key order; an existing key keeps its place |
| TreeWalk.Preorder | src/doudough/pages/utils.py:24-28 | the walk yields the node first and yields as many nodes as the tree has |
| TreeWalk.PreorderAll | src/doudough/pages/utils.py:27-28 | the children's walks together yield as many nodes as the children's subtrees hold |
| TreeWalk.SubtreeContiguous | src/doudough/pages/utils.py:24-28 | each yielded node is followed immediately by its own whole walk |
| TreeWalk.ForestContiguous | src/doudough/pages/utils.py:27-28 | the same holds inside the concatenated walks of a child list |
| TreeWalk.ChildWalkOffset | src/doudough/pages/utils.py:27-28 | child c's walk sits in its parent's walk right after the root and the walks of the earlier children |
| TreeWalk.ForestOffset | src/doudough/pages/utils.py:27-28 | in a child list's walk, child c's walk starts after the earlier children's walks |
| TreeWalk.WalkParentsBefore | src/doudough/pages/utils.py:26-28 | in a well-formed tree every node after the root has its parent account earlier in the walk, and every account extends the root's |
| TreeWalk.ForestParentsBefore | src/doudough/pages/utils.py:27-28 | in the walks of children of account a, every node's parent is a or comes earlier |
| TreeWalk.ParentSegments | src/doudough/charting.py:97-98 | the parent path has the account's segments minus the last, and "" for a top-level account |
| TreeWalk.DropNaN | src/doudough/pages/utils.py:81 | `series[series.notna()]` never grows the series |
| TreeWalk.RolledValueAbsent | src/doudough/pages/utils.py:80-87 | a path that prefixes no entry's account has rolled value 0 |
| TreeWalk.RolledSnoc | src/doudough/pages/utils.py:82-87 | one more entry adds its value under exactly its segment prefixes, and adds those prefixes as keys |
| TreeWalk.SegmentPrefixesDistinct | src/doudough/pages/utils.py:85-86 | an account's prefix paths are pairwise distinct |
| TreeWalk.AddUnderPrefixes | src/doudough/pages/utils.py:84-87 | the inner loop adds `val` under every prefix path and only there; new keys are appended and old keys keep their order |
| TreeWalk.RollupStep | src/doudough/pages/utils.py:82-87 | one outer iteration keeps the rollup invariant: the keys are the rolled paths, once each, with their rolled sums |
| TreeWalk.RollupAccounts | src/doudough/pages/utils.py:79-90 | keys are exactly the non-NaN accounts and all their prefix paths, once each; each value is the sum over accounts at or below the key; an all-NaN or empty series fails |
| TreeWalk.RolledKeysEmpty | src/doudough/pages/utils.py:89 | the rollup has no keys exactly when no entry survives the NaN filter |
| TreeWalk.RolledPairs | src/doudough/pages/utils.py:89-90 | the (key, value) pairs list every rolled path once, with its rolled sum |
| TreeWalk.RolledValueIgnoresNaN | src/doudough/pages/utils.py:81 | a NaN entry changes no rolled value |
| TreeWalk.Spaces | src/doudough/pages/utils.py:99 | the non-breaking space repeated n times has length n and holds nothing else |
| TreeWalk.TreeifyAccount | src/doudough/pages/utils.py:94-99 | the display form ends with the account's last segment, and everything before it is a non-breaking space |
| TreeWalk.TreeifyAccounts | src/doudough/pages/utils.py:105 | a list is treeified element-wise, keeping length and order |
| TreeWalk.TreeifyFixedIff | src/doudough/pages/utils.py:94-97 | the display form has no colon, and equals the account exactly when the account is top-level |
| TreeWalk.TreeifyIndent | src/doudough/pages/utils.py:99 | an n-segment account shows as 2(n-1) non-breaking spaces followed by its last segment |
| Breakdown.LookupValues | src/doudough/charting.py:76-79 | the `lookup` dict has a key for exactly the walked accounts |
| Breakdown.MaxValue | src/doudough/charting.py:82 | `max(lookup.values())` bounds every value and is one of them |
| Breakdown.WalkKeysInLookup | src/doudough/charting.py:76-79 | the dict's key order is non-empty and duplicate-free, and covers exactly the dict's keys |
| Breakdown.CreateBreakdown | src/doudough/charting.py:74-111 | an unknown root fails; a non-positive maximum fails (`assert mx > 0`); with a positive maximum the result is Ok exactly when no account makes `lookup[parent]` raise, and a `KeyError` names the parent of the first account the loop reaches (not under a pruned account, at least `min_display`) whose non-empty parent is not a key; otherwise the records are exactly the kept accounts in visit order, each with parent path, id, last segment and value |
| Breakdown.BreakdownOfLookup | src/doudough/charting.py:82-111 | the same, from the filled `lookup` dict onwards, including the exact `KeyError` condition |
| Breakdown.Prune | src/doudough/charting.py:87-111 | the loop succeeds exactly when no account makes `lookup[parent]` raise, and otherwise fails with the parent of the first account that does; on success it emits an account exactly when no earlier left-out account is a string prefix of it, it reaches `min_display`, and it reaches a tenth of its parent's value |
| Breakdown.NoPrunedPrefix | src/doudough/charting.py:89-90 | an account not under a pruned one has no earlier left-out account as a string prefix |
| Breakdown.BlockedHere | src/doudough/charting.py:90-100 | an account the loop reaches with a missing non-empty parent is where the loop raises, with every earlier decision as the records say |
| Breakdown.Agree | src/doudough/charting.py:89-104 | whether an account is kept, and whether it raises, depends only on which earlier accounts were emitted |
| Breakdown.DecisionsAgree | src/doudough/charting.py:87-111 | the loop's decisions are determined by the keys and the lookup: two emitted sets that both follow them agree |
| Breakdown.NoneBlockedDone | src/doudough/charting.py:87-111 | a loop that ends without raising has no account at which it raises |
| Breakdown.UnblockedStep | src/doudough/charting.py:89-92 | an account under an earlier account left out is skipped before any lookup |
| Breakdown.SkipStep | src/doudough/charting.py:90-92 | skipping an account under a pruned prefix keeps the loop invariant |
| Breakdown.PruneStep | src/doudough/charting.py:93-96 | pruning an account below `min_display` keeps the loop invariant |
| Breakdown.EmitStep | src/doudough/charting.py:97-111 | emitting an account that passes both tests keeps the loop invariant |
| Breakdown.DecidedStep | src/doudough/charting.py:89-111 | deciding the next account as the invariant says extends what has been decided |
| Breakdown.PruneDone | src/doudough/charting.py:89-111 | after the last account the records are exactly the kept accounts |
| Breakdown.EmittedBounds | src/doudough/charting.py:93-102 | every record's value is at least `min_fraction * mx`, non-negative when `min_fraction >= 0`, and at least a tenth of its parent's value |
| Breakdown.CoveredAppend | src/doudough/charting.py:90-101 | once an account is pruned, it and every later account that starts with it count as covered |
| Breakdown.WalkKeysParentsFirst | src/doudough/charting.py:76-79 | in a well-formed tree each parent account is a key before its children |
| Breakdown.DedupParentsFirst | src/doudough/charting.py:76-79 | de-duplicating a walk in which parents come first keeps parents first |
| Breakdown.ParentEmittedEarlier | src/doudough/charting.py:97-111 | with parents first, a record's non-empty parent is the id of an earlier record |
| Breakdown.BreakdownParentsEarlier | src/doudough/charting.py:89-111 | every record's parent is "" or the id of an earlier record |
| HierarchyFlow.NodeLink | src/doudough/charting.py:148-162 | a node gives a link exactly when it has 2..`max_hierarchy` segments and balance >= mn; the link is child→parent for direction +1 and parent→child otherwise, valued at the balance |
| HierarchyFlow.LinksOfStep | src/doudough/charting.py:147-162 | one more walked node appends its link, if any |
| HierarchyFlow.LinksOfIff | src/doudough/charting.py:147-162 | a link is produced exactly when some walked node contributes it |
| HierarchyFlow.CollectLinks | src/doudough/charting.py:147-162 | the loop collects the links of the walk, in walk order |
| HierarchyFlow.HierarchyLinks | src/doudough/charting.py:136-164 | an unknown root fails, and only then with `UnknownRoot`; a known root with a negative side total fails with `NegativeTotal` (`assert total >= 0`) and only then; otherwise the result is the walk's links with threshold total/20 (`SideLinks`) |
| HierarchyFlow.NetLink | src/doudough/charting.py:206-210 | exactly one net link: (left, PROFIT, tin-tout) if tin > tout, otherwise (LOSS, right, tout-tin); its value is >= 0 and is 0 exactly when the totals are equal |
| HierarchyFlow.Min | src/doudough/charting.py:213 | `min(tin, tout)` is one of the two and bounds both |
| HierarchyFlow.LinkEdges | src/doudough/charting.py:220 | the graph edges are the links without their values, in order |
| HierarchyFlow.SankeyLinks | src/doudough/charting.py:175-213 | errors in source order (left root unknown, left total negative, right root unknown, right total negative); Ok exactly when both sides pass, with the left side's links, then the right side's, then the net link, then (left, right, min(tin, tout)) |
| HierarchyFlow.IndexLinks | src/doudough/charting.py:229-238 | one label (the last segment) per ordered node; every link's source and target index name its endpoints, source < target < node count, and the value is kept |
| HierarchyFlow.CreateHierarchySankeyData | src/doudough/charting.py:167-239 | the four side errors in source order; when both sides pass, the link list as above, and success exactly when its endpoints have a topological order; on success the link list as above, a topological order of its endpoints and the indexed links; the cycle failure `CyclicLinks` happens exactly when both sides pass and no topological order exists |
| HierarchyFlow.OutSumAppend | src/doudough/charting.py:206-213 | the outflow of an account over concatenated link lists adds up |
| HierarchyFlow.OutSumNone | src/doudough/charting.py:206-213 | with no link leaving an account, its outflow is 0 |
| HierarchyFlow.LeftRootOutflow | src/doudough/charting.py:206-213 | if no rollup link leaves the left root, the net and matched links leaving it sum to tin |
| HierarchyFlow.UpwardLinksAvoidTopLevel | src/doudough/charting.py:150-160 | with direction +1, no rollup link starts at a top-level account |
| HierarchyFlow.WalkFirstSegment | src/doudough/charting.py:147 | every account in a well-formed tree shares the root's first segment |
| HierarchyFlow.ParentFirstSegment | src/doudough/charting.py:154 | a non-empty parent path has the account's first segment |
| HierarchyFlow.LinksAvoidOtherClass | src/doudough/charting.py:147-162 | no link of a tree starts at a top-level account of another class |
| HierarchyFlow.SankeyLeftOutflow | src/doudough/charting.py:206-213 | for a left side with direction +1, the links leaving the left root sum to tin: tin-tout plus tout when tin > tout, otherwise min(tin, tout) = tin |
| TopoSort.Flatten | src/doudough/charting.py:220 | the endpoints of the edges, two per edge, source first |
| TopoSort.EndpointsOfEdges | src/doudough/charting.py:220 | the graph's node list is duplicate-free and holds exactly the edges' endpoints |
| TopoSort.TopologicalSort | src/doudough/charting.py:220-222 | on success an order of all graph nodes, each once, with every edge pointing forward; on failure no such order exists |
| TopoSort.FirstFree | src/doudough/charting.py:222 | finds the first remaining node without a remaining predecessor, if any |
| TopoSort.RemoveAt | src/doudough/charting.py:222 | moving a node from the remaining list to the order keeps both duplicate-free and together equal to the node set |
| TopoSort.AppendFree | src/doudough/charting.py:222 | appending a node without remaining predecessors keeps every edge into the order pointing forward |
| TopoSort.CycleBlocksOrder | src/doudough/charting.py:222 | a non-empty node set in which every node has a predecessor inside it has no order that respects the edges |
| TopoSort.EarliestIn | src/doudough/charting.py:222 | the element of a list that comes first in an order exists |
| TransactionFlow.FlowOf | src/doudough/charting.py:249-270 | a directive gives a flow exactly when it is a two-posting transaction whose truncated accounts differ; the source is the negative-units posting, else the second; the weight is the destination's |
| TransactionFlow.FlowsIff | src/doudough/charting.py:248-274 | a flow is counted exactly when some directive gives it |
| TransactionFlow.FlowsSound | src/doudough/charting.py:248-274 | every counted flow comes from some directive |
| TransactionFlow.FlowsComplete | src/doudough/charting.py:248-274 | every directive's flow is counted |
| TransactionFlow.FlowsNoSelfLoops | src/doudough/charting.py:263-264 | no counted flow goes from an account to itself |
| TransactionFlow.FlowsSnoc | src/doudough/charting.py:248-274 | one more directive appends its flow, if any |
| TransactionFlow.LinkPairsFacts | src/doudough/charting.py:276-282 | the `abstotals` keys are distinct, each has the smaller account first, they are exactly the canonical pairs of the flows, and their accounts are exactly the flows' endpoints |
| TransactionFlow.OpposingFlowsCancel | src/doudough/charting.py:276-307 | two equal flows in opposite directions give one link pair, whose net flow is 0 |
| TransactionFlow.TotalsSnoc | src/doudough/charting.py:267-270 | one more flow adds its weight to its own pair total, to its destination's inflow and to its source's outflow, and to nothing else |
| TransactionFlow.AccumulateStep | src/doudough/charting.py:267-270 | one loop step keeps the three dicts equal to the totals over the flows seen |
| TransactionFlow.TotalsStep | src/doudough/charting.py:270 | the `linktotals` update keeps every pair total |
| TransactionFlow.KeysStep | src/doudough/charting.py:270 | the `linktotals` key order stays the de-duplicated flow pairs |
| TransactionFlow.AccountsStep | src/doudough/charting.py:267-268 | the inflow and outflow updates keep every account total |
| TransactionFlow.AccumulateFlows | src/doudough/charting.py:244-274 | the first loop's keys are the flows' pairs in first-seen order; the dicts hold each pair's total and each account's inflow and outflow |
| TransactionFlow.SignedSumIsNet | src/doudough/charting.py:278-282 | a canonical pair collects its own total minus its reverse's |
| TransactionFlow.SignedSumSnoc | src/doudough/charting.py:278-282 | one more `linktotals` entry adds its signed contribution |
| TransactionFlow.NetKeysStep | src/doudough/charting.py:278-282 | the `abstotals` key order gains the canonical pair only if it is new |
| TransactionFlow.NetSumsStepLess | src/doudough/charting.py:279-280 | a key with `sa < da` adds its weight to `abstotals[(sa, da)]` |
| TransactionFlow.NetSumsStepMore | src/doudough/charting.py:281-282 | any other key subtracts its weight from `abstotals[(da, sa)]` |
| TransactionFlow.NetPairs | src/doudough/charting.py:276-282 | the second loop's keys are the canonical pairs in first-seen order, each holding its total minus its reverse's |
| TransactionFlow.NettedSumsAreNet | src/doudough/charting.py:278-282 | the netted dict holds the net total of every canonical pair |
| TransactionFlow.FlowTotals | src/doudough/charting.py:244-282 | both loops: the link pairs, each with its net flow, and the account inflows and outflows |
| TransactionFlow.LinkPairsCanonical | src/doudough/charting.py:278-282 | every link pair has the smaller account first |
| TransactionFlow.EndpointsOfLinkPairs | src/doudough/charting.py:286-289 | the accounts of the link pairs are exactly the flows' endpoints |
| TransactionFlow.RelativeFlow | src/doudough/charting.py:285 | `relative_flow` is 1 exactly for an account without outflow, -1 exactly without inflow, and 0 exactly when inflow equals outflow |
| TransactionFlow.RatioExtremes | src/doudough/charting.py:285 | the ratio (in - out)/(in + out) is 1, -1 or 0 exactly when out, in or their difference is 0 |
| TransactionFlow.RatioBounds | src/doudough/charting.py:285 | with non-negative weights the relative flow lies in [-1, 1]: 1 for a pure sink and -1 for a pure source |
| TransactionFlow.InsertByKey | src/doudough/charting.py:286-291 | insertion adds exactly x |
| TransactionFlow.InsertByKeySorted | src/doudough/charting.py:286-291 | insertion keeps the list in non-decreasing key order |
| TransactionFlow.InsertByKeyDistinct | src/doudough/charting.py:286-291 | inserting a new element keeps the list duplicate-free |
| TransactionFlow.SortByKey | src/doudough/charting.py:286-291 | `sorted(set, key=...)`: each element once, exactly the set's, in non-decreasing key order |
| TransactionFlow.NodesByRelativeFlow | src/doudough/charting.py:285-291 | fails exactly when some endpoint's inflow plus outflow is 0; otherwise the endpoints, each once, in non-decreasing relative flow |
| TransactionFlow.NodeOrder | src/doudough/charting.py:285-291 | the order by the dicts' ratio is the order by relative flow over the flows |
| TransactionFlow.IndexFlowLinks | src/doudough/charting.py:298-307 | one link per netted pair: a negative net swaps the endpoints and negates the value, otherwise they stay; every index is a node position |
| TransactionFlow.LinkOrientation | src/doudough/charting.py:301-307 | the indexed links, read through the net flows, are oriented along the net flow and valued at its absolute size |
| TransactionFlow.ToSankeyData | src/doudough/charting.py:242-325 | nodes are the flows' endpoints, each once, in non-decreasing relative flow; one link per unordered pair, oriented along the net flow, valued at its absolute size (0 for cancelling flows); fails exactly on a zero inflow-plus-outflow endpoint |
| PayeeRenamer.PayeeKey | src/doudough/pages/payee_renamer.py:95 | `payee or "-NONE-"`: a missing or empty payee becomes "-NONE-", any other payee stays |
| PayeeRenamer.KeySegments | src/doudough/pages/payee_renamer.py:95-96 | the key's segments are the account's segments followed by the payee's |
| PayeeRenamer.Kept | src/doudough/pages/payee_renamer.py:99-101 | the walked segments are exactly those not equal to the root's value |
| PayeeRenamer.FollowIn | src/doudough/pages/payee_renamer.py:98-104 | following child names from a node ends at a node of the tree |
| PayeeRenamer.FollowSnoc | src/doudough/pages/payee_renamer.py:102-104 | one more existing child extends a walk by that child |
| PayeeRenamer.FollowExtends | src/doudough/pages/payee_renamer.py:102-104 | adding nodes never changes where an existing walk ends |
| PayeeRenamer.WithChild | src/doudough/pages/payee_renamer.py:103 | creating a child adds exactly one node |
| PayeeRenamer.AddChild | src/doudough/pages/payee_renamer.py:102-103 | a new child under a missing name keeps every existing child edge and adds that name |
| PayeeRenamer.PayeeTree.constructor | src/doudough/pages/payee_renamer.py:84-88 | `MyTree(value)`: one node with that value, no children, no postings |
| PayeeRenamer.PayeeTree.Label | src/doudough/pages/payee_renamer.py:90-92 | the label is the colon-free suffix of the node's value after its last colon, the whole value when it has no colon |
| PayeeRenamer.PayeeTree.AddTp | src/doudough/pages/payee_renamer.py:94-106 | existing nodes and child edges are kept; every new child edge is the walk's step for some kept segment i, from where the segments before i lead to a new node valued `":".join(parts[:i+1])`; as many nodes as edges are added; the walk ends at the returned node; only that node gains the posting |
| PayeeRenamer.PayeeTree.Walk | src/doudough/pages/payee_renamer.py:97-104 | the walk creates missing children, reuses existing ones, and ends where the kept segments lead; it adds only the child edges of its own steps, one new node per new edge, each valued with the key prefix of its own segment |
| PayeeRenamer.PayeeTree.AddChildNode | src/doudough/pages/payee_renamer.py:102-103 | `node.children[part] = MyTree(value)`: one node is appended with the given value, no children and no postings, and becomes child `part` of `node`; every existing edge is kept |
| PayeeRenamer.GrowEdges | src/doudough/pages/payee_renamer.py:101-104 | after creating the child for segment i, every child edge that is new since the walk began is a step of the walk |
| PayeeRenamer.EdgeCountWithChild | src/doudough/pages/payee_renamer.py:102-103 | creating a child under a new name adds exactly one edge to the trie |
| PayeeRenamer.StepEdgeExtends | src/doudough/pages/payee_renamer.py:102-104 | an edge taken by the walk stays one, with the same target and value, as the trie grows |
| PayeeRenamer.GrowStep | src/doudough/pages/payee_renamer.py:102-104 | creating the child for segment i keeps the walk's guarantees |
| PayeeRenamer.RowsUnder | src/doudough/pages/payee_renamer.py:142 | the child results are exactly the rows whose account starts with the prefix |
| PayeeRenamer.PayeesAt | src/doudough/pages/payee_renamer.py:141 | every row for exactly this account gives a payee leaf, "-NONE-" for a missing payee, and no leaf is empty |
| PayeeRenamer.PayeesAtSound | src/doudough/pages/payee_renamer.py:141 | every payee leaf comes from a row for exactly this account |
| PayeeRenamer.PayeeLeaves | src/doudough/pages/payee_renamer.py:150 | one (account, payee) leaf per payee, in order |
| PayeeRenamer.ToTreeNode | src/doudough/pages/payee_renamer.py:139-151 | the item's value is the account and its label the last segment |
| PayeeRenamer.ToTreeNodes | src/doudough/pages/payee_renamer.py:147-149 | the children are converted one by one, in order |
| PayeeRenamer.ToTreeNodeChildren | src/doudough/pages/payee_renamer.py:147-150 | the children are the tree children, converted with the rows under `account + ":"`, followed by one payee leaf per row for this account |
| PayeeRenamer.RowsUnderNested | src/doudough/pages/payee_renamer.py:142 | filtering by a prefix, then by a longer one, is filtering by the longer one |
| PayeeRenamer.PayeesAtUnder | src/doudough/pages/payee_renamer.py:141-142 | restricting the rows to a prefix of the account keeps its payees |
| PayeeRenamer.ToTreeNodeLocal | src/doudough/pages/payee_renamer.py:139-151 | a node's item depends only on the rows under any prefix of its account |
| PayeeRenamer.ApplyFilter | src/doudough/pages/payee_renamer.py:236-260 | "" exactly for no or an empty selection; more than one item fails the assertion; one item gives a query that starts with `{account} scontains <account>`, and is exactly that for an account item |
| PayeeRenamer.PayeeQueryNarrows | src/doudough/pages/payee_renamer.py:244-257 | a payee leaf's query is the account's query plus `&& {payee} eq "<payee>"`, with "-NONE-" meaning the empty payee |
| PayeeRenamer.EntryRows | src/doudough/pages/payee_renamer.py:196-207 | a transaction gives one row per posting, in order; any other directive gives none |
| PayeeRenamer.ToDatagrid | src/doudough/pages/payee_renamer.py:192-209 | the loop's rows are each directive's rows, in directive order |
| PayeeRenamer.GridRowsCount | src/doudough/pages/payee_renamer.py:196-207 | there are exactly as many rows as postings of transactions |
| PayeeRenamer.GridRowsIff | src/doudough/pages/payee_renamer.py:196-207 | a row is in the grid exactly when it is the row of some posting of some transaction |
| Journal.Capitalize | src/doudough/pages/journal.py:181 | `str.capitalize` keeps the length |
| Journal.CapitalizeIdempotent | src/doudough/pages/journal.py:181 | capitalising twice equals capitalising once |
| Journal.CapitalizeRecoversTypeName | src/doudough/pages/journal.py:181 | a lower-cased type name such as "transaction" capitalises back to the type name the rows carry |
| Journal.Select | src/doudough/pages/journal.py:180-193 | the selected chips are exactly the values inside (or outside) `FLAGS` |
| Journal.SelectConcat | src/doudough/pages/journal.py:180-193 | selection keeps the input order |
| Journal.SelectPartition | src/doudough/pages/journal.py:39 | every chip value goes to exactly one of the two lists |
| Journal.FilterTypes | src/doudough/pages/journal.py:174-195 | both filters are "text"/"OR"; the non-flag values, capitalised and in order, are the `type` conditions; the flag values, raw and in order, are the `f` conditions; together there are as many conditions as values |
| Journal.AbsWeightSum | src/doudough/pages/journal.py:220 | the sum of absolute weights is non-negative |
| Journal.ToRow | src/doudough/pages/journal.py:208-224 | every row has the hash as id, the date and the type name; a transaction row carries flag, payee, narration and value = sum of absolute weights / 2 >= 0; any other row's `f` is its type name |
| Journal.ToDatagrid | src/doudough/pages/journal.py:204-205 | exactly one row per directive, in order |
| Journal.AbsSplit | src/doudough/pages/journal.py:220 | the sum of absolute weights is twice the positive weights minus the total weight |
| Journal.BalancedValue | src/doudough/pages/journal.py:220 | for a balanced transaction the row value is the sum of its positive weights |
| Header.LabelAccount | src/doudough/pages/app_shell/header.py:28-31 | for a d-segment account the label is d-1 copies of "bar, space" (a bar character at every even position, a space at every odd one) followed by the last segment; it has no colon |
| Header.Bars | src/doudough/pages/app_shell/header.py:31 | n copies of "bar, space": length 2n, a bar character at every even position and a space at every odd one, no colon |
| Header.LabelAccountIff | src/doudough/pages/app_shell/header.py:28-31 | a label never contains a colon, and is the account itself exactly when the account is top-level |
| Header.ChildLabel | src/doudough/pages/app_shell/header.py:28-31 | a child's label has one more bar than its parent's depth and ends in the child's name |
| Header.EntryTags | src/doudough/pages/app_shell/header.py:199-204 | only transactions contribute; every tag gives "#tag", every link gives "^link", and a non-empty payee gives `payee:"P"` |
| Header.AllTagsIff | src/doudough/pages/app_shell/header.py:198-204 | a suggestion is collected exactly when some entry contributes it |
| Header.EntryTagKinds | src/doudough/pages/app_shell/header.py:200-204 | every suggestion is "#" plus a tag, "^" plus a link, or `payee:"P"` for a non-empty payee |
| Header.UpdateAutocompletes | src/doudough/pages/app_shell/header.py:193-210 | a single currency is wrapped in a list; an empty list fails at `ops[0]`; the currency is the list's first; accounts and suggestions come back strictly sorted, with exactly the given accounts and the collected suggestions |
| Cli.FirstNonAbsolute | src/doudough/cli.py:21-23 | finds no name exactly when all names are absolute; otherwise the first non-absolute name |
| Cli.FirstFailureShift | src/doudough/cli.py:21-23 | the first failing name after an absolute head is the first failing name overall |
| Cli.AddEnvFilenames | src/doudough/cli.py:14-26 | fails exactly when some environment name (an empty one included) is not absolute, naming the first such name; otherwise the result is duplicate-free and holds exactly the environment names and the filenames |
| Cli.EnvNamesFirst | src/doudough/cli.py:16-26 | the result is `dict.fromkeys(env_names + filenames)`, so the environment names come first in first-occurrence order; without an environment value it is the de-duplicated filenames |
| Cli.FilenamesUnchecked | src/doudough/cli.py:21-25 | only the environment names are tested for absoluteness; the test's answer on filenames never changes the result |
| Cli.SameFirstNonAbsolute | src/doudough/cli.py:21-23 | two tests that agree on the names find the same first failure |

## Left out

- Plotly figure construction is not modelled: `create_breakdown_chart` after the loop, `create_sankey_chart`, `interval_plot` and `CHART_TYPES`. It is a rendering call. This includes the constant `"align": "left"` entry of the hierarchy Sankey node dict (`SankeyData` holds only the labels and the link lists). The `float(...)` casts are the identity on `real`.
- networkx is replaced by the model's own Kahn-style sort (`TopoSort.TopologicalSort`). The model fixes no particular order, only that the result is a topological order and that failure means none exists. The exact order networkx picks is not modelled.
- Ties in `sorted(..., key=relative_flow)` are resolved by the model's insertion sort. The contract only promises non-decreasing keys, each node once.
- beancount and fava calls (`get_weight`, `hash_entry`, ledger queries, `charts.hierarchy`) are outside the model. Weights, hashes, balance trees and query results arrive as data.
- Dash and Mantine wiring is not modelled: callbacks, layouts, `MyTree.to_accordian_item`, and the pages and shell modules other than the functions listed above. It is UI plumbing around ledger calls.
- The pandas helpers `table_from_df` and `densify_time_index` are library-bound. `rollup_accounts` takes the series as (account, value-or-NaN) pairs and returns (key, value) pairs, not a Series.
- Reading the environment, `cli.main`, app creation, the `timeit` helper and the `print` calls are I/O. The `BEANCOUNT_FILE` value, `os.pathsep` and `Path.is_absolute` are parameters of `Cli.AddEnvFilenames`.
- `update_autocompletes` reads the ledger through `get_ledger` and an undefined `BFILE` input. The model takes the currency option, the entries and the account names as parameters.
- The unused `account_type`, `atypes` and `atind` values of `to_sankey_data` are not computed.
- Transactions with other than two postings are skipped, as the code does. No split rule is invented.
- Python `Decimal` is modelled as exact `real` arithmetic. Decimal precision and rounding are not modelled. The one division the code can make by zero is `relative_flow`'s. A zero sum with a non-zero difference raises `decimal.DivisionByZero`; 0/0 (inflow and outflow both 0) raises `decimal.InvalidOperation`. The single error value `DivisionByZero` stands for both exceptions.
- Journal.Capitalize: models `str.capitalize` on ASCII letters only. Other Unicode case mappings are not modelled.
- `MyTree` is an arena: node 0 is the tree, and child links are indices into the node list rather than object references. Because each node is created once and owned by one parent, no aliasing is lost.
- `TransactionPosting` keeps only the transaction fields the pages use (date, payee, narration) and the posting.
- PayeeRenamer.ToTreeNode: its own contract states only the item's value and label. The children are stated by `PayeeRenamer.ToTreeNodeChildren`.
- The `currency` argument of `to_tree_node` is unused in the source and is not modelled.
