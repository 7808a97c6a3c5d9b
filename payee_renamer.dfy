// The payee renamer page: a trie of postings keyed by account segments and
// payee, the conversion of the ledger tree into tree-widget items with one
// leaf per payee, the filter query built from a tree selection, and the flat
// posting rows shown in the data grid.
module PayeeRenamer {
  import opened Wrappers
  import opened AccountPath
  import opened Ledger

  /** The payee shown for a transaction without one. */
  const NoPayee: string := "-NONE-"

  /** A posting together with the transaction fields the page uses. */
  datatype TransactionPosting =
    TransactionPosting(date: string, payee: Option<string>, narration: string, posting: Posting)

  /** `payee or "-NONE-"`: a missing or empty payee becomes "-NONE-". */
  function PayeeKey(payee: Option<string>): (r: string)
    ensures r != ""
    ensures r == NoPayee <==> payee.None? || payee.value == "" || payee.value == NoPayee
    ensures payee.Some? && payee.value != "" ==> r == payee.value
  {
    if payee.None? || payee.value == "" then NoPayee else payee.value
  }

  /** The trie key of a posting: its account, then its payee as one more segment. */
  function Key(tp: TransactionPosting): string
  {
    tp.posting.account + [Sep] + PayeeKey(tp.payee)
  }

  /** The key's segments are the account's segments followed by the payee's. */
  lemma KeySegments(tp: TransactionPosting)
    ensures Segments(Key(tp)) == Segments(tp.posting.account) + Segments(PayeeKey(tp.payee))
  {
    SplitConcat(tp.posting.account, PayeeKey(tp.payee), Sep);
  }

  // ---- MyTree ------------------------------------------------------------

  /** The segments that the walk follows: every segment except those equal to
      the root's value, in order. */
  function Kept(parts: seq<string>, v: string): (r: seq<string>)
    ensures |r| <= |parts|
    ensures forall x :: x in r <==> x in parts && x != v
  {
    if |parts| == 0 then []
    else
      var init := parts[..|parts| - 1];
      assert forall x :: x in parts <==> x in init || x == parts[|parts| - 1];
      Kept(init, v) + (if parts[|parts| - 1] == v then [] else [parts[|parts| - 1]])
  }

  /** Every child index of every node names a node. */
  ghost predicate ChildrenInRange(ch: seq<map<string, nat>>, n: nat)
  {
    forall j, k :: 0 <= j < |ch| && k in ch[j] ==> ch[j][k] < n
  }

  /** `ch'` keeps every node of `ch` and every child edge it had, unchanged. */
  ghost predicate Extends(ch: seq<map<string, nat>>, ch': seq<map<string, nat>>)
  {
    |ch| <= |ch'|
    && forall j, k :: 0 <= j < |ch| && k in ch[j] ==> k in ch'[j] && ch'[j][k] == ch[j][k]
  }

  /** The node reached from `node` by following the child named by each
      segment of `path` in turn, if every step exists. */
  function FollowIn(ch: seq<map<string, nat>>, node: nat, path: seq<string>): (r: Option<nat>)
    requires ChildrenInRange(ch, |ch|)
    ensures r.Some? ==> r.value < |ch|
    decreases |path|
  {
    if node >= |ch| then None
    else if |path| == 0 then Some(node)
    else if path[0] in ch[node] then FollowIn(ch, ch[node][path[0]], path[1..])
    else None
  }

  /** One more existing step extends a walk by that child. */
  lemma {:induction false} FollowSnoc(ch: seq<map<string, nat>>, node: nat, path: seq<string>, n: nat, part: string)
    requires ChildrenInRange(ch, |ch|)
    requires FollowIn(ch, node, path) == Some(n)
    requires part in ch[n]
    ensures FollowIn(ch, node, path + [part]) == Some(ch[n][part])
    decreases |path|
  {
    if |path| > 0 {
      assert (path + [part])[1..] == path[1..] + [part];
      FollowSnoc(ch, ch[node][path[0]], path[1..], n, part);
    }
  }

  /** A walk that exists still exists, and ends at the same node, once the
      trie has only grown. */
  lemma {:induction false} FollowExtends(ch: seq<map<string, nat>>, ch': seq<map<string, nat>>, node: nat, path: seq<string>)
    requires ChildrenInRange(ch, |ch|) && ChildrenInRange(ch', |ch'|)
    requires Extends(ch, ch')
    requires FollowIn(ch, node, path).Some?
    ensures FollowIn(ch', node, path) == FollowIn(ch, node, path)
    decreases |path|
  {
    if |path| > 0 {
      FollowExtends(ch, ch', ch[node][path[0]], path[1..]);
    }
  }

  /** The trie with a new, empty node appended as child `part` of `node`. */
  function WithChild(ch: seq<map<string, nat>>, node: nat, part: string): (r: seq<map<string, nat>>)
    requires node < |ch|
    ensures |r| == |ch| + 1
  {
    var created: nat := |ch|;
    var m: map<string, nat> := ch[node][part := created];
    ch[node := m] + [map[]]
  }

  /** Adding a fresh child under a name the node did not have keeps every
      existing edge. */
  lemma AddChild(ch0: seq<map<string, nat>>, ch: seq<map<string, nat>>, node: nat, part: string)
    requires Extends(ch0, ch) && ChildrenInRange(ch, |ch|)
    requires node < |ch| && part !in ch[node]
    ensures Extends(ch, WithChild(ch, node, part))
    ensures Extends(ch0, WithChild(ch, node, part))
    ensures ChildrenInRange(WithChild(ch, node, part), |ch| + 1)
    ensures part in WithChild(ch, node, part)[node]
  {
  }

  /** The number of child edges of the trie. */
  function EdgeCount(ch: seq<map<string, nat>>): nat
  {
    if |ch| == 0 then 0 else EdgeCount(ch[..|ch| - 1]) + |ch[|ch| - 1].Keys|
  }

  /** Replacing one node's children changes the edge count by the difference. */
  lemma {:induction false} EdgeCountUpdate(ch: seq<map<string, nat>>, j: nat, m: map<string, nat>)
    requires j < |ch|
    ensures EdgeCount(ch[j := m]) + |ch[j].Keys| == EdgeCount(ch) + |m.Keys|
  {
    var last := |ch| - 1;
    if j < last {
      EdgeCountUpdate(ch[..last], j, m);
      assert ch[j := m][..last] == ch[..last][j := m];
    } else {
      assert ch[j := m][..last] == ch[..last];
    }
  }

  /** Adding a child under a new name adds one node and one edge. */
  lemma EdgeCountWithChild(ch: seq<map<string, nat>>, node: nat, part: string)
    requires node < |ch| && part !in ch[node]
    ensures EdgeCount(WithChild(ch, node, part)) == EdgeCount(ch) + 1
  {
    var m := ch[node][part := |ch|];
    assert m.Keys == ch[node].Keys + {part};
    EdgeCountUpdate(ch, node, m);
    var ch' := ch[node := m];
    assert (ch' + [map[]])[..|ch'|] == ch';
  }

  /** Child `k` of node `j` exists now but not in `c0`. */
  ghost predicate NewEdge(c0: seq<map<string, nat>>, ch: seq<map<string, nat>>, j: nat, k: string)
  {
    j < |ch| && k in ch[j] && !(j < |c0| && k in c0[j])
  }

  /** Child `k` of node `j` is the one the walk of `parts` takes at segment
      i: `k` is that segment, `j` is where the kept segments before it lead,
      and the child is a node numbered from `n0` on, valued with the key
      prefix up to segment i. */
  ghost predicate WalkEdge(ch: seq<map<string, nat>>, vs: seq<string>, n0: nat,
                           parts: seq<string>, root: string, i: int, j: nat, k: string)
  {
    && ChildrenInRange(ch, |ch|) && j < |ch| && k in ch[j] && n0 <= ch[j][k] < |vs|
    && 0 <= i < |parts| && parts[i] != root && parts[i] == k
    && FollowIn(ch, 0, Kept(parts[..i], root)) == Some(j)
    && vs[ch[j][k]] == Join(parts[..i + 1])
  }

  ghost predicate StepEdge(ch: seq<map<string, nat>>, vs: seq<string>, n0: nat,
                           parts: seq<string>, root: string, j: nat, k: string)
  {
    exists i :: WalkEdge(ch, vs, n0, parts, root, i, j, k)
  }

  /** A walk edge stays one once the trie and its values have only grown. */
  lemma StepEdgeExtends(ch: seq<map<string, nat>>, vs: seq<string>, ch': seq<map<string, nat>>, vs': seq<string>,
                        n0: nat, parts: seq<string>, root: string, j: nat, k: string)
    requires StepEdge(ch, vs, n0, parts, root, j, k)
    requires Extends(ch, ch') && ChildrenInRange(ch', |ch'|)
    requires |vs| <= |vs'| && vs'[..|vs|] == vs
    ensures StepEdge(ch', vs', n0, parts, root, j, k)
  {
    var i :| WalkEdge(ch, vs, n0, parts, root, i, j, k);
    FollowExtends(ch, ch', 0, Kept(parts[..i], root));
    assert vs'[ch[j][k]] == vs[ch[j][k]];
    assert WalkEdge(ch', vs', n0, parts, root, i, j, k);
  }

  /** The key prefix up to and including segment i of a walked (not skipped)
      segment: the value a node created for it holds. */
  ghost predicate CreatedFor(parts: seq<string>, v: string, w: string)
  {
    exists i :: 0 <= i < |parts| && parts[i] != v && w == Join(parts[..i + 1])
  }

  /** `MyTree`: a payee trie, held as an arena of nodes; node 0 is the root
      and a child is referred to by its index. */
  class PayeeTree {
    var values: seq<string>
    var children: seq<map<string, nat>>
    var transactions: seq<seq<TransactionPosting>>

    ghost predicate Valid()
      reads this
    {
      && |values| > 0
      && |children| == |values|
      && |transactions| == |values|
      && ChildrenInRange(children, |values|)
    }

    /** `MyTree(value)`: one node, no children, no postings. */
    constructor (value: string)
      ensures Valid()
      ensures values == [value] && children == [map[]] && transactions == [[]]
    {
      values := [value];
      children := [map[]];
      transactions := [[]];
    }

    /** `label`: the text after the last colon of the node's value. */
    function Label(i: nat): (r: string)
      reads this
      requires i < |values|
      ensures Sep !in r
      ensures |r| <= |values[i]| && values[i][|values[i]| - |r|..] == r
      ensures |r| < |values[i]| ==> values[i][|values[i]| - |r| - 1] == Sep
      ensures Sep !in values[i] ==> r == values[i]
    {
      LastSegmentIsSuffix(values[i]);
      LastSegment(values[i])
    }

    /** `add_tp`: walk the key's segments from the root, skipping those equal
        to the root's value, creating missing children on the way, and append
        the posting at the node the walk ends at. */
    method AddTp(tp: TransactionPosting) returns (ghost end: nat)
      requires Valid()
      modifies this
      ensures Valid()
      ensures |values| >= old(|values|)
      ensures forall j :: 0 <= j < old(|values|) ==> values[j] == old(values[j])
      ensures Extends(old(children), children)
      ensures FollowIn(children, 0, Kept(Segments(Key(tp)), values[0])) == Some(end)
      ensures transactions[end] == (if end < old(|values|) then old(transactions)[end] else []) + [tp]
      ensures forall j :: 0 <= j < |values| && j != end ==>
        transactions[j] == (if j < old(|values|) then old(transactions)[j] else [])
      ensures forall j :: old(|values|) <= j < |values| ==> CreatedFor(Segments(Key(tp)), values[0], values[j])
      ensures forall j, k :: NewEdge(old(children), children, j, k) ==>
        StepEdge(children, values, old(|values|), Segments(Key(tp)), values[0], j, k)
      ensures |values| - old(|values|) == EdgeCount(children) - EdgeCount(old(children))
    {
      var node := Walk(Segments(Key(tp)));
      assert values[0] == old(values[0]);
      transactions := transactions[node := transactions[node] + [tp]];
      end := node;
    }

    /** `node.children[part] = MyTree(value)`: a new node without children or
        postings, attached under a name `node` did not have. */
    method AddChildNode(node: nat, part: string, value: string)
      requires Valid() && node < |values| && part !in children[node]
      modifies this
      ensures Valid()
      ensures values == old(values) + [value]
      ensures children == WithChild(old(children), node, part)
      ensures transactions == old(transactions) + [[]]
      ensures Extends(old(children), children)
    {
      AddChild(children, children, node, part);
      values := values + [value];
      children := WithChild(children, node, part);
      transactions := transactions + [[]];
    }

    /** The walk of `add_tp`: follow `parts` from the root, skipping segments
        equal to the root's value and adding an empty child, valued with the
        key prefix so far, wherever one is missing. */
    method Walk(parts: seq<string>) returns (node: nat)
      requires Valid()
      modifies this
      ensures Valid()
      ensures Grown(old(values), old(transactions), old(children), values, transactions, children, parts, values[0])
      ensures FollowIn(children, 0, Kept(parts, values[0])) == Some(node)
    {
      node := 0;
      ghost var root := values[0];
      for i := 0 to |parts|
        invariant Valid() && values[0] == root
        invariant Grown(old(values), old(transactions), old(children), values, transactions, children, parts, root)
        invariant FollowIn(children, 0, Kept(parts[..i], root)) == Some(node)
      {
        var part := parts[i];
        assert parts[..i + 1][..i] == parts[..i];
        if part == values[0] {
          assert Kept(parts[..i + 1], root) == Kept(parts[..i], root);
          continue;
        }
        if part !in children[node] {
          var ch := children;
          GrowStep(old(values), old(transactions), old(children), values, transactions, ch, parts, root, node, i);
          AddChildNode(node, part, Join(parts[..i + 1]));
          FollowExtends(ch, children, 0, Kept(parts[..i], root));
        }
        FollowSnoc(children, 0, Kept(parts[..i], root), node, part);
        assert Kept(parts[..i + 1], root) == Kept(parts[..i], root) + [part];
        node := children[node][part];
      }
      assert parts[..|parts|] == parts;
    }
  }

  /** What a walk may do to the trie: keep every node's value and postings
      and every child edge, and add only nodes without postings, each valued
      with a key prefix that ends in a walked segment. */
  ghost predicate Grown(v0: seq<string>, t0: seq<seq<TransactionPosting>>, c0: seq<map<string, nat>>,
                        vs: seq<string>, ts: seq<seq<TransactionPosting>>, cs: seq<map<string, nat>>,
                        parts: seq<string>, root: string)
  {
    && |v0| <= |vs| && |v0| <= |t0| && |vs| <= |ts|
    && (forall j :: 0 <= j < |v0| ==> vs[j] == v0[j])
    && (forall j :: 0 <= j < |v0| ==> ts[j] == t0[j])
    && (forall j :: |v0| <= j < |vs| ==> ts[j] == [])
    && (forall j :: |v0| <= j < |vs| ==> CreatedFor(parts, root, vs[j]))
    && Extends(c0, cs)
    && (forall j, k :: NewEdge(c0, cs, j, k) ==> StepEdge(cs, vs, |v0|, parts, root, j, k))
    && |vs| - |v0| == EdgeCount(cs) - EdgeCount(c0)
  }

  /** Adding the child for segment i keeps the walk's guarantees. */
  lemma GrowStep(v0: seq<string>, t0: seq<seq<TransactionPosting>>, c0: seq<map<string, nat>>,
                 vs: seq<string>, ts: seq<seq<TransactionPosting>>, cs: seq<map<string, nat>>,
                 parts: seq<string>, root: string, node: nat, i: nat)
    requires Grown(v0, t0, c0, vs, ts, cs, parts, root)
    requires |cs| == |vs| == |ts| && ChildrenInRange(cs, |cs|)
    requires node < |cs| && i < |parts| && parts[i] != root && parts[i] !in cs[node]
    requires FollowIn(cs, 0, Kept(parts[..i], root)) == Some(node)
    ensures Grown(v0, t0, c0, vs + [Join(parts[..i + 1])], ts + [[]], WithChild(cs, node, parts[i]), parts, root)
    ensures ChildrenInRange(WithChild(cs, node, parts[i]), |cs| + 1)
    ensures Extends(cs, WithChild(cs, node, parts[i]))
  {
    var part := parts[i];
    var cs' := WithChild(cs, node, part);
    var vs' := vs + [Join(parts[..i + 1])];
    AddChild(c0, cs, node, part);
    assert CreatedFor(parts, root, Join(parts[..i + 1]));
    EdgeCountWithChild(cs, node, part);
    GrowEdges(c0, |v0|, vs, cs, parts, root, node, i);
  }

  /** Every new edge after adding the child for segment i is a walk edge. */
  lemma GrowEdges(c0: seq<map<string, nat>>, n0: nat, vs: seq<string>, cs: seq<map<string, nat>>,
                  parts: seq<string>, root: string, node: nat, i: nat)
    requires forall j, k :: NewEdge(c0, cs, j, k) ==> StepEdge(cs, vs, n0, parts, root, j, k)
    requires n0 <= |vs| == |cs| && ChildrenInRange(cs, |cs|) && Extends(c0, cs)
    requires node < |cs| && i < |parts| && parts[i] != root && parts[i] !in cs[node]
    requires FollowIn(cs, 0, Kept(parts[..i], root)) == Some(node)
    ensures var cs', vs' := WithChild(cs, node, parts[i]), vs + [Join(parts[..i + 1])];
      forall j, k :: NewEdge(c0, cs', j, k) ==> StepEdge(cs', vs', n0, parts, root, j, k)
  {
    var part := parts[i];
    var cs' := WithChild(cs, node, part);
    var vs' := vs + [Join(parts[..i + 1])];
    AddChild(c0, cs, node, part);
    assert vs'[..|vs|] == vs;
    forall j, k | NewEdge(c0, cs', j, k) ensures StepEdge(cs', vs', n0, parts, root, j, k) {
      if j == node && k == part {
        FollowExtends(cs, cs', 0, Kept(parts[..i], root));
        assert WalkEdge(cs', vs', n0, parts, root, i, j, k);
      } else {
        assert NewEdge(c0, cs, j, k);
        StepEdgeExtends(cs, vs, cs', vs', n0, parts, root, j, k);
      }
    }
  }

  // ---- to_tree_node --------------------------------------------------------

  /** An item of the tree widget: an account (value = account, label = caption = last
      segment) or a payee leaf (value = (account, payee), label = payee). */
  datatype TreeItem =
    | AccountItem(account: string, caption: string, children: seq<TreeItem>)
    | PayeeItem(account: string, payee: string)

  /** A ledger query result row: an account and an optional payee. */
  type ResultRow = (string, Option<string>)

  /** The rows whose account starts with `prefix`, in order. */
  function RowsUnder(rows: seq<ResultRow>, prefix: string): (r: seq<ResultRow>)
    ensures |r| <= |rows|
    ensures forall x :: x in r <==> x in rows && prefix <= x.0
  {
    if |rows| == 0 then []
    else
      var init := rows[..|rows| - 1];
      var x := rows[|rows| - 1];
      assert forall y :: y in rows <==> y in init || y == x;
      RowsUnder(init, prefix) + (if prefix <= x.0 then [x] else [])
  }

  /** The payees of the rows for exactly `account`, in order, a missing one
      shown as "-NONE-". */
  function PayeesAt(rows: seq<ResultRow>, account: string): (r: seq<string>)
    ensures |r| <= |rows|
    ensures forall p :: p in r ==> p != ""
    ensures forall x :: x in rows && x.0 == account ==> PayeeKey(x.1) in r
  {
    if |rows| == 0 then []
    else
      var init := rows[..|rows| - 1];
      var x := rows[|rows| - 1];
      assert forall y :: y in rows <==> y in init || y == x;
      PayeesAt(init, account) + (if x.0 == account then [PayeeKey(x.1)] else [])
  }

  /** Every payee leaf comes from a row for exactly that account. */
  lemma {:induction false} PayeesAtSound(rows: seq<ResultRow>, account: string, p: string)
    requires p in PayeesAt(rows, account)
    ensures exists x :: x in rows && x.0 == account && PayeeKey(x.1) == p
  {
    var init := rows[..|rows| - 1];
    var x := rows[|rows| - 1];
    if p in PayeesAt(init, account) {
      PayeesAtSound(init, account, p);
      var y :| y in init && y.0 == account && PayeeKey(y.1) == p;
      assert y in rows;
    } else {
      assert x in rows;
    }
  }

  /** One payee leaf per payee, in order. */
  function PayeeLeaves(account: string, payees: seq<string>): (r: seq<TreeItem>)
    ensures |r| == |payees|
    ensures forall k :: 0 <= k < |payees| ==> r[k] == PayeeItem(account, payees[k])
  {
    seq(|payees|, k requires 0 <= k < |payees| => PayeeItem(account, payees[k]))
  }

  /** `to_tree_node`: the account item, whose children are its tree children
      converted with the rows below the account, then one payee leaf per row
      for the account itself. */
  function ToTreeNode(n: Node, rows: seq<ResultRow>): (r: TreeItem)
    ensures r.AccountItem? && r.account == n.account && r.caption == LastSegment(n.account)
    decreases n, 1
  {
    AccountItem(n.account, LastSegment(n.account),
      ToTreeNodes(n.children, RowsUnder(rows, n.account + [Sep])) + PayeeLeaves(n.account, PayeesAt(rows, n.account)))
  }

  function ToTreeNodes(cs: seq<Node>, rows: seq<ResultRow>): (r: seq<TreeItem>)
    ensures |r| == |cs|
    ensures forall i :: 0 <= i < |cs| ==> r[i] == ToTreeNode(cs[i], rows)
    decreases cs, 0
  {
    if |cs| == 0 then [] else [ToTreeNode(cs[0], rows)] + ToTreeNodes(cs[1..], rows)
  }

  /** The children of a node's item: each tree child converted with only the
      rows below the node's account, in child order, then one leaf per row
      for exactly the node's account, in row order. */
  lemma ToTreeNodeChildren(n: Node, rows: seq<ResultRow>)
    ensures |ToTreeNode(n, rows).children| == |n.children| + |PayeesAt(rows, n.account)|
    ensures forall i :: 0 <= i < |n.children| ==>
      ToTreeNode(n, rows).children[i] == ToTreeNode(n.children[i], RowsUnder(rows, n.account + [Sep]))
    ensures forall k :: 0 <= k < |PayeesAt(rows, n.account)| ==>
      ToTreeNode(n, rows).children[|n.children| + k] == PayeeItem(n.account, PayeesAt(rows, n.account)[k])
  {
  }

  /** Filtering by a prefix and then by a longer prefix is filtering by the
      longer one. */
  lemma {:induction false} RowsUnderNested(rows: seq<ResultRow>, p: string, q: string)
    requires p <= q
    ensures RowsUnder(RowsUnder(rows, p), q) == RowsUnder(rows, q)
  {
    if |rows| > 0 {
      var init := rows[..|rows| - 1];
      var x := rows[|rows| - 1];
      RowsUnderNested(init, p, q);
      var A := RowsUnder(init, p);
      if p <= x.0 {
        assert RowsUnder(rows, p) == A + [x];
        assert (A + [x])[..|A|] == A;
        assert RowsUnder(A + [x], q) == RowsUnder(A, q) + (if q <= x.0 then [x] else []);
      } else {
        assert RowsUnder(rows, p) == A;
        PrefixTransitive(p, q, x.0);
      }
    }
  }

  lemma PrefixTransitive(a: string, b: string, c: string)
    requires a <= b
    ensures b <= c ==> a <= c
  {
    if b <= c {
      assert c[..|a|] == b[..|a|];
    }
  }

  /** Restricting the rows to a prefix of the account keeps its payees. */
  lemma {:induction false} PayeesAtUnder(rows: seq<ResultRow>, p: string, account: string)
    requires p <= account
    ensures PayeesAt(RowsUnder(rows, p), account) == PayeesAt(rows, account)
  {
    if |rows| > 0 {
      var init := rows[..|rows| - 1];
      var x := rows[|rows| - 1];
      PayeesAtUnder(init, p, account);
      var A := RowsUnder(init, p);
      if p <= x.0 {
        assert RowsUnder(rows, p) == A + [x];
        assert (A + [x])[..|A|] == A;
        assert PayeesAt(A + [x], account) == PayeesAt(A, account) + (if x.0 == account then [PayeeKey(x.1)] else []);
      } else {
        assert RowsUnder(rows, p) == A;
        assert x.0 != account;
      }
    }
  }

  /** A node's item depends only on the rows at or below its account: rows
      outside a prefix of the account can be dropped without changing it. So
      each subtree sees exactly the rows of its own accounts, and only those
      are passed down the recursion. */
  lemma {:induction false} ToTreeNodeLocal(n: Node, rows: seq<ResultRow>, p: string)
    requires p <= n.account
    ensures ToTreeNode(n, RowsUnder(rows, p)) == ToTreeNode(n, rows)
    decreases n
  {
    var R := RowsUnder(rows, p);
    var q := n.account + [Sep];
    RowsUnderNested(rows, p, q);
    PayeesAtUnder(rows, p, n.account);
  }

  // ---- apply_filter --------------------------------------------------------

  /** A tree selection: an account, or an (account, payee) leaf. */
  datatype Selected = AccountSel(account: string) | PayeeSel(account: string, payee: string)

  /** The selection holds more than one item: the assertion in apply_filter fails. */
  datatype FilterError = MultipleSelection

  /** The data-grid query matching rows whose account contains `account`. */
  function AccountQuery(account: string): string
  {
    "{account} scontains " + account
  }

  /** `apply_filter`: the grid filter query for the selected tree item. */
  function ApplyFilter(selected: Option<seq<Selected>>): (r: Result<string, FilterError>)
    ensures r == Ok("") <==> selected.None? || |selected.value| == 0
    ensures r.Err? <==> selected.Some? && |selected.value| > 1
    ensures selected.Some? && |selected.value| == 1 ==> r.Ok? && AccountQuery(selected.value[0].account) <= r.value
    ensures selected.Some? && |selected.value| == 1 && selected.value[0].AccountSel? ==>
      r == Ok(AccountQuery(selected.value[0].account))
  {
    if selected.None? || |selected.value| == 0 then Ok("")
    else if |selected.value| != 1 then Err(MultipleSelection)
    else match selected.value[0]
      case AccountSel(s) => Ok(AccountQuery(s))
      case PayeeSel(account, payee) =>
        var p := if payee == NoPayee then "" else payee;
        Ok(AccountQuery(account) + " && {payee} eq \"" + p + "\"")
  }

  /** Selecting a payee leaf narrows the account's query by one more
      condition: the payee must equal the quoted payee, "-NONE-" standing for
      the empty payee. */
  lemma PayeeQueryNarrows(account: string, payee: string)
    ensures ApplyFilter(Some([PayeeSel(account, payee)]))
         == Ok(ApplyFilter(Some([AccountSel(account)])).value
               + " && {payee} eq \"" + (if payee == NoPayee then "" else payee) + "\"")
    ensures ApplyFilter(Some([PayeeSel(account, NoPayee)])) == ApplyFilter(Some([PayeeSel(account, "")]))
  {
  }

  // ---- to_datagrid ---------------------------------------------------------

  /** One row of the payee grid: a posting with its transaction's fields. */
  datatype GridRow = GridRow(account: string, value: real, date: string, payee: string, narration: string)

  /** The row of posting `p` of transaction `t`; a missing payee shows as "". */
  function RowOf(t: Directive, p: Posting): GridRow
    requires t.Transaction?
  {
    GridRow(p.account, p.weight, t.date, if t.payee.None? then "" else t.payee.value, t.narration)
  }

  /** The rows of one directive: one per posting of a transaction, none otherwise. */
  function EntryRows(d: Directive): (r: seq<GridRow>)
    ensures |r| == (if d.Transaction? then |d.postings| else 0)
    ensures d.Transaction? ==> forall k :: 0 <= k < |r| ==> r[k] == RowOf(d, d.postings[k])
  {
    if d.Transaction? then seq(|d.postings|, k requires 0 <= k < |d.postings| => RowOf(d, d.postings[k])) else []
  }

  /** The grid's rows: each directive's rows, in directive order. */
  function GridRows(ds: seq<Directive>): seq<GridRow>
  {
    if |ds| == 0 then [] else GridRows(ds[..|ds| - 1]) + EntryRows(ds[|ds| - 1])
  }

  /** The number of postings over all transactions. */
  function PostingCount(ds: seq<Directive>): nat
  {
    if |ds| == 0 then 0
    else PostingCount(ds[..|ds| - 1]) + (if ds[|ds| - 1].Transaction? then |ds[|ds| - 1].postings| else 0)
  }

  /** `to_datagrid`: skip non-transactions, one row per posting. */
  method ToDatagrid(ds: seq<Directive>) returns (out: seq<GridRow>)
    ensures out == GridRows(ds)
  {
    out := [];
    for i := 0 to |ds|
      invariant out == GridRows(ds[..i])
    {
      var t := ds[i];
      assert ds[..i + 1][..i] == ds[..i];
      if !t.Transaction? {
        continue;
      }
      for j := 0 to |t.postings|
        invariant out == GridRows(ds[..i]) + EntryRows(t)[..j]
      {
        var p := t.postings[j];
        assert EntryRows(t)[..j + 1] == EntryRows(t)[..j] + [RowOf(t, p)];
        out := out + [GridRow(p.account, p.weight, t.date, if t.payee.None? then "" else t.payee.value, t.narration)];
      }
      assert EntryRows(t)[..|t.postings|] == EntryRows(t);
    }
    assert ds[..|ds|] == ds;
  }

  /** There is exactly one row per posting of a transaction. */
  lemma {:induction false} GridRowsCount(ds: seq<Directive>)
    ensures |GridRows(ds)| == PostingCount(ds)
  {
    if |ds| > 0 {
      GridRowsCount(ds[..|ds| - 1]);
    }
  }

  /** Whether `row` is the row of some posting of some transaction in `ds`. */
  ghost predicate IsPostingRow(ds: seq<Directive>, row: GridRow)
  {
    exists i, k :: 0 <= i < |ds| && ds[i].Transaction? && 0 <= k < |ds[i].postings|
      && row == RowOf(ds[i], ds[i].postings[k])
  }

  /** A row is in the grid exactly when it is the row of some posting of some
      transaction of the input. */
  lemma {:induction false} GridRowsIff(ds: seq<Directive>, row: GridRow)
    ensures row in GridRows(ds) <==> IsPostingRow(ds, row)
  {
    if |ds| > 0 {
      GridRowsIff(ds[..|ds| - 1], row);
      if row in GridRows(ds) {
        GridRowSound(ds, row);
      }
      if IsPostingRow(ds, row) {
        GridRowComplete(ds, row);
      }
    }
  }

  /** A grid row comes from the last directive or, given the claim for the
      directives before it, from an earlier one. */
  lemma GridRowSound(ds: seq<Directive>, row: GridRow)
    requires |ds| > 0 && row in GridRows(ds)
    requires row in GridRows(ds[..|ds| - 1]) ==> IsPostingRow(ds[..|ds| - 1], row)
    ensures IsPostingRow(ds, row)
  {
    var init := ds[..|ds| - 1];
    var d := ds[|ds| - 1];
    if row in GridRows(init) {
      var i, k :| 0 <= i < |init| && init[i].Transaction? && 0 <= k < |init[i].postings|
        && row == RowOf(init[i], init[i].postings[k]);
      assert ds[i] == init[i];
    } else {
      var k :| 0 <= k < |EntryRows(d)| && EntryRows(d)[k] == row;
      assert ds[|ds| - 1] == d;
    }
  }

  /** A posting's row is in the grid: the last directive's directly, an
      earlier one's given the claim for the directives before it. */
  lemma GridRowComplete(ds: seq<Directive>, row: GridRow)
    requires |ds| > 0 && IsPostingRow(ds, row)
    requires IsPostingRow(ds[..|ds| - 1], row) ==> row in GridRows(ds[..|ds| - 1])
    ensures row in GridRows(ds)
  {
    var init := ds[..|ds| - 1];
    var d := ds[|ds| - 1];
    var i, k :| 0 <= i < |ds| && ds[i].Transaction? && 0 <= k < |ds[i].postings|
      && row == RowOf(ds[i], ds[i].postings[k]);
    if i < |init| {
      assert init[i] == ds[i];
      assert IsPostingRow(init, row);
    } else {
      assert EntryRows(d)[k] == row;
    }
  }
}
