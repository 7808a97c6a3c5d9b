// The data that crosses into the core from the ledger engine (beancount and
// fava): the rolled-up account tree and ledger directives. Posting weights and
// entry hashes are computed by the engine and arrive here as data.
module Ledger {
  import opened Wrappers

  /** fava's SerialisedTreeNode: an account, its rolled-up balance per
      currency (`balance_children`) and its direct children. */
  datatype Node = Node(account: string, balance: map<string, real>, children: seq<Node>)

  /** `node.balance_children.get(currency, 0)`. */
  function BalanceOf(n: Node, currency: string): real
  {
    if currency in n.balance then n.balance[currency] else 0.0
  }

  /** A posting: its account, its units and its weight (`get_weight(p).number`). */
  datatype Posting = Posting(account: string, units: real, weight: real)

  /** A ledger directive: a Transaction, or any other directive, known by its
      type name (`Open`, `Balance`, ...). `hash` stands for `hash_entry`. */
  datatype Directive =
    | Transaction(date: string, flag: string, payee: Option<string>, narration: string,
                  tags: set<string>, links: set<string>, postings: seq<Posting>, hash: string)
    | Other(typeName: string, date: string, hash: string)
}
