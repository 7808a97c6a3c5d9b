// The journal page: the grid filter model built from the selected filter
// chips, and one grid row per ledger directive.
module Journal {
  import opened Wrappers
  import opened Ledger

  /** The chips that filter on the transaction flag rather than the type. */
  const Flags: seq<string> := ["!", "x", "*"]

  // ---- filter_types --------------------------------------------------------

  function Upper(c: char): char
  {
    if 'a' <= c <= 'z' then (c as int - 32) as char else c
  }

  function Lower(c: char): char
  {
    if 'A' <= c <= 'Z' then (c as int + 32) as char else c
  }

  /** `str.capitalize` on ASCII text: the first character upper case, every
      other one lower case. */
  function Capitalize(s: string): (r: string)
    ensures |r| == |s|
  {
    if |s| == 0 then ""
    else [Upper(s[0])] + seq(|s| - 1, i requires 0 <= i < |s| - 1 => Lower(s[i + 1]))
  }

  /** Every character lower-cased. */
  function LowerAll(s: string): (r: string)
    ensures |r| == |s|
  {
    seq(|s|, i requires 0 <= i < |s| => Lower(s[i]))
  }

  /** Capitalising twice changes nothing more. */
  lemma CapitalizeIdempotent(s: string)
    ensures Capitalize(Capitalize(s)) == Capitalize(s)
  {
    if |s| > 0 {
      var c := Capitalize(s);
      assert Upper(c[0]) == c[0];
      forall i | 1 <= i < |s| ensures Lower(c[i]) == c[i] {
        assert c[i] == Lower(s[i]);
      }
    }
  }

  /** A lower-case chip such as "transaction" capitalises to the type name
      "Transaction" that the grid rows carry. */
  lemma CapitalizeRecoversTypeName(name: string)
    requires |name| > 0 && 'A' <= name[0] <= 'Z'
    requires forall i :: 1 <= i < |name| ==> 'a' <= name[i] <= 'z'
    ensures Capitalize(LowerAll(name)) == name
  {
    var r := Capitalize(LowerAll(name));
    forall i | 0 <= i < |name| ensures r[i] == name[i] {
    }
  }

  /** The chip values that are flags (`flags`) or that are not, in input order. */
  function Select(values: seq<string>, flags: bool): (r: seq<string>)
    ensures forall x :: x in r <==> x in values && (x in Flags) == flags
  {
    if |values| == 0 then []
    else
      var init := values[..|values| - 1];
      var x := values[|values| - 1];
      assert forall y :: y in values <==> y in init || y == x;
      Select(init, flags) + (if (x in Flags) == flags then [x] else [])
  }

  /** Selection distributes over concatenation: it keeps the input order. */
  lemma {:induction false} SelectConcat(a: seq<string>, b: seq<string>, flags: bool)
    ensures Select(a + b, flags) == Select(a, flags) + Select(b, flags)
  {
    if |b| > 0 {
      var b' := b[..|b| - 1];
      SelectConcat(a, b', flags);
      assert (a + b)[..|a + b| - 1] == a + b';
    } else {
      assert a + b == a;
    }
  }

  /** The last chip value goes to exactly one of the two selections. */
  lemma SelectLast(values: seq<string>)
    requires |values| > 0
    ensures var init, x := values[..|values| - 1], values[|values| - 1];
      multiset(Select(values, true)) + multiset(Select(values, false))
      == multiset(Select(init, true)) + multiset(Select(init, false)) + multiset{x}
  {
    var init, x := values[..|values| - 1], values[|values| - 1];
    if x in Flags {
      assert Select(values, true) == Select(init, true) + [x];
    } else {
      assert Select(values, false) == Select(init, false) + [x];
    }
  }

  /** A sequence's multiset is its prefix's plus its last element. */
  lemma MultisetLast(s: seq<string>)
    requires |s| > 0
    ensures multiset(s) == multiset(s[..|s| - 1]) + multiset{s[|s| - 1]}
  {
    assert s == s[..|s| - 1] + [s[|s| - 1]];
  }

  /** Every chip value lands in exactly one of the two selections. */
  lemma {:induction false} SelectPartition(values: seq<string>)
    ensures multiset(Select(values, true)) + multiset(Select(values, false)) == multiset(values)
  {
    if |values| > 0 {
      var init := values[..|values| - 1];
      SelectPartition(init);
      SelectLast(values);
      MultisetLast(values);
    }
  }

  /** One grid filter condition: `{"filterType": "text", "type": "equals", "filter": ...}`. */
  datatype Condition = Condition(filterType: string, kind: string, filter: string)

  /** A column's filter: any of its conditions matches. */
  datatype ColumnFilter = ColumnFilter(filterType: string, operator: string, conditions: seq<Condition>)

  /** The patch to the grid's filter model: the `type` and the `f` columns. */
  datatype FilterModel = FilterModel(typeColumn: ColumnFilter, flagColumn: ColumnFilter)

  function Equals(s: string): Condition
  {
    Condition("text", "equals", s)
  }

  /** `filter_types`: the non-flag chips, capitalised, filter the `type`
      column; the flag chips, as they are, filter the `f` column. */
  function FilterTypes(values: seq<string>): (r: FilterModel)
    ensures r.typeColumn.filterType == "text" && r.typeColumn.operator == "OR"
    ensures r.flagColumn.filterType == "text" && r.flagColumn.operator == "OR"
    ensures |r.typeColumn.conditions| + |r.flagColumn.conditions| == |values|
    ensures |r.typeColumn.conditions| == |Select(values, false)|
    ensures |r.flagColumn.conditions| == |Select(values, true)|
    ensures forall k :: 0 <= k < |r.typeColumn.conditions| ==>
      r.typeColumn.conditions[k] == Equals(Capitalize(Select(values, false)[k]))
    ensures forall k :: 0 <= k < |r.flagColumn.conditions| ==>
      r.flagColumn.conditions[k] == Equals(Select(values, true)[k])
  {
    SelectPartition(values);
    assert |multiset(values)| == |values|;
    var types := Select(values, false);
    var flags := Select(values, true);
    FilterModel(
      ColumnFilter("text", "OR", seq(|types|, k requires 0 <= k < |types| => Equals(Capitalize(types[k])))),
      ColumnFilter("text", "OR", seq(|flags|, k requires 0 <= k < |flags| => Equals(flags[k]))))
  }

  // ---- to_datagrid ---------------------------------------------------------

  /** A journal grid row. Every row has an id (the entry hash), a date, a
      type name and an `f` column; transaction rows also carry payee,
      narration and value. */
  datatype JournalRow =
    | TransactionRow(id: string, date: string, typeName: string, f: string,
                     payee: Option<string>, narration: string, value: real)
    | EntryRow(id: string, date: string, typeName: string, f: string)

  function AbsWeightSum(ps: seq<Posting>): (r: real)
    ensures r >= 0.0
  {
    if |ps| == 0 then 0.0
    else AbsWeightSum(ps[..|ps| - 1]) + Abs(ps[|ps| - 1].weight)
  }

  function Abs(x: real): real
  {
    if x < 0.0 then -x else x
  }

  /** `_to_datagrid`: a transaction's row carries its flag, payee, narration
      and half the summed absolute posting weights; any other directive's
      `f` column is its type name. */
  function ToRow(d: Directive): (r: JournalRow)
    ensures r.id == d.hash && r.date == d.date && r.f == (if d.Transaction? then d.flag else d.typeName)
    ensures r.TransactionRow? <==> d.Transaction?
    ensures d.Transaction? ==>
      r.typeName == "Transaction" && r.payee == d.payee && r.narration == d.narration
      && r.value == AbsWeightSum(d.postings) / 2.0 && r.value >= 0.0
    ensures d.Other? ==> r.typeName == d.typeName
  {
    match d
    case Transaction(date, flag, payee, narration, _, _, postings, hash) =>
      TransactionRow(hash, date, "Transaction", flag, payee, narration, AbsWeightSum(postings) / 2.0)
    case Other(typeName, date, hash) =>
      EntryRow(hash, date, typeName, typeName)
  }

  /** `to_datagrid`: one row per directive, in order. */
  function ToDatagrid(ds: seq<Directive>): (r: seq<JournalRow>)
    ensures |r| == |ds|
    ensures forall i :: 0 <= i < |ds| ==> r[i] == ToRow(ds[i])
  {
    seq(|ds|, i requires 0 <= i < |ds| => ToRow(ds[i]))
  }

  /** The sum of the weights, and of the positive weights. */
  function WeightSum(ps: seq<Posting>): real
  {
    if |ps| == 0 then 0.0 else WeightSum(ps[..|ps| - 1]) + ps[|ps| - 1].weight
  }

  function PositiveSum(ps: seq<Posting>): real
  {
    if |ps| == 0 then 0.0
    else PositiveSum(ps[..|ps| - 1]) + (if ps[|ps| - 1].weight > 0.0 then ps[|ps| - 1].weight else 0.0)
  }

  lemma {:induction false} AbsSplit(ps: seq<Posting>)
    ensures AbsWeightSum(ps) == 2.0 * PositiveSum(ps) - WeightSum(ps)
  {
    if |ps| > 0 {
      AbsSplit(ps[..|ps| - 1]);
    }
  }

  /** For a balanced transaction (weights summing to zero) the row value is
      the amount that moves: the sum of its positive weights. */
  lemma BalancedValue(d: Directive)
    requires d.Transaction? && WeightSum(d.postings) == 0.0
    ensures ToRow(d).value == PositiveSum(d.postings)
  {
    AbsSplit(d.postings);
  }
}
