// The application header: the indented account labels of the account
// selector, and the autocomplete data (operating currencies, sorted account
// names and the sorted tag, link and payee suggestions of the filter box).
module Header {
  import opened Wrappers
  import opened AccountPath
  import opened Ledger
  import opened StringOrder

  // ---- label_account -------------------------------------------------------

  /** `"| " * n`. */
  function Bars(n: nat): (r: string)
    ensures |r| == 2 * n
    ensures forall i :: 0 <= i < 2 * n ==> r[i] == (if i % 2 == 0 then '|' else ' ')
    ensures Sep !in r
  {
    if n == 0 then "" else "| " + Bars(n - 1)
  }

  /** `label_account`: one "| " per level below the top, then the last segment. */
  function LabelAccount(account: string): (r: string)
    ensures Sep !in r
    ensures |r| == 2 * (|Segments(account)| - 1) + |LastSegment(account)|
    ensures r[2 * (|Segments(account)| - 1)..] == LastSegment(account)
    ensures forall i :: 0 <= i < 2 * (|Segments(account)| - 1) ==> r[i] == (if i % 2 == 0 then '|' else ' ')
  {
    var s := Segments(account);
    Bars(|s| - 1) + s[|s| - 1]
  }

  /** A label never contains a colon, and it is the account itself exactly
      when the account is top-level. */
  lemma LabelAccountIff(account: string)
    ensures Sep !in LabelAccount(account)
    ensures LabelAccount(account) == account <==> Sep !in account
  {
    TopLevelIff(account);
    var s := Segments(account);
    var r := LabelAccount(account);
    var pad := Bars(|s| - 1);
    forall i | 0 <= i < |r| ensures r[i] != Sep {
      if i < |pad| {
        assert r[i] == pad[i];
      } else {
        assert r[i] == s[|s| - 1][i - |pad|];
      }
    }
    if Sep !in account {
      ParentOfTopLevel(account);
    }
  }

  /** The label of a child account has one more bar than the parent's depth
      and ends in the child's own name. */
  lemma ChildLabel(account: string, name: string)
    requires Sep !in name
    ensures LabelAccount(account + [Sep] + name) == "| " + Bars(|Segments(account)| - 1) + name
  {
    SplitConcat(account, name, Sep);
    SplitNoSep(name, Sep);
    var s := Segments(account + [Sep] + name);
    assert s == Segments(account) + [name];
    assert Bars(|s| - 1) == "| " + Bars(|Segments(account)| - 1);
  }

  // ---- update_autocompletes ------------------------------------------------

  /** The `operating_currency` option: one string or a list of them. */
  datatype OperatingCurrency = Single(currency: string) | Many(currencies: seq<string>)

  /** `ops[0]` on an empty currency list raises IndexError. */
  datatype HeaderError = NoOperatingCurrency

  /** The four autocomplete outputs: the selected currency, the currency
      list, the sorted account names and the sorted tag suggestions. */
  datatype Autocompletes = Autocompletes(currency: string, currencies: seq<string>,
                                         accounts: seq<string>, tags: seq<string>)

  /** The suggestions one entry contributes: "#tag", "^link" and
      `payee:"P"` for a non-empty payee, from transactions only. */
  function EntryTags(d: Directive): (r: set<string>)
    ensures !d.Transaction? ==> r == {}
    ensures d.Transaction? ==> forall t :: t in d.tags ==> "#" + t in r
    ensures d.Transaction? ==> forall l :: l in d.links ==> "^" + l in r
    ensures d.Transaction? && d.payee.Some? && d.payee.value != "" ==> PayeeTag(d.payee.value) in r
  {
    if !d.Transaction? then {}
    else
      (set t | t in d.tags :: "#" + t)
      + (set l | l in d.links :: "^" + l)
      + (if d.payee.Some? && d.payee.value != "" then {PayeeTag(d.payee.value)} else {})
  }

  function PayeeTag(payee: string): string
  {
    "payee:\"" + payee + "\""
  }

  /** The suggestions of all entries. */
  function AllTags(ds: seq<Directive>): set<string>
  {
    if |ds| == 0 then {} else AllTags(ds[..|ds| - 1]) + EntryTags(ds[|ds| - 1])
  }

  /** A suggestion is collected exactly when some entry contributes it. */
  lemma {:induction false} AllTagsIff(ds: seq<Directive>, x: string)
    ensures x in AllTags(ds) <==> exists i :: 0 <= i < |ds| && x in EntryTags(ds[i])
  {
    if |ds| > 0 {
      var init := ds[..|ds| - 1];
      AllTagsIff(init, x);
      if x in AllTags(init) {
        var i :| 0 <= i < |init| && x in EntryTags(init[i]);
        assert ds[i] == init[i];
      }
      if exists i :: 0 <= i < |ds| && x in EntryTags(ds[i]) {
        var i :| 0 <= i < |ds| && x in EntryTags(ds[i]);
        if i < |init| {
          assert init[i] == ds[i];
        }
      }
    }
  }

  /** Every suggestion is a tag, a link or a payee suggestion of some
      transaction: its first character tells which. */
  lemma EntryTagKinds(d: Directive, x: string)
    requires x in EntryTags(d)
    ensures d.Transaction?
    ensures (x[0] == '#' && x[1..] in d.tags)
         || (x[0] == '^' && x[1..] in d.links)
         || (d.payee.Some? && d.payee.value != "" && x == PayeeTag(d.payee.value))
  {
    if x in (set t | t in d.tags :: "#" + t) {
      var t :| t in d.tags && x == "#" + t;
      assert x[1..] == t;
    } else if x in (set l | l in d.links :: "^" + l) {
      var l :| l in d.links && x == "^" + l;
      assert x[1..] == l;
    }
  }

  /** `update_autocompletes`: wrap a single currency into a list, collect the
      suggestions of every transaction into a set, and sort the set and the
      account names. */
  method UpdateAutocompletes(ops: OperatingCurrency, entries: seq<Directive>, accounts: set<string>)
    returns (r: Result<Autocompletes, HeaderError>)
    ensures r.Err? <==> ops.Many? && |ops.currencies| == 0
    ensures r.Ok? ==> r.value.currencies == (if ops.Single? then [ops.currency] else ops.currencies)
    ensures r.Ok? ==> r.value.currency == r.value.currencies[0]
    ensures r.Ok? ==> StrictlySorted(r.value.accounts) && Elems(r.value.accounts) == accounts
    ensures r.Ok? ==> StrictlySorted(r.value.tags) && Elems(r.value.tags) == AllTags(entries)
  {
    var currencies := if ops.Single? then [ops.currency] else ops.currencies;
    var tags: set<string> := {};
    for i := 0 to |entries|
      invariant tags == AllTags(entries[..i])
    {
      var entry := entries[i];
      assert entries[..i + 1][..i] == entries[..i];
      if entry.Transaction? {
        tags := tags + (set t | t in entry.tags :: "#" + t);
        tags := tags + (set l | l in entry.links :: "^" + l);
        if entry.payee.Some? && entry.payee.value != "" {
          tags := tags + {PayeeTag(entry.payee.value)};
        }
      }
    }
    assert entries[..|entries|] == entries;
    if |currencies| == 0 {
      return Err(NoOperatingCurrency);
    }
    var sortedAccounts := SortedOfSet(accounts);
    var sortedTags := SortedOfSet(tags);
    return Ok(Autocompletes(currencies[0], currencies, sortedAccounts, sortedTags));
  }
}
