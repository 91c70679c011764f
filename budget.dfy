/**
 * The budget page: the planned amounts of one month, kept as text per category id
 * while they are edited, and the rows sent to the `upsert_budget_rows` remote
 * procedure on save. The month list is the dashboard's (module Months).
 */
module Budget {
  import opened Wrappers
  import opened Text

  datatype CategoryKind = Income | Expense

  /** `Category` */
  datatype Category = Category(id: string, name: string, kind: CategoryKind)

  /** A row of the `budgets` table for the selected month. */
  datatype BudgetRow = BudgetRow(categoryId: string, planned: int)

  /** What `Number` makes of a text: exact for an optionally signed decimal integer;
      any other text is carried as it is. */
  datatype NumberValue = Num(value: int) | Unparsed(text: string)

  /** A row of the save payload. */
  datatype PayloadRow = PayloadRow(orgId: string, month: string, categoryId: string, planned: NumberValue)

  // ----- a JavaScript object with string keys -----

  /** The entries of a plain object in the order `Object.entries` lists them: insertion
      order. The page's category ids are never integer-like, so no key is listed
      out of that order. */
  type Entries = seq<(string, string)>

  function KeysOf(e: Entries): (keys: seq<string>)
    ensures |keys| == |e| && forall i :: 0 <= i < |e| ==> keys[i] == e[i].0
  {
    seq(|e|, i requires 0 <= i < |e| => e[i].0)
  }

  ghost predicate UniqueKeys(e: Entries) {
    forall i, j :: 0 <= i < j < |e| ==> e[i].0 != e[j].0
  }

  /** `obj[k]`, `None` standing for `undefined`. */
  function Lookup(e: Entries, k: string): (v: Option<string>)
    ensures v.Some? <==> k in KeysOf(e)
    ensures v.Some? ==> exists i :: 0 <= i < |e| && e[i] == (k, v.value)
  {
    if e == [] then None
    else if e[0].0 == k then Some(e[0].1)
    else
      var v := Lookup(e[1..], k);
      assert KeysOf(e) == [e[0].0] + KeysOf(e[1..]);
      assert forall i :: 0 < i < |e| ==> e[i] == e[1..][i - 1];
      v
  }

  /** Dropping the first entry of an object with unique keys leaves an object with
      unique keys that does not list the dropped key. */
  lemma UniqueTail(e: Entries)
    requires UniqueKeys(e) && e != []
    ensures UniqueKeys(e[1..]) && e[0].0 !in KeysOf(e[1..])
  {
    forall a, b | 0 <= a < b < |e| - 1 ensures e[1..][a].0 != e[1..][b].0 {
      assert e[1..][a] == e[a + 1] && e[1..][b] == e[b + 1];
    }
  }

  /** In an object each key is listed once, so the value listed with a key is the
      value the key looks up. */
  lemma {:induction false} LookupListed(e: Entries, i: int)
    requires UniqueKeys(e) && 0 <= i < |e|
    ensures Lookup(e, e[i].0) == Some(e[i].1)
  {
    if 0 < i {
      UniqueTail(e);
      LookupListed(e[1..], i - 1);
    }
  }

  /** `obj[k] = v`, and equally `{ ...obj, [k]: v }` */
  function Assign(e: Entries, k: string, v: string): Entries {
    if e == [] then [(k, v)]
    else if e[0].0 == k then [(k, v)] + e[1..]
    else [e[0]] + Assign(e[1..], k, v)
  }

  /** After the assignment key `k` holds `v`, and every other key looks up what it did
      before. */
  lemma {:induction false} AssignLookup(e: Entries, k: string, v: string, other: string)
    ensures Lookup(Assign(e, k, v), k) == Some(v)
    ensures other != k ==> Lookup(Assign(e, k, v), other) == Lookup(e, other)
  {
    if e != [] && e[0].0 != k {
      AssignLookup(e[1..], k, v, other);
      assert Assign(e, k, v)[1..] == Assign(e[1..], k, v);
    } else if e != [] {
      assert Assign(e, k, v)[1..] == e[1..];
    }
  }

  lemma KeysOfCons(x: (string, string), e: Entries)
    ensures KeysOf([x] + e) == [x.0] + KeysOf(e)
  {
    assert forall i :: 0 < i <= |e| ==> ([x] + e)[i] == e[i - 1];
  }

  /** A key already present keeps its place ... */
  lemma {:induction false} AssignPresentKey(e: Entries, k: string, v: string)
    requires k in KeysOf(e)
    ensures KeysOf(Assign(e, k, v)) == KeysOf(e)
  {
    KeysOfCons(e[0], e[1..]);
    assert e == [e[0]] + e[1..];
    if e[0].0 == k {
      KeysOfCons((k, v), e[1..]);
    } else {
      AssignPresentKey(e[1..], k, v);
      AssignPassesKey(e, k, v);
    }
  }

  /** Assigning a key other than the first entry's keeps that entry in front. */
  lemma AssignPassesKey(e: Entries, k: string, v: string)
    requires e != [] && e[0].0 != k
    ensures KeysOf(Assign(e, k, v)) == [e[0].0] + KeysOf(Assign(e[1..], k, v))
  {
    KeysOfCons(e[0], Assign(e[1..], k, v));
  }

  /** ... and a new key goes last. */
  lemma {:induction false} AssignNewKey(e: Entries, k: string, v: string)
    requires k !in KeysOf(e)
    ensures KeysOf(Assign(e, k, v)) == KeysOf(e) + [k]
  {
    if e == [] {
      assert KeysOf(Assign(e, k, v)) == [k];
    } else {
      var tail := e[1..];
      NewKeyNotInTail(e, k);
      AssignNewKey(tail, k, v);
      AssignPassesKey(e, k, v);
      KeysOfCons(e[0], tail);
      assert e == [e[0]] + tail;
      assert [e[0].0] + (KeysOf(tail) + [k]) == ([e[0].0] + KeysOf(tail)) + [k];
    }
  }

  lemma NewKeyNotInTail(e: Entries, k: string)
    requires e != [] && k !in KeysOf(e)
    ensures k != e[0].0 && k !in KeysOf(e[1..])
  {
    assert KeysOf(e)[0] == e[0].0;
  }

  /** Assigning keeps every key listed once. */
  lemma AssignUnique(e: Entries, k: string, v: string)
    requires UniqueKeys(e)
    ensures UniqueKeys(Assign(e, k, v))
  {
    var r := Assign(e, k, v);
    if k in KeysOf(e) { AssignPresentKey(e, k, v); } else { AssignNewKey(e, k, v); }
    forall a, b | 0 <= a < b < |r| ensures r[a].0 != r[b].0 {
      assert KeysOf(r)[a] == r[a].0 && KeysOf(r)[b] == r[b].0;
      if b == |e| {
        assert k !in KeysOf(e);
        assert KeysOf(e)[a] == e[a].0;
      } else {
        assert KeysOf(e)[a] == e[a].0 && KeysOf(e)[b] == e[b].0;
      }
    }
  }

  // ----- loading, editing and saving -----

  /** The map the load loop builds: `map[r.category_id] = String(r.planned)` for each
      row in turn. */
  function PlannedFrom(rows: seq<BudgetRow>): Entries {
    if rows == [] then []
    else
      var last := rows[|rows| - 1];
      Assign(PlannedFrom(rows[..|rows| - 1]), last.categoryId, IntToString(last.planned))
  }

  /** The planned amount of the last row for category `id`, if there is one. */
  function LastPlanned(rows: seq<BudgetRow>, id: string): Option<int> {
    if rows == [] then None
    else if rows[|rows| - 1].categoryId == id then Some(rows[|rows| - 1].planned)
    else LastPlanned(rows[..|rows| - 1], id)
  }

  /** The loaded map has one key per returned category id, holding the text of the
      planned amount of the last row with that id. */
  lemma {:induction false} PlannedFromLastWins(rows: seq<BudgetRow>, id: string)
    ensures UniqueKeys(PlannedFrom(rows))
    ensures Lookup(PlannedFrom(rows), id) ==
      if LastPlanned(rows, id).Some? then Some(IntToString(LastPlanned(rows, id).value)) else None
  {
    if rows != [] {
      var last := rows[|rows| - 1];
      PlannedFromLastWins(rows[..|rows| - 1], id);
      AssignLookup(PlannedFrom(rows[..|rows| - 1]), last.categoryId, IntToString(last.planned), id);
      AssignUnique(PlannedFrom(rows[..|rows| - 1]), last.categoryId, IntToString(last.planned));
    }
  }

  /** The load loop. */
  method LoadPlanned(rows: seq<BudgetRow>) returns (planned: Entries)
    ensures planned == PlannedFrom(rows)
  {
    planned := [];
    for n := 0 to |rows|
      invariant planned == PlannedFrom(rows[..n])
    {
      assert rows[..n + 1][..n] == rows[..n];
      planned := Assign(planned, rows[n].categoryId, IntToString(rows[n].planned));
    }
    assert rows[..|rows|] == rows;
  }

  /** `planned[c.id] ?? ""`: the text in a category's input. */
  function InputText(planned: Entries, id: string): string {
    Lookup(planned, id).GetOr("")
  }

  /** Typing into one category's input shows that text there and leaves every other
      input as it was. */
  lemma EditShowsText(planned: Entries, id: string, text: string, other: string)
    requires other != id
    ensures InputText(Assign(planned, id, text), id) == text
    ensures InputText(Assign(planned, id, text), other) == InputText(planned, other)
  {
    AssignLookup(planned, id, text, other);
  }

  /** `Number(text)` */
  function JsNumber(text: string): NumberValue {
    match ParseInteger(text)
    case Some(n) => Num(n)
    case None => Unparsed(text)
  }

  /** `Number(v || 0)`: blank text is 0, other text goes through `Number`. */
  function PlannedAmount(v: string): NumberValue {
    if v == "" then Num(0) else JsNumber(v)
  }

  /** Blank text is sent as 0 and the text `String(n)` wrote is sent as `n`; text that
      is not a decimal integer is not read as a number. */
  lemma PlannedAmountReadsText(n: int, t: string)
    ensures PlannedAmount("") == Num(0)
    ensures PlannedAmount(IntToString(n)) == Num(n)
    ensures ParseInteger(t).None? && t != "" ==> PlannedAmount(t) == Unparsed(t)
  {
    IntToStringRoundTrip(n);
  }

  /** `Object.entries(planned).map(...)`: one row per entry, in entry order. */
  function SavePayload(orgId: string, month: string, planned: Entries): (payload: seq<PayloadRow>)
    ensures |payload| == |planned|
    ensures forall i :: 0 <= i < |payload| ==>
      payload[i] == PayloadRow(orgId, month, planned[i].0, PlannedAmount(planned[i].1))
  {
    seq(|planned|, i requires 0 <= i < |planned| =>
      PayloadRow(orgId, month, planned[i].0, PlannedAmount(planned[i].1)))
  }

  /** The payload has exactly one row per key of `planned`. */
  lemma PayloadOnePerKey(orgId: string, month: string, planned: Entries, k: string)
    ensures (exists i :: 0 <= i < |planned| && SavePayload(orgId, month, planned)[i].categoryId == k)
            <==> Lookup(planned, k).Some?
  {
    var payload := SavePayload(orgId, month, planned);
    if Lookup(planned, k).Some? {
      var i :| 0 <= i < |planned| && KeysOf(planned)[i] == k;
      assert payload[i].categoryId == k;
    }
    if i :| 0 <= i < |planned| && payload[i].categoryId == k {
      assert KeysOf(planned)[i] == k;
    }
  }

  /** Each payload row is for the active workspace and the selected month, and carries
      the number that its key's text denotes. */
  lemma PayloadRowsMatchKeys(orgId: string, month: string, planned: Entries, i: int)
    requires UniqueKeys(planned) && 0 <= i < |planned|
    ensures var row := SavePayload(orgId, month, planned)[i];
      row.orgId == orgId && row.month == month &&
      Lookup(planned, row.categoryId).Some? && row.planned == PlannedAmount(Lookup(planned, row.categoryId).value)
  {
    LookupListed(planned, i);
  }

  /** Saving straight after loading sends back, for every category that had a budget
      row, the planned amount of its last row, and nothing for any other category. */
  lemma SaveAfterLoad(orgId: string, month: string, rows: seq<BudgetRow>, id: string)
    ensures var payload := SavePayload(orgId, month, PlannedFrom(rows));
      (exists i :: 0 <= i < |payload| && payload[i].categoryId == id) <==> LastPlanned(rows, id).Some?
    ensures var payload := SavePayload(orgId, month, PlannedFrom(rows));
      forall i :: 0 <= i < |payload| && payload[i].categoryId == id ==>
        payload[i].planned == Num(LastPlanned(rows, id).value)
  {
    var planned := PlannedFrom(rows);
    var payload := SavePayload(orgId, month, planned);
    PlannedFromLastWins(rows, id);
    PayloadOnePerKey(orgId, month, planned, id);
    forall i | 0 <= i < |payload| && payload[i].categoryId == id
      ensures payload[i].planned == Num(LastPlanned(rows, id).value)
    {
      PayloadRowsMatchKeys(orgId, month, planned, i);
      var n := LastPlanned(rows, id).value;
      IntToStringRoundTrip(n);
    }
  }

  /** `categories.filter(c => c.type === "expense")` */
  function ExpenseCategories(categories: seq<Category>): (r: seq<Category>)
    ensures forall c :: c in r <==> c in categories && c.kind == Expense
    ensures |r| <= |categories|
  {
    if categories == [] then []
    else
      var rest := ExpenseCategories(categories[1..]);
      assert categories == [categories[0]] + categories[1..];
      (if categories[0].kind == Expense then [categories[0]] else []) + rest
  }

  /** The filter keeps the loaded order: it distributes over concatenation. */
  lemma {:induction false} ExpenseCategoriesKeepOrder(a: seq<Category>, b: seq<Category>)
    ensures ExpenseCategories(a + b) == ExpenseCategories(a) + ExpenseCategories(b)
  {
    if a == [] {
      assert a + b == b;
    } else {
      assert (a + b)[1..] == a[1..] + b;
      ExpenseCategoriesKeepOrder(a[1..], b);
    }
  }
}
