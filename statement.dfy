/**
 * The net-worth page: per-account balances reported by the server, the net-worth
 * total, and the account statement built in the browser from the fetched
 * transactions (grouping by account, category-name resolution, the ascending
 * running-balance ledger, the newest-first display and the headline balance).
 * Amounts are integers in minor units.
 */
module Statement {
  import opened Wrappers
  import opened Ordering

  /** A category object of the `categories(name)` join; its `name` may be missing. */
  datatype CategoryRef = CategoryRef(name: Option<string>)

  /** The join as it comes back: missing, a single object, or an array whose
      elements may themselves be missing. */
  datatype CategoryJoin =
    | NoJoin
    | JoinObject(ref: CategoryRef)
    | JoinArray(refs: seq<Option<CategoryRef>>)

  /** A transaction as fetched from the `transactions` table. */
  datatype FetchedTxn = FetchedTxn(
    id: string,
    txnDate: string,
    description: string,
    amount: Option<int>,
    accountId: string,
    createdAt: Option<string>,
    categories: CategoryJoin)

  /** `TxnRow`: a transaction as the statements use it. */
  datatype Txn = Txn(
    id: string,
    txnDate: string,
    description: string,
    amount: int,
    accountId: string,
    createdAt: Option<string>,
    categoryName: Option<string>)

  /** `{ ...t, running_balance }` */
  datatype StatementRow = StatementRow(txn: Txn, runningBalance: int)

  /** `AccountRow`, with its opening balance already read as a number. */
  datatype Account = Account(id: string, name: string, openingBalance: int)

  /** A row of the `account_balances` remote procedure. */
  datatype ReportedBalance = ReportedBalance(accountName: string, balance: Option<int>)

  /** `BalanceRow` */
  datatype BalanceRow = BalanceRow(name: string, balance: int)

  /** The number of statement rows shown per account. */
  const RowsToShow := 25

  /** `Number(v || 0)`: a missing amount counts as 0. */
  function AmountOf(v: Option<int>): int {
    v.GetOr(0)
  }

  // ----- server balances and net worth -----

  /** The `account_balances` rows as the page keeps them. */
  function BalanceRows(data: seq<ReportedBalance>): (rows: seq<BalanceRow>)
    ensures |rows| == |data|
    ensures forall i :: 0 <= i < |data| ==> rows[i].name == data[i].accountName
    ensures forall i :: 0 <= i < |data| ==> rows[i].balance == (if data[i].balance.Some? then data[i].balance.value else 0)
  {
    seq(|data|, i requires 0 <= i < |data| => BalanceRow(data[i].accountName, AmountOf(data[i].balance)))
  }

  /** `rows.reduce((s, r) => s + r.balance, 0)`: a left fold. */
  function NetWorth(rows: seq<BalanceRow>): int {
    FoldBalances(rows, 0)
  }

  function FoldBalances(rows: seq<BalanceRow>, acc: int): int {
    if rows == [] then acc else FoldBalances(rows[1..], acc + rows[0].balance)
  }

  /** The plain sum of the reported balances. */
  function SumBalances(rows: seq<BalanceRow>): int {
    if rows == [] then 0 else SumBalances(rows[..|rows| - 1]) + rows[|rows| - 1].balance
  }

  lemma {:induction false} SumBalancesAppend(a: seq<BalanceRow>, b: seq<BalanceRow>)
    ensures SumBalances(a + b) == SumBalances(a) + SumBalances(b)
  {
    if b != [] {
      assert (a + b)[..|a + b| - 1] == a + b[..|b| - 1];
      SumBalancesAppend(a, b[..|b| - 1]);
    } else {
      assert a + b == a;
    }
  }

  lemma {:induction false} FoldBalancesIsSum(rows: seq<BalanceRow>, acc: int)
    ensures FoldBalances(rows, acc) == acc + SumBalances(rows)
  {
    if rows != [] {
      FoldBalancesIsSum(rows[1..], acc + rows[0].balance);
      assert rows == [rows[0]] + rows[1..];
      SumBalancesAppend([rows[0]], rows[1..]);
      assert [rows[0]][..0] == [];
    }
  }

  /** The net-worth figure is the sum of every per-account balance the server reported. */
  lemma NetWorthIsSum(rows: seq<BalanceRow>)
    ensures NetWorth(rows) == SumBalances(rows)
  {
    FoldBalancesIsSum(rows, 0);
  }

  /** The sum of the balances the server reported, a missing one read as 0. */
  function ReportedTotal(data: seq<ReportedBalance>): int {
    if data == [] then 0 else ReportedTotal(data[..|data| - 1]) + data[|data| - 1].balance.GetOr(0)
  }

  lemma {:induction false} BalanceRowsTotal(data: seq<ReportedBalance>)
    ensures SumBalances(BalanceRows(data)) == ReportedTotal(data)
  {
    if data != [] {
      var n := |data|;
      assert BalanceRows(data)[..n - 1] == BalanceRows(data[..n - 1]);
      BalanceRowsTotal(data[..n - 1]);
    }
  }

  /** The net worth shown is the sum of the reported balances, each missing one
      counted as 0. */
  lemma NetWorthOfReported(data: seq<ReportedBalance>)
    ensures NetWorth(BalanceRows(data)) == ReportedTotal(data)
  {
    NetWorthIsSum(BalanceRows(data));
    BalanceRowsTotal(data);
  }

  /** No later row carries the same name as row `i`. */
  ghost predicate LastWithName(rows: seq<BalanceRow>, i: int)
    requires 0 <= i < |rows|
  {
    forall j :: i < j < |rows| ==> rows[j].name != rows[i].name
  }

  /** `balanceByName`: one entry per reported name, holding the balance of the last
      row that carries that name. */
  method BalanceByName(rows: seq<BalanceRow>) returns (m: map<string, int>)
    ensures forall name :: name in m <==> exists i :: 0 <= i < |rows| && rows[i].name == name
    ensures forall i :: 0 <= i < |rows| && LastWithName(rows, i) ==> m[rows[i].name] == rows[i].balance
  {
    m := map[];
    for n := 0 to |rows|
      invariant forall name :: name in m <==> exists i :: 0 <= i < n && rows[i].name == name
      invariant forall i :: 0 <= i < n && LastWithName(rows[..n], i) ==> m[rows[i].name] == rows[i].balance
    {
      m := m[rows[n].name := rows[n].balance];
      forall name | name in m ensures exists i :: 0 <= i < n + 1 && rows[i].name == name {
        if name == rows[n].name {
          assert rows[n].name == name;
        }
      }
      forall i | 0 <= i < n + 1 && LastWithName(rows[..n + 1], i)
        ensures m[rows[i].name] == rows[i].balance
      {
        if i < n {
          assert rows[..n + 1][n] == rows[n];
          assert LastWithName(rows[..n], i);
        }
      }
    }
    assert rows[..|rows|] == rows;
  }

  // ----- grouping the fetched transactions -----

  /** The object the row's category name is read from: the join itself when it is
      an object, its first element when it is an array. */
  function LeadRef(join: CategoryJoin): Option<CategoryRef> {
    match join
    case NoJoin => None
    case JoinObject(r) => Some(r)
    case JoinArray(rs) => if rs == [] then None else rs[0]
  }

  /** `Array.isArray(cat) ? (cat[0]?.name ?? null) : (cat?.name ?? null)` */
  function CategoryName(join: CategoryJoin): (name: Option<string>)
    ensures name.Some? <==> LeadRef(join).Some? && LeadRef(join).value.name.Some?
    ensures name.Some? ==> name == LeadRef(join).value.name
    ensures join.NoJoin? || (join.JoinArray? && join.refs == []) ==> name == None
  {
    match join
    case NoJoin => None
    case JoinObject(r) => r.name
    case JoinArray(rs) =>
      if rs == [] then None
      else match rs[0]
        case None => None
        case Some(r) => r.name
  }

  /** The `TxnRow` pushed for a fetched transaction. */
  function ToTxn(t: FetchedTxn): Txn {
    Txn(t.id, t.txnDate, t.description, AmountOf(t.amount), t.accountId, t.createdAt, CategoryName(t.categories))
  }

  /** The rows of account `id`, in fetch order. */
  function RowsFor(fetched: seq<FetchedTxn>, id: string): seq<Txn> {
    if fetched == [] then []
    else
      var last := fetched[|fetched| - 1];
      RowsFor(fetched[..|fetched| - 1], id) + (if last.accountId == id then [ToTxn(last)] else [])
  }

  /** Grouping distributes over concatenation of the fetched list, so fetch order is
      kept within every account's list. */
  lemma {:induction false} RowsForAppend(a: seq<FetchedTxn>, b: seq<FetchedTxn>, id: string)
    ensures RowsFor(a + b, id) == RowsFor(a, id) + RowsFor(b, id)
  {
    if b == [] {
      assert a + b == a;
    } else {
      assert (a + b)[..|a + b| - 1] == a + b[..|b| - 1];
      RowsForAppend(a, b[..|b| - 1], id);
    }
  }

  /** Every row in an account's list belongs to that account, and every fetched
      transaction of that account is in it. */
  lemma {:induction false} RowsForExact(fetched: seq<FetchedTxn>, id: string)
    ensures forall t :: t in RowsFor(fetched, id) ==> t.accountId == id
    ensures forall i :: 0 <= i < |fetched| && fetched[i].accountId == id ==> ToTxn(fetched[i]) in RowsFor(fetched, id)
  {
    if fetched != [] {
      var init := fetched[..|fetched| - 1];
      RowsForExact(init, id);
      forall i | 0 <= i < |fetched| - 1 && fetched[i].accountId == id
        ensures ToTxn(fetched[i]) in RowsFor(fetched, id)
      {
        assert init[i] == fetched[i];
      }
    }
  }

  /** The grouping loop: one list per account id that occurs in the fetched data,
      holding exactly that account's rows in fetch order. */
  method GroupByAccount(fetched: seq<FetchedTxn>) returns (grouped: map<string, seq<Txn>>)
    ensures forall id :: id in grouped <==> exists i :: 0 <= i < |fetched| && fetched[i].accountId == id
    ensures forall id :: id in grouped ==> grouped[id] == RowsFor(fetched, id)
  {
    grouped := map[];
    for n := 0 to |fetched|
      invariant forall id :: id in grouped ==> grouped[id] != []
      invariant forall id :: RowsFor(fetched[..n], id) == if id in grouped then grouped[id] else []
    {
      var t := fetched[n];
      var rows := if t.accountId in grouped then grouped[t.accountId] else [];
      grouped := grouped[t.accountId := rows + [ToTxn(t)]];
      forall id ensures RowsFor(fetched[..n + 1], id) == if id in grouped then grouped[id] else [] {
        RowsForStep(fetched, n, id);
      }
    }
    assert fetched[..|fetched|] == fetched;
    forall id ensures id in grouped <==> exists i :: 0 <= i < |fetched| && fetched[i].accountId == id {
      RowsForEmpty(fetched, id);
    }
  }

  /** An account has no rows exactly when no fetched transaction belongs to it. */
  lemma {:induction false} RowsForEmpty(fetched: seq<FetchedTxn>, id: string)
    ensures RowsFor(fetched, id) == [] <==> forall i :: 0 <= i < |fetched| ==> fetched[i].accountId != id
  {
    if fetched != [] {
      var init := fetched[..|fetched| - 1];
      RowsForEmpty(init, id);
      assert forall i :: 0 <= i < |init| ==> init[i] == fetched[i];
    }
  }

  /** One more fetched transaction adds itself to its own account's rows only. */
  lemma RowsForStep(fetched: seq<FetchedTxn>, n: int, id: string)
    requires 0 <= n < |fetched|
    ensures RowsFor(fetched[..n + 1], id) ==
      RowsFor(fetched[..n], id) + if fetched[n].accountId == id then [ToTxn(fetched[n])] else []
  {
    assert fetched[..n + 1][..n] == fetched[..n];
  }

  // ----- the statement of one account -----

  /** `txnsByAccountId[acc.id] ?? []` */
  function AccountTxns(grouped: map<string, seq<Txn>>, acc: Account): seq<Txn> {
    if acc.id in grouped then grouped[acc.id] else []
  }

  /** The ordering key of a transaction: `txn_date`, then `created_at || ""`. */
  function TxnKey(t: Txn): SortKey {
    SortKey(t.txnDate, t.createdAt.GetOr(""))
  }

  function RowKey(r: StatementRow): SortKey {
    TxnKey(r.txn)
  }

  function Txns(rows: seq<StatementRow>): (txns: seq<Txn>)
    ensures |txns| == |rows| && forall k :: 0 <= k < |rows| ==> txns[k] == rows[k].txn
  {
    seq(|rows|, k requires 0 <= k < |rows| => rows[k].txn)
  }

  /** The sum of the amounts of `txns`. */
  function Total(txns: seq<Txn>): int {
    if txns == [] then 0 else Total(txns[..|txns| - 1]) + txns[|txns| - 1].amount
  }

  lemma {:induction false} TotalAppend(a: seq<Txn>, b: seq<Txn>)
    ensures Total(a + b) == Total(a) + Total(b)
  {
    if b == [] {
      assert a + b == a;
    } else {
      assert (a + b)[..|a + b| - 1] == a + b[..|b| - 1];
      TotalAppend(a, b[..|b| - 1]);
    }
  }

  /** Taking one transaction out of a list takes its amount out of the total. */
  lemma TotalRemove(b: seq<Txn>, i: int)
    requires 0 <= i < |b|
    ensures Total(b) == Total(b[..i] + b[i + 1..]) + b[i].amount
  {
    var left, right := b[..i], b[i + 1..];
    assert b == (left + [b[i]]) + right;
    TotalAppend(left + [b[i]], right);
    TotalAppend(left, right);
    assert (left + [b[i]])[..|left|] == left;
  }

  lemma MultisetRemove(b: seq<Txn>, i: int)
    requires 0 <= i < |b|
    ensures multiset(b[..i] + b[i + 1..]) == multiset(b) - multiset{b[i]}
  {
    assert b == b[..i] + [b[i]] + b[i + 1..];
  }

  lemma MultisetRemoveLast(a: seq<Txn>)
    requires a != []
    ensures multiset(a[..|a| - 1]) == multiset(a) - multiset{a[|a| - 1]}
  {
    assert a == a[..|a| - 1] + [a[|a| - 1]];
  }

  lemma IndexOf(b: seq<Txn>, x: Txn) returns (i: int)
    requires x in multiset(b)
    ensures 0 <= i < |b| && b[i] == x
  {
    i :| 0 <= i < |b| && b[i] == x;
  }

  /** Reordering transactions does not change their total. */
  lemma {:induction false} TotalPermutation(a: seq<Txn>, b: seq<Txn>)
    requires multiset(a) == multiset(b)
    ensures Total(a) == Total(b)
  {
    if a == [] {
      assert |b| == |multiset(b)| == 0;
    } else {
      var i := IndexOf(b, a[|a| - 1]);
      MultisetRemoveLast(a);
      MultisetRemove(b, i);
      TotalPermutation(a[..|a| - 1], b[..i] + b[i + 1..]);
      TotalRemove(b, i);
    }
  }

  /** The running-balance pass: starting from the opening balance, every row of the
      ascending list gets the opening balance plus the amounts of all rows up to and
      including it. */
  method AccumulateRunning(opening: int, asc: seq<Txn>) returns (ledger: seq<StatementRow>)
    ensures |ledger| == |asc|
    ensures forall k :: 0 <= k < |ledger| ==>
      ledger[k].txn == asc[k] && ledger[k].runningBalance == opening + Total(asc[..k + 1])
  {
    var running := opening;
    ledger := [];
    for n := 0 to |asc|
      invariant |ledger| == n
      invariant running == opening + Total(asc[..n])
      invariant forall k :: 0 <= k < n ==>
        ledger[k].txn == asc[k] && ledger[k].runningBalance == opening + Total(asc[..k + 1])
    {
      assert asc[..n + 1][..n] == asc[..n];
      running := running + asc[n].amount;
      ledger := ledger + [StatementRow(asc[n], running)];
    }
  }

  /** `displayBalance`: the server's balance for the account's name whenever there is
      one (even 0), else the last running balance, else the opening balance. */
  function HeadlineBalance(balances: map<string, int>, acc: Account, ledger: seq<StatementRow>): int {
    if acc.name in balances then balances[acc.name]
    else if |ledger| > 0 then ledger[|ledger| - 1].runningBalance
    else acc.openingBalance
  }

  /** Without a server balance the headline is the opening balance plus the total of
      the ledger's amounts, with or without transactions. */
  lemma HeadlineFallback(balances: map<string, int>, acc: Account, asc: seq<Txn>, ledger: seq<StatementRow>)
    requires acc.name !in balances
    requires |ledger| == |asc|
    requires forall k :: 0 <= k < |ledger| ==> ledger[k].runningBalance == acc.openingBalance + Total(asc[..k + 1])
    ensures HeadlineBalance(balances, acc, ledger) == acc.openingBalance + Total(asc)
  {
    if asc != [] {
      assert asc[..|asc|] == asc;
    }
  }

  /** One account's statement: the ascending ledger with running balances, the
      newest-first list, the headline balance and the rows shown. */
  method BuildStatement(acc: Account, grouped: map<string, seq<Txn>>, balances: map<string, int>)
    returns (ledger: seq<StatementRow>, desc: seq<StatementRow>, headline: int, shown: seq<StatementRow>)
    // the ledger: the account's transactions, oldest first, ties in fetch order
    ensures multiset(Txns(ledger)) == multiset(AccountTxns(grouped, acc))
    ensures SortedBy(Txns(ledger), TxnKey, Ascending)
    ensures forall k :: WithKey(Txns(ledger), TxnKey, k) == WithKey(AccountTxns(grouped, acc), TxnKey, k)
    // every running balance is the opening balance plus the amounts so far
    ensures forall k :: 0 <= k < |ledger| ==>
      ledger[k].runningBalance == acc.openingBalance + Total(Txns(ledger)[..k + 1])
    // the display list: the same annotated rows, newest first, ties kept in ledger order
    ensures multiset(desc) == multiset(ledger)
    ensures SortedBy(desc, RowKey, Descending)
    ensures forall k :: WithKey(desc, RowKey, k) == WithKey(ledger, RowKey, k)
    // when no two rows tie, the display list is the ledger back to front
    ensures DistinctKeys(ledger, RowKey) ==> desc == Reversed(ledger)
    // the headline
    ensures acc.name in balances ==> headline == balances[acc.name]
    ensures acc.name !in balances ==> headline == acc.openingBalance + Total(AccountTxns(grouped, acc))
    // the window: a prefix of the display list, at most 25 rows
    ensures |shown| == if |desc| < RowsToShow then |desc| else RowsToShow
    ensures shown == desc[..|shown|]
  {
    var txns := AccountTxns(grouped, acc);
    var asc := SortBy(txns, TxnKey, Ascending);
    ledger := AccumulateRunning(acc.openingBalance, asc);
    assert Txns(ledger) == asc;
    desc := SortBy(ledger, RowKey, Descending);
    if DistinctKeys(ledger, RowKey) {
      assert SortedBy(ledger, RowKey, Ascending) by {
        forall i, j | 0 <= i < j < |ledger|
          ensures KeyCompare(RowKey(ledger[i]), RowKey(ledger[j]), Ascending) <= 0
        {
          assert Txns(ledger)[i] == ledger[i].txn && Txns(ledger)[j] == ledger[j].txn;
        }
      }
      OppositeSortReverses(ledger, RowKey);
    }
    headline := HeadlineBalance(balances, acc, ledger);
    if acc.name !in balances {
      HeadlineFallback(balances, acc, asc, ledger);
      TotalPermutation(asc, txns);
    }
    shown := desc[..if |desc| < RowsToShow then |desc| else RowsToShow];
  }
}
