/**
  The computations of the analysis page over one user's records (the list
  `get_financial_data(username)` returns): the net balance, the two expense
  tables and the two alerts. What the page displays is returned as values.
*/
module Analysis {
  import opened Records
  import Currency

  /** The suggested credit-card limit: 1000 reais, in centavos. */
  const CREDIT_LIMIT: int := 100000

  predicate IsIncome(r: Record) {
    r.kind == INCOME
  }

  predicate IsExpense(r: Record) {
    r.kind == EXPENSE
  }

  predicate IsCreditCardExpense(r: Record) {
    r.kind == EXPENSE && r.paymentMethod == CREDIT_CARD
  }

  predicate IsNonEssentialExpense(r: Record) {
    r.necessity == NON_ESSENTIAL && r.kind == EXPENSE
  }

  /** The total amount of the rows that keep selects; 0 for no rows. */
  function SumWhere(data: seq<Record>, keep: Record -> bool): (total: int)
    ensures (forall i :: 0 <= i < |data| ==> !keep(data[i])) ==> total == 0
    ensures (forall i :: 0 <= i < |data| ==> data[i].amount >= 0) ==> total >= 0
  {
    if data == [] then 0
    else (if keep(data[0]) then data[0].amount else 0) + SumWhere(data[1..], keep)
  }

  // ---------------------------------------------------------------------------
  // calculate_total_balance

  /** calculate_total_balance: total income minus total expense. */
  function TotalBalance(data: seq<Record>): (balance: int)
    ensures data == [] ==> balance == 0
  {
    SumWhere(data, IsIncome) - SumWhere(data, IsExpense)
  }

  /** What one row adds to the balance: its amount for income, minus it for expense, nothing otherwise. */
  function Contribution(r: Record): int {
    if r.kind == INCOME then r.amount
    else if r.kind == EXPENSE then -r.amount
    else 0
  }

  /** Reference definition of the balance: the sum of the rows' contributions. */
  function Net(data: seq<Record>): int {
    if data == [] then 0 else Contribution(data[0]) + Net(data[1..])
  }

  /** The balance is the sum of per-row contributions; rows of any other type count for nothing. */
  lemma {:induction false} BalanceIsNet(data: seq<Record>)
    ensures TotalBalance(data) == Net(data)
  {
    if data != [] {
      BalanceIsNet(data[1..]);
    }
  }

  lemma {:induction false} NetAppend(a: seq<Record>, b: seq<Record>)
    ensures Net(a + b) == Net(a) + Net(b)
  {
    if a == [] {
      assert a + b == b;
    } else {
      assert (a + b)[0] == a[0] && (a + b)[1..] == a[1..] + b;
      NetAppend(a[1..], b);
    }
  }

  /** Adding a row moves the balance by exactly that row's contribution. */
  lemma BalanceAfterInsert(data: seq<Record>, r: Record)
    ensures TotalBalance(data + [r]) == TotalBalance(data) + Contribution(r)
  {
    BalanceIsNet(data + [r]);
    BalanceIsNet(data);
    NetAppend(data, [r]);
    assert Net([r]) == Contribution(r);
  }

  // ---------------------------------------------------------------------------
  // display_major_expenses

  /** The expense rows, in their original order. */
  function Expenses(data: seq<Record>): (expenses: seq<Record>)
    ensures |expenses| <= |data|
    ensures forall r :: r in expenses <==> r in data && r.kind == EXPENSE
  {
    Filter(data, IsExpense)
  }

  /** The non-essential expense rows, in their original order. */
  function NonEssentialExpenses(data: seq<Record>): (nonEssential: seq<Record>)
    ensures |nonEssential| <= |data|
    ensures forall r :: r in nonEssential <==> r in data && r.kind == EXPENSE && r.necessity == NON_ESSENTIAL
  {
    Filter(data, IsNonEssentialExpense)
  }

  /** Amounts never increase along s. Nothing is said about the order of equal amounts. */
  ghost predicate SortedDesc(s: seq<Record>) {
    forall i, j :: 0 <= i < j < |s| ==> s[i].amount >= s[j].amount
  }

  /** Inserts r into a descending sequence before the first amount it is at least. */
  function InsertDesc(r: Record, s: seq<Record>): (t: seq<Record>)
    requires SortedDesc(s)
    ensures SortedDesc(t)
    ensures multiset(t) == multiset(s) + multiset{r}
  {
    if s == [] then [r]
    else if r.amount >= s[0].amount then [r] + s
    else
      var rest := InsertDesc(r, s[1..]);
      assert s == [s[0]] + s[1..];
      BelowHead(r, s, rest);
      [s[0]] + rest
  }

  lemma BelowHead(r: Record, s: seq<Record>, rest: seq<Record>)
    requires s != [] && SortedDesc(s) && SortedDesc(rest)
    requires r.amount < s[0].amount
    requires multiset(rest) == multiset(s[1..]) + multiset{r}
    ensures SortedDesc([s[0]] + rest)
  {
    forall j | 0 <= j < |rest| ensures s[0].amount >= rest[j].amount {
      assert rest[j] in multiset(rest);
      if rest[j] != r {
        assert rest[j] in multiset(s[1..]);
        var k :| 0 <= k < |s[1..]| && s[1..][k] == rest[j];
        assert s[k + 1] == rest[j];
      }
    }
    var t := [s[0]] + rest;
    forall i, j | 0 <= i < j < |t| ensures t[i].amount >= t[j].amount {
      assert t[j] == rest[j - 1];
      if i > 0 {
        assert t[i] == rest[i - 1];
      }
    }
  }

  /** A sort by amount, largest first. */
  function SortDesc(s: seq<Record>): (t: seq<Record>)
    ensures SortedDesc(t)
    ensures multiset(t) == multiset(s)
  {
    if s == [] then []
    else
      assert s == [s[0]] + s[1..];
      InsertDesc(s[0], SortDesc(s[1..]))
  }

  /** The expense rows sorted by amount, largest first; equal amounts in no fixed order. */
  function MajorExpenses(data: seq<Record>): (major: seq<Record>)
    ensures SortedDesc(major)
    ensures multiset(major) == multiset(Expenses(data))
  {
    SortDesc(Expenses(data))
  }

  /** What the analysis page shows for the expenses: a warning when there is no data, else the two tables. */
  datatype ExpenseReport =
    | NoData
    | Tables(major: seq<Record>, nonEssential: seq<Record>)

  /** display_major_expenses. */
  function DisplayMajorExpenses(data: seq<Record>): (report: ExpenseReport)
    ensures report.NoData? <==> data == []
    ensures report.Tables? ==>
      && SortedDesc(report.major)
      && multiset(report.major) == multiset(Expenses(data))
      && report.nonEssential == NonEssentialExpenses(data)
  {
    if data == [] then NoData
    else Tables(MajorExpenses(data), NonEssentialExpenses(data))
  }

  /** The amounts of s, in order. */
  function Amounts(s: seq<Record>): seq<int> {
    seq(|s|, i requires 0 <= i < |s| => s[i].amount)
  }

  /** Removing one element keeps a sequence sorted. */
  lemma RemoveAtSorted(s: seq<Record>, k: nat)
    requires k < |s| && SortedDesc(s)
    ensures SortedDesc(s[..k] + s[k + 1..])
  {
    var t := s[..k] + s[k + 1..];
    forall i, j | 0 <= i < j < |t| ensures t[i].amount >= t[j].amount {
      var i' := if i < k then i else i + 1;
      var j' := if j < k then j else j + 1;
      assert t[i] == s[i'] && t[j] == s[j'];
    }
  }

  /** The first element of a descending sequence has the largest amount. */
  lemma HeadIsLargest(s: seq<Record>, x: Record)
    requires SortedDesc(s) && x in multiset(s)
    ensures s[0].amount >= x.amount
  {
    var k :| 0 <= k < |s| && s[k] == x;
    assert k == 0 || s[0].amount >= s[k].amount;
  }

  /** When b[k] has the largest amount, taking it out front does not change the amounts. */
  lemma AmountsAfterRemoval(b: seq<Record>, k: nat)
    requires SortedDesc(b) && k < |b| && b[k].amount == b[0].amount
    ensures Amounts(b) == [b[0].amount] + Amounts(b[..k] + b[k + 1..])
  {
    var b' := b[..k] + b[k + 1..];
    var l, r := Amounts(b), [b[0].amount] + Amounts(b');
    assert |l| == |r|;
    forall i | 0 <= i < |b| ensures l[i] == r[i] {
      if 0 < i <= k {
        assert b'[i - 1] == b[i - 1];
        assert b[0].amount >= b[i - 1].amount >= b[k].amount;
        assert b[0].amount >= b[i].amount >= b[k].amount;
      } else if i > k {
        assert b'[i - 1] == b[i];
      }
    }
  }

  /** Taking the same row out of two permutations leaves two permutations. */
  lemma SameRestAfterRemoval(a: seq<Record>, b: seq<Record>, k: nat)
    requires a != [] && k < |b| && b[k] == a[0]
    requires multiset(a) == multiset(b)
    ensures multiset(a[1..]) == multiset(b[..k] + b[k + 1..])
  {
    var rest := b[..k] + b[k + 1..];
    assert a == [a[0]] + a[1..];
    assert b == b[..k] + [b[k]] + b[k + 1..];
    assert multiset(a) == multiset{a[0]} + multiset(a[1..]);
    assert multiset(b) == multiset(b[..k]) + multiset{b[k]} + multiset(b[k + 1..]);
    assert multiset(rest) == multiset(b[..k]) + multiset(b[k + 1..]);
    assert multiset(b) == multiset{a[0]} + multiset(rest);
    assert multiset(a[1..]) == multiset(a) - multiset{a[0]};
    assert multiset(rest) == multiset(b) - multiset{a[0]};
  }

  /**
    Two descending orders of the same rows agree on every amount: a sort by
    amount fixes everything except the order among equal amounts.
  */
  lemma {:induction false} SortedSameAmounts(a: seq<Record>, b: seq<Record>)
    requires SortedDesc(a) && SortedDesc(b)
    requires multiset(a) == multiset(b)
    ensures Amounts(a) == Amounts(b)
    decreases |a|
  {
    if a == [] {
      assert |b| == |multiset(b)| == 0;
    } else {
      var x := a[0];
      assert x in multiset(b);
      var k :| 0 <= k < |b| && b[k] == x;
      HeadIsLargest(b, x);
      HeadIsLargest(a, b[0]);
      var b' := b[..k] + b[k + 1..];
      SameRestAfterRemoval(a, b, k);
      RemoveAtSorted(b, k);
      SortedSameAmounts(a[1..], b');
      AmountsAfterRemoval(b, k);
      AmountsAfterRemoval(a, 0);
    }
  }

  /** Any other descending order of the expense rows differs from the model only among equal amounts. */
  lemma MajorExpensesUpToTies(data: seq<Record>, other: seq<Record>)
    requires SortedDesc(other) && multiset(other) == multiset(Expenses(data))
    ensures Amounts(other) == Amounts(MajorExpenses(data))
  {
    SortedSameAmounts(other, MajorExpenses(data));
  }

  /** The non-essential table keeps the original order: it filters each part of a concatenation in turn. */
  lemma NonEssentialInOrder(a: seq<Record>, b: seq<Record>)
    ensures NonEssentialExpenses(a + b) == NonEssentialExpenses(a) + NonEssentialExpenses(b)
  {
    FilterAppend(a, b, IsNonEssentialExpense);
  }

  /** Every non-essential expense also appears, as often, in the major-expenses table. */
  lemma NonEssentialWithinMajor(data: seq<Record>)
    ensures multiset(NonEssentialExpenses(data)) <= multiset(MajorExpenses(data))
  {
    FilterMultiset(data, IsNonEssentialExpense);
    FilterMultiset(data, IsExpense);
  }

  // ---------------------------------------------------------------------------
  // alert_overdraft_and_credit

  /** The alerts the page raises, with the figures their messages show. */
  datatype Alert =
    | Overdraft(balance: int)
    | HighCreditCard(spent: int, limit: int)

  /** Total amount of expenses paid by credit card. */
  function CreditCardSpend(data: seq<Record>): (spent: int)
    ensures (forall i :: 0 <= i < |data| ==> !IsCreditCardExpense(data[i])) ==> spent == 0
  {
    SumWhere(data, IsCreditCardExpense)
  }

  /** alert_overdraft_and_credit: the overdraft check, then (when there is data) the credit-card check. */
  function AlertOverdraftAndCredit(data: seq<Record>): (alerts: seq<Alert>)
    ensures |alerts| == (if TotalBalance(data) < 0 then 1 else 0) + (if CreditCardSpend(data) > CREDIT_LIMIT then 1 else 0)
    ensures TotalBalance(data) < 0 ==> alerts[0] == Overdraft(TotalBalance(data))
    ensures forall a :: a in alerts ==> a == Overdraft(TotalBalance(data)) || a == HighCreditCard(CreditCardSpend(data), CREDIT_LIMIT)
  {
    var balance := TotalBalance(data);
    var overdraft := if balance < 0 then [Overdraft(balance)] else [];
    if data == [] then overdraft
    else
      var spent := CreditCardSpend(data);
      overdraft + (if spent > CREDIT_LIMIT then [HighCreditCard(spent, CREDIT_LIMIT)] else [])
  }

  /** The overdraft alert is raised exactly when the balance is below zero. */
  lemma OverdraftAlertIff(data: seq<Record>)
    ensures Overdraft(TotalBalance(data)) in AlertOverdraftAndCredit(data) <==> TotalBalance(data) < 0
  {
  }

  /** The credit-card alert is raised exactly when credit-card expenses exceed the limit; with no rows it is not. */
  lemma CreditAlertIff(data: seq<Record>)
    ensures HighCreditCard(CreditCardSpend(data), CREDIT_LIMIT) in AlertOverdraftAndCredit(data)
        <==> CreditCardSpend(data) > CREDIT_LIMIT
  {
  }

  lemma LabelsDistinct()
    ensures INCOME != EXPENSE
  {
    assert INCOME[0] != EXPENSE[0];
  }

  /** Both alerts can be raised together: the two checks are independent. */
  lemma BothAlertsCanFire()
    ensures exists data :: |AlertOverdraftAndCredit(data)| == 2
  {
    var card := Record(1, "2024-01-10", "", 150000, EXPENSE, CREDIT_CARD, 1, NON_ESSENTIAL);
    var data := [card];
    LabelsDistinct();
    assert data[1..] == [];
    assert !IsIncome(card) && IsExpense(card) && IsCreditCardExpense(card);
    assert SumWhere(data, IsIncome) == 0;
    assert SumWhere(data, IsExpense) == 150000;
    assert SumWhere(data, IsCreditCardExpense) == 150000;
    assert |AlertOverdraftAndCredit(data)| == 2;
  }

  /**
    Income 2000, a cash expense of 500 and a credit-card expense of 1200:
    the balance is 300, no overdraft, and the credit-card alert shows 1200.
  */
  lemma CreditScenario()
    ensures var data := [
        Record(1, "2024-01-01", "Salario", 200000, INCOME, "Transferência", 1, "Essencial"),
        Record(2, "2024-01-02", "Mercado", 50000, EXPENSE, "Dinheiro", 1, "Essencial"),
        Record(3, "2024-01-03", "Viagem", 120000, EXPENSE, CREDIT_CARD, 3, NON_ESSENTIAL)];
      && TotalBalance(data) == 30000
      && AlertOverdraftAndCredit(data) == [HighCreditCard(120000, CREDIT_LIMIT)]
  {
    var data := [
        Record(1, "2024-01-01", "Salario", 200000, INCOME, "Transferência", 1, "Essencial"),
        Record(2, "2024-01-02", "Mercado", 50000, EXPENSE, "Dinheiro", 1, "Essencial"),
        Record(3, "2024-01-03", "Viagem", 120000, EXPENSE, CREDIT_CARD, 3, NON_ESSENTIAL)];
    LabelsDistinct();
    assert data[1..][1..][1..] == [];
    assert IsIncome(data[0]) && !IsExpense(data[0]) && !IsCreditCardExpense(data[0]);
    assert !IsIncome(data[1]) && IsExpense(data[1]) && !IsCreditCardExpense(data[1]) by {
      assert "Dinheiro"[0] != CREDIT_CARD[0];
    }
    assert !IsIncome(data[2]) && IsExpense(data[2]) && IsCreditCardExpense(data[2]);
    var tail1, tail2 := data[1..], data[1..][1..];
    assert SumWhere(tail2, IsIncome) == 0 && SumWhere(tail2, IsExpense) == 120000;
    assert SumWhere(tail1, IsIncome) == 0 && SumWhere(tail1, IsExpense) == 170000;
    assert SumWhere(data, IsIncome) == 200000;
    assert SumWhere(data, IsExpense) == 170000;
    assert SumWhere(tail2, IsCreditCardExpense) == 120000;
    assert SumWhere(tail1, IsCreditCardExpense) == 120000;
    assert CreditCardSpend(data) == 120000;
  }

  /** With non-negative amounts, credit-card spending is part of the expense total. */
  lemma {:induction false} CreditSpendWithinExpenses(data: seq<Record>)
    requires forall i :: 0 <= i < |data| ==> data[i].amount >= 0
    ensures 0 <= CreditCardSpend(data) <= SumWhere(data, IsExpense)
  {
    if data != [] {
      CreditSpendWithinExpenses(data[1..]);
    }
  }

  /** The fixed parts of the alert texts. */
  const OVERDRAFT_TEXT: string := "Alerta: Você está no cheque especial! Juros de 8% ao mês serão aplicados. Saldo: "
  const CREDIT_TEXT: string := "Atenção: Seus gastos no cartão de crédito estão altos ("
  const LIMIT_TEXT: string := "). Limite sugerido: "

  /** The text of an alert, with amounts rendered by format_currency. */
  function AlertMessage(a: Alert): (message: string)
    ensures a.Overdraft? ==>
      var amount := Currency.FormatCurrency(a.balance);
      |amount| <= |message| && message[|message| - |amount|..] == amount
    ensures a.HighCreditCard? ==>
      var amount := Currency.FormatCurrency(a.spent);
      var tail := LIMIT_TEXT + Currency.FormatCurrency(a.limit) + ".";
      && |amount| + |tail| <= |message|
      && message[|message| - |tail|..] == tail
      && message[|message| - |tail| - |amount|..|message| - |tail|] == amount
  {
    match a
    case Overdraft(balance) =>
      var amount := Currency.FormatCurrency(balance);
      EndsWith(OVERDRAFT_TEXT, amount, "");
      assert OVERDRAFT_TEXT + amount + "" == OVERDRAFT_TEXT + amount;
      OVERDRAFT_TEXT + amount
    case HighCreditCard(spent, limit) =>
      var amount := Currency.FormatCurrency(spent);
      var tail := LIMIT_TEXT + Currency.FormatCurrency(limit) + ".";
      EndsWith(CREDIT_TEXT, amount, tail);
      CREDIT_TEXT + amount + tail
  }

  /** In a text made of three parts, the last two parts sit at the end, in order. */
  lemma EndsWith(head: string, middle: string, tail: string)
    ensures var t := head + middle + tail;
      && |middle| + |tail| <= |t|
      && t[|t| - |tail|..] == tail
      && t[|t| - |tail| - |middle|..|t| - |tail|] == middle
  {
  }
}
