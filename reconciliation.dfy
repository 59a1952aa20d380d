/**
 * Balance reconciliation: blocks become transactions, one per block with a
 * readable leading date. The running balance is checked against each stated
 * amount, and the amount is replaced by the balance movement when the two
 * disagree by more than a cent. Amounts are whole cents.
 */
module Reconciliation {
  import opened Wrappers
  import opened Text
  import opened Patterns
  import opened Rules
  import opened Amounts
  import opened Lines
  import opened Classification
  import opened Errors

  datatype Kind = CreditKind | DebitKind | BalanceKind

  /** One output row; `amount`, `balance` and `calculatedBalance` are in cents. */
  datatype Transaction = Transaction(
    date: string,
    description: string,
    amount: int,
    balance: int,
    calculatedBalance: int,
    kind: Kind,
    balanceDiffError: string)

  /** The loop's state: the balance carried forward and the rows so far. */
  datatype Ledger = Ledger(previousBalance: Option<int>, transactions: seq<Transaction>)

  /** The row's `type`, from the sign of its final amount. */
  function KindOf(amount: int): (k: Kind)
    ensures k == CreditKind <==> amount > 0
    ensures k == DebitKind <==> amount < 0
  {
    if amount > 0 then CreditKind else if amount < 0 then DebitKind else BalanceKind
  }

  /** The credit if there is one, else the debit negated, else zero. */
  function StatedAmount(debit: Option<int>, credit: Option<int>): int {
    if credit.Some? then credit.value else if debit.Some? then -debit.value else 0
  }

  /** The stated balance, else the balance carried forward, else zero. */
  function StatedBalance(balance: Option<int>, previous: Option<int>): int {
    if balance.Some? then balance.value else if previous.Some? then previous.value else 0
  }

  /** `f"Expected {calc_amount:.2f}, got {amount_val:.2f}"` */
  function Mismatch(movement: int, stated: int): string {
    "Expected " + FormatCents(movement) + ", got " + FormatCents(stated)
  }

  /**
   * What a row promises about the balance carried into it: its amount moves
   * that balance to its own to within a cent, an overridden amount is that
   * movement exactly, and its type follows the sign of its amount.
   */
  predicate Follows(previous: Option<int>, t: Transaction) {
    && (previous.Some? ==> Abs(t.balance - previous.value - t.amount) <= 1)
    && (t.balanceDiffError != "" ==> previous.Some? && t.amount == t.balance - previous.value)
    && t.kind == KindOf(t.amount)
    && t.calculatedBalance == t.balance
  }

  /**
   * What a row reconciled after `previous` records for the stated tokens:
   * their date, description and balance, the stated amount whenever it agrees
   * with the balance movement to within a cent, and otherwise a diagnostic
   * naming the amount used and the amount stated.
   */
  predicate Reconciled(t: Transaction, previous: Option<int>, date: string, description: string,
                       debit: Option<int>, credit: Option<int>, balance: Option<int>) {
    var stated := StatedAmount(debit, credit);
    && t.date == date && t.description == description
    && t.balance == StatedBalance(balance, previous)
    && (t.balanceDiffError == "" <==> previous.None? || Abs(t.balance - previous.value - stated) <= 1)
    && (t.balanceDiffError == "" ==> t.amount == stated)
    && (t.balanceDiffError != "" ==> t.balanceDiffError == Mismatch(t.amount, stated))
  }

  /**
   * One row. With a previous balance, an amount off the balance movement by
   * more than a cent is replaced by the movement and the discrepancy recorded.
   */
  function Reconcile(previous: Option<int>, date: string, description: string,
                     debit: Option<int>, credit: Option<int>, balance: Option<int>): (t: Transaction)
    ensures Reconciled(t, previous, date, description, debit, credit, balance)
    ensures Follows(previous, t)
  {
    var stated := StatedAmount(debit, credit);
    var bal := StatedBalance(balance, previous);
    if previous.Some? && Abs(bal - previous.value - stated) > 1 then
      var movement := bal - previous.value;
      Transaction(date, description, movement, bal, bal, KindOf(movement), Mismatch(movement, stated))
    else
      Transaction(date, description, stated, bal, bal, KindOf(stated), "")
  }

  /**
   * `float(normalize_amount_string(text, ...)) if text else None`: an absent
   * or empty token gives no amount, an unreadable one stops the parse.
   */
  function ParseAmount(text: Option<string>, format: AmountFormat): (r: Result<Option<int>, ParseError>)
    ensures r.Success? && r.value.Some? ==> text.Some? && text.value != ""
    ensures (text.None? || text.value == "") ==> r == Success(None)
    ensures r.Failure? ==> r.error.MalformedAmount?
    ensures text.Some? && text.value != "" ==>
              var n := NormalizeAmount(text.value, format.thousandsSeparator, format.decimalSeparator,
                                       format.negativeTrailing == "Y");
              && (r.Success? <==> ParseCents(n).Some?)
              && (r.Success? ==> r.value == ParseCents(n))
              && (r.Failure? ==> r.error == MalformedAmount(n))
  {
    if text.None? || text.value == "" then Success(None)
    else
      var normalized := NormalizeAmount(text.value, format.thousandsSeparator, format.decimalSeparator,
                                        format.negativeTrailing == "Y");
      match ParseCents(normalized)
      case None => Failure(MalformedAmount(normalized))
      case Some(c) => Success(Some(c))
  }

  /**
   * An amount rendered with two decimals reads back as itself under any
   * format with '.' as its decimal separator and a thousands separator that
   * a rendered amount does not contain.
   */
  lemma ParseAmountRoundTrip(c: int, format: AmountFormat)
    requires format.decimalSeparator == '.'
    requires !IsDigit(format.thousandsSeparator) && format.thousandsSeparator != '-' && format.thousandsSeparator != '.'
    ensures ParseAmount(Some(FormatCents(c)), format) == Success(Some(c))
  {
    NormalizeFormatted(c, format.thousandsSeparator, format.negativeTrailing == "Y");
    ParseFormatCents(c);
  }

  /** Under the ABSA format every rendered amount reads back as itself. */
  lemma AbsaAmountRoundTrip(c: int)
    ensures ParseAmount(Some(FormatCents(c)), AbsaChequeAccountStatement.amountFormat) == Success(Some(c))
  {
    ParseAmountRoundTrip(c, AbsaChequeAccountStatement.amountFormat);
  }

  /** `is_date` under the ruleset's formats. */
  function DateTest(rules: Ruleset): string -> bool {
    (t: string) => IsDate(t, rules.dateFormat.formats)
  }

  /** The three amounts of a block, converted in the order debit, credit, balance. */
  function BlockAmounts(f: Fields, format: AmountFormat): (r: Result<(Option<int>, Option<int>, Option<int>), ParseError>)
    ensures r.Failure? ==> r.error.MalformedAmount?
    ensures var debit := ParseAmount(f.debitText, format);
            var credit := ParseAmount(f.creditText, format);
            var balance := ParseAmount(f.balanceText, format);
            && (r.Success? <==> debit.Success? && credit.Success? && balance.Success?)
            && (r.Success? ==> r.value == (debit.value, credit.value, balance.value))
            && (debit.Failure? ==> r == Failure(debit.error))
            && (debit.Success? && credit.Failure? ==> r == Failure(credit.error))
            && (debit.Success? && credit.Success? && balance.Failure? ==> r == Failure(balance.error))
  {
    match ParseAmount(f.debitText, format)
    case Failure(e) => Failure(e)
    case Success(debit) =>
      match ParseAmount(f.creditText, format)
      case Failure(e) => Failure(e)
      case Success(credit) =>
        match ParseAmount(f.balanceText, format)
        case Failure(e) => Failure(e)
        case Success(balance) => Success((debit, credit, balance))
  }

  /**
   * The row a block yields after `previous`: none without a readable leading
   * date, otherwise the reconciled row, or the first unreadable amount.
   */
  function RowOf(previous: Option<int>, block: seq<Line>, rules: Ruleset): (r: Result<Option<Transaction>, ParseError>)
    requires block != []
    ensures HeaderDate(block[0].text, rules.dateFormat.formats).None? ==> r == Success(None)
    ensures r.Success? && r.value.Some? ==> Follows(previous, r.value.value)
    ensures r.Failure? ==> r.error.MalformedAmount?
    ensures var header := HeaderDate(block[0].text, rules.dateFormat.formats);
            var f := Classify(block, rules.columnZones, DateTest(rules));
            var a := BlockAmounts(f, rules.amountFormat);
            header.Some? ==>
              && (r.Success? <==> a.Success?)
              && (r.Failure? ==> r == Failure(a.error))
              && (r.Success? ==> r.value.Some?)
              && (r.Success? ==> Reconciled(r.value.value, previous, IsoDate(header.value), DescriptionText(f),
                                            a.value.0, a.value.1, a.value.2))
  {
    match HeaderDate(block[0].text, rules.dateFormat.formats)
    case None => Success(None)
    case Some(d) =>
      var f := Classify(block, rules.columnZones, DateTest(rules));
      match BlockAmounts(f, rules.amountFormat)
      case Failure(e) => Failure(e)
      case Success(amounts) =>
        Success(Some(Reconcile(previous, IsoDate(d), DescriptionText(f), amounts.0, amounts.1, amounts.2)))
  }

  /** A row joins the ledger and its balance is carried forward. */
  function Append(ledger: Ledger, t: Transaction): Ledger {
    Ledger(Some(t.balance), ledger.transactions + [t])
  }

  /** One block: skipped without a readable leading date, otherwise one more row. */
  function ProcessBlock(ledger: Ledger, block: seq<Line>, rules: Ruleset): Result<Ledger, ParseError>
    requires block != []
  {
    match RowOf(ledger.previousBalance, block, rules)
    case Failure(e) => Failure(e)
    case Success(None) => Success(ledger)
    case Success(Some(t)) => Success(Append(ledger, t))
  }

  /** The reconciliation loop over all blocks, stopping at the first unreadable amount. */
  function ProcessBlocks(blocks: seq<seq<Line>>, rules: Ruleset): Result<Ledger, ParseError>
    requires forall i :: 0 <= i < |blocks| ==> blocks[i] != []
  {
    if blocks == [] then Success(Ledger(None, []))
    else
      match ProcessBlocks(blocks[..|blocks| - 1], rules)
      case Failure(e) => Failure(e)
      case Success(ledger) => ProcessBlock(ledger, blocks[|blocks| - 1], rules)
  }

  /** The body of the handler's loop for one block, with its amount checks. */
  method ReconcileRow(previousBalance: Option<int>, block: seq<Line>, rules: Ruleset)
    returns (r: Result<Option<Transaction>, ParseError>)
    requires block != []
    ensures r == RowOf(previousBalance, block, rules)
  {
    var header := HeaderDate(block[0].text, rules.dateFormat.formats);
    if header.None? {
      return Success(None);
    }
    var date := IsoDate(header.value);
    var format := rules.amountFormat;
    var fields := ClassifyBlock(block, rules.columnZones, DateTest(rules));
    var debitAmount := ParseAmount(fields.debitText, format);
    if debitAmount.Failure? {
      return Failure(debitAmount.error);
    }
    var creditAmount := ParseAmount(fields.creditText, format);
    if creditAmount.Failure? {
      return Failure(creditAmount.error);
    }
    var balanceAmount := ParseAmount(fields.balanceText, format);
    if balanceAmount.Failure? {
      return Failure(balanceAmount.error);
    }
    var description := Strip(Join(fields.descriptionParts));
    assert BlockAmounts(fields, format) == Success((debitAmount.value, creditAmount.value, balanceAmount.value));
    var t := ReconcileAmounts(previousBalance, date, description,
                              debitAmount.value, creditAmount.value, balanceAmount.value);
    return Success(Some(t));
  }

  /** The amount, balance and discrepancy of one row, as the handler's loop computes them. */
  method ReconcileAmounts(previousBalance: Option<int>, date: string, description: string,
                          debitAmount: Option<int>, creditAmount: Option<int>, balanceAmount: Option<int>)
    returns (t: Transaction)
    ensures t == Reconcile(previousBalance, date, description, debitAmount, creditAmount, balanceAmount)
  {
    var amountVal := 0;
    if creditAmount.Some? {
      amountVal := creditAmount.value;
    } else if debitAmount.Some? {
      amountVal := -debitAmount.value;
    }
    var balanceVal := if balanceAmount.Some? then balanceAmount.value
                      else if previousBalance.Some? then previousBalance.value else 0;
    assert amountVal == StatedAmount(debitAmount, creditAmount);
    assert balanceVal == StatedBalance(balanceAmount, previousBalance);
    var balanceDiffError := "";
    if previousBalance.Some? {
      var calcAmount := balanceVal - previousBalance.value;
      assert Abs(calcAmount - amountVal)
          == Abs(StatedBalance(balanceAmount, previousBalance) - previousBalance.value - StatedAmount(debitAmount, creditAmount));
      if Abs(calcAmount - amountVal) > 1 {
        balanceDiffError := Mismatch(calcAmount, amountVal);
        amountVal := calcAmount;
        t := Transaction(date, description, amountVal, balanceVal, balanceVal, KindOf(amountVal), balanceDiffError);
        ReconcileOverride(previousBalance, date, description, debitAmount, creditAmount, balanceAmount);
        return;
      }
    }
    t := Transaction(date, description, amountVal, balanceVal, balanceVal, KindOf(amountVal), balanceDiffError);
    ReconcileKeep(previousBalance, date, description, debitAmount, creditAmount, balanceAmount);
  }

  lemma ReconcileOverride(previous: Option<int>, date: string, description: string,
                          debit: Option<int>, credit: Option<int>, balance: Option<int>)
    requires previous.Some?
    requires Abs(StatedBalance(balance, previous) - previous.value - StatedAmount(debit, credit)) > 1
    ensures var movement := StatedBalance(balance, previous) - previous.value;
            Reconcile(previous, date, description, debit, credit, balance) ==
              Transaction(date, description, movement, StatedBalance(balance, previous), StatedBalance(balance, previous),
                          KindOf(movement), Mismatch(movement, StatedAmount(debit, credit)))
  {
  }

  lemma ReconcileKeep(previous: Option<int>, date: string, description: string,
                      debit: Option<int>, credit: Option<int>, balance: Option<int>)
    requires previous.Some? ==> Abs(StatedBalance(balance, previous) - previous.value - StatedAmount(debit, credit)) <= 1
    ensures var stated := StatedAmount(debit, credit);
            Reconcile(previous, date, description, debit, credit, balance) ==
              Transaction(date, description, stated, StatedBalance(balance, previous), StatedBalance(balance, previous),
                          KindOf(stated), "")
  {
  }

  lemma ProcessBlocksSnoc(blocks: seq<seq<Line>>, i: nat, rules: Ruleset)
    requires i < |blocks|
    requires forall j :: 0 <= j < |blocks| ==> blocks[j] != []
    ensures ProcessBlocks(blocks[..i], rules).Failure? ==>
              ProcessBlocks(blocks[..i + 1], rules) == ProcessBlocks(blocks[..i], rules)
    ensures ProcessBlocks(blocks[..i], rules).Success? ==>
              ProcessBlocks(blocks[..i + 1], rules) == ProcessBlock(ProcessBlocks(blocks[..i], rules).value, blocks[i], rules)
  {
    assert blocks[..i + 1][..i] == blocks[..i];
  }

  /** The first failure is the result of the whole loop. */
  lemma {:induction false} FailureSticks(blocks: seq<seq<Line>>, i: nat, rules: Ruleset)
    requires i <= |blocks|
    requires forall j :: 0 <= j < |blocks| ==> blocks[j] != []
    requires ProcessBlocks(blocks[..i], rules).Failure?
    ensures ProcessBlocks(blocks, rules) == ProcessBlocks(blocks[..i], rules)
    decreases |blocks| - i
  {
    if i < |blocks| {
      ProcessBlocksSnoc(blocks, i, rules);
      FailureSticks(blocks, i + 1, rules);
    } else {
      assert blocks[..i] == blocks;
    }
  }

  /** The reconciliation loop as the handler runs it. */
  method ReconcileBlocks(blocks: seq<seq<Line>>, rules: Ruleset) returns (r: Result<seq<Transaction>, ParseError>)
    requires forall i :: 0 <= i < |blocks| ==> blocks[i] != []
    ensures r.Success? <==> ProcessBlocks(blocks, rules).Success?
    ensures r.Success? ==> r.value == ProcessBlocks(blocks, rules).value.transactions
    ensures r.Failure? ==> r.error == ProcessBlocks(blocks, rules).error
  {
    var previousBalance: Option<int> := None;
    var transactions: seq<Transaction> := [];
    var i := 0;
    while i < |blocks|
      invariant 0 <= i <= |blocks|
      invariant ProcessBlocks(blocks[..i], rules) == Success(Ledger(previousBalance, transactions))
    {
      ProcessBlocksSnoc(blocks, i, rules);
      var row := ReconcileRow(previousBalance, blocks[i], rules);
      if row.Failure? {
        FailureSticks(blocks, i + 1, rules);
        return Failure(row.error);
      }
      if row.value.Some? {
        var t := row.value.value;
        previousBalance := Some(t.balance);
        transactions := transactions + [t];
      }
      i := i + 1;
    }
    assert blocks[..i] == blocks;
    return Success(transactions);
  }

  // ---------------------------------------------------------------------------
  // What reconciliation guarantees
  // ---------------------------------------------------------------------------

  /** The balance carried out of a run of rows. */
  function Carried(txs: seq<Transaction>): Option<int> {
    if txs == [] then None else Some(txs[|txs| - 1].balance)
  }

  /** Every row follows the balance carried out of the rows before it. */
  predicate Chained(txs: seq<Transaction>) {
    txs == [] || (Chained(txs[..|txs| - 1]) && Follows(Carried(txs[..|txs| - 1]), txs[|txs| - 1]))
  }

  /** The loop's invariant: the rows are chained and their last balance is carried forward. */
  predicate Consistent(ledger: Ledger) {
    ledger.previousBalance == Carried(ledger.transactions) && Chained(ledger.transactions)
  }

  /** Row k follows row k - 1, and the first row follows nothing. */
  lemma {:induction false} ChainedAt(txs: seq<Transaction>, k: nat)
    requires Chained(txs) && k < |txs|
    ensures Follows(if k == 0 then None else Some(txs[k - 1].balance), txs[k])
  {
    var prefix := txs[..|txs| - 1];
    if k < |txs| - 1 {
      ChainedAt(prefix, k);
      assert prefix[k] == txs[k];
      if k > 0 {
        assert prefix[k - 1] == txs[k - 1];
      }
    }
  }

  lemma ProcessBlockConsistent(ledger: Ledger, block: seq<Line>, rules: Ruleset)
    requires block != [] && Consistent(ledger)
    ensures ProcessBlock(ledger, block, rules).Success? ==> Consistent(ProcessBlock(ledger, block, rules).value)
  {
    var row := RowOf(ledger.previousBalance, block, rules);
    if row.Success? && row.value.Some? {
      AppendConsistent(ledger, row.value.value);
    }
  }

  lemma AppendConsistent(ledger: Ledger, t: Transaction)
    requires Consistent(ledger) && Follows(ledger.previousBalance, t)
    ensures Consistent(Append(ledger, t))
  {
    var txs' := ledger.transactions + [t];
    assert txs'[..|txs'| - 1] == ledger.transactions;
    assert txs'[|txs'| - 1] == t;
  }

  /** After any run of blocks the rows are chained and the last balance is carried. */
  lemma {:induction false} RunningBalance(blocks: seq<seq<Line>>, rules: Ruleset)
    requires forall i :: 0 <= i < |blocks| ==> blocks[i] != []
    ensures ProcessBlocks(blocks, rules).Success? ==> Consistent(ProcessBlocks(blocks, rules).value)
  {
    if blocks != [] {
      var prefix := blocks[..|blocks| - 1];
      RunningBalance(prefix, rules);
      if ProcessBlocks(prefix, rules).Success? {
        ProcessBlockConsistent(ProcessBlocks(prefix, rules).value, blocks[|blocks| - 1], rules);
      }
    }
  }

  /**
   * In chained rows (the rows of every parse, by RunningBalance), each row
   * after the first moves the balance of the row before it by its amount to
   * within a cent, an overridden amount is that movement exactly, the first
   * row carries no discrepancy, and every row's type follows its sign.
   */
  lemma RowsReconciled(txs: seq<Transaction>, k: nat)
    requires Chained(txs) && k < |txs|
    ensures k == 0 ==> txs[k].balanceDiffError == ""
    ensures k > 0 ==> Abs(txs[k].balance - txs[k - 1].balance - txs[k].amount) <= 1
    ensures k > 0 && txs[k].balanceDiffError != "" ==> txs[k].amount == txs[k].balance - txs[k - 1].balance
    ensures txs[k].kind == CreditKind <==> txs[k].amount > 0
    ensures txs[k].kind == DebitKind <==> txs[k].amount < 0
  {
    ChainedAt(txs, k);
  }

  /** The loop only ever stops at an amount that does not convert. */
  lemma {:induction false} OnlyAmountsFail(blocks: seq<seq<Line>>, rules: Ruleset)
    requires forall i :: 0 <= i < |blocks| ==> blocks[i] != []
    ensures ProcessBlocks(blocks, rules).Failure? ==> ProcessBlocks(blocks, rules).error.MalformedAmount?
  {
    if blocks != [] {
      OnlyAmountsFail(blocks[..|blocks| - 1], rules);
    }
  }

  /** A block without a readable leading date leaves the ledger as it was. */
  lemma SkippedBlock(ledger: Ledger, block: seq<Line>, rules: Ruleset)
    requires block != []
    requires HeaderDate(block[0].text, rules.dateFormat.formats).None?
    ensures ProcessBlock(ledger, block, rules) == Success(ledger)
  {
  }

  /** A dated block appends exactly one row, dated in ISO form, and keeps the earlier rows. */
  lemma DatedBlock(ledger: Ledger, block: seq<Line>, rules: Ruleset, d: Date)
    requires block != []
    requires HeaderDate(block[0].text, rules.dateFormat.formats) == Some(d)
    ensures var r := ProcessBlock(ledger, block, rules);
            r.Success? ==>
              && |r.value.transactions| == |ledger.transactions| + 1
              && r.value.transactions[..|ledger.transactions|] == ledger.transactions
              && r.value.transactions[|ledger.transactions|].date == IsoDate(d)
  {
    var r := ProcessBlock(ledger, block, rules);
    if r.Success? {
      assert r.value.transactions[..|ledger.transactions|] == ledger.transactions;
    }
  }

  /** Each block adds at most one row. */
  lemma {:induction false} RowsAppended(blocks: seq<seq<Line>>, rules: Ruleset)
    requires forall i :: 0 <= i < |blocks| ==> blocks[i] != []
    ensures ProcessBlocks(blocks, rules).Success? ==> |ProcessBlocks(blocks, rules).value.transactions| <= |blocks|
  {
    if blocks != [] {
      RowsAppended(blocks[..|blocks| - 1], rules);
    }
  }

  /** The number of blocks whose first line starts with a date in the ruleset's format. */
  function DatedBlocks(blocks: seq<seq<Line>>, rules: Ruleset): (n: nat)
    requires forall i :: 0 <= i < |blocks| ==> blocks[i] != []
    ensures n <= |blocks|
  {
    if blocks == [] then 0
    else
      DatedBlocks(blocks[..|blocks| - 1], rules)
      + (if HeaderDate(blocks[|blocks| - 1][0].text, rules.dateFormat.formats).Some? then 1 else 0)
  }

  /** A completed loop has produced exactly one row per dated block. */
  lemma {:induction false} OneRowPerDatedBlock(blocks: seq<seq<Line>>, rules: Ruleset)
    requires forall i :: 0 <= i < |blocks| ==> blocks[i] != []
    ensures ProcessBlocks(blocks, rules).Success? ==>
              |ProcessBlocks(blocks, rules).value.transactions| == DatedBlocks(blocks, rules)
  {
    if blocks != [] && ProcessBlocks(blocks, rules).Success? {
      var prefix, last := blocks[..|blocks| - 1], blocks[|blocks| - 1];
      OneRowPerDatedBlock(prefix, rules);
      var ledger := ProcessBlocks(prefix, rules).value;
      assert ProcessBlocks(blocks, rules) == ProcessBlock(ledger, last, rules);
      assert DatedBlocks(blocks, rules) == DatedBlocks(prefix, rules)
        + (if HeaderDate(last[0].text, rules.dateFormat.formats).Some? then 1 else 0);
      RowsOfBlock(ledger, last, rules);
    }
  }

  /** One step of the loop adds a row for a dated block and none for any other. */
  lemma RowsOfBlock(ledger: Ledger, block: seq<Line>, rules: Ruleset)
    requires block != []
    ensures var r := ProcessBlock(ledger, block, rules);
            var dated := HeaderDate(block[0].text, rules.dateFormat.formats).Some?;
            r.Success? ==> |r.value.transactions| == |ledger.transactions| + (if dated then 1 else 0)
  {
    match HeaderDate(block[0].text, rules.dateFormat.formats)
    case None => SkippedBlock(ledger, block, rules);
    case Some(d) => DatedBlock(ledger, block, rules, d);
  }

  /** The first unreadable amount token, in the order debit, credit, balance, stops the parse. */
  lemma AmountFailureStops(ledger: Ledger, block: seq<Line>, rules: Ruleset)
    requires block != []
    requires HeaderDate(block[0].text, rules.dateFormat.formats).Some?
    ensures var f := Classify(block, rules.columnZones, DateTest(rules));
            ParseAmount(f.debitText, rules.amountFormat).Failure? ==>
              ProcessBlock(ledger, block, rules) == Failure(ParseAmount(f.debitText, rules.amountFormat).error)
  {
  }

  /**
   * A rendered discrepancy names the movement first and the stated amount
   * second, and both read back as the amounts they render.
   */
  lemma MismatchReadsBack(movement: int, stated: int)
    ensures var m := Mismatch(movement, stated);
            var k := 9 + |FormatCents(movement)|;
            && |m| == k + 6 + |FormatCents(stated)|
            && m[..9] == "Expected "
            && ParseCents(m[9..k]) == Some(movement)
            && m[k..k + 6] == ", got "
            && ParseCents(m[k + 6..]) == Some(stated)
  {
    var e, g := "Expected ", ", got ";
    MessageParts(Mismatch(movement, stated), e, g, movement, stated);
  }

  lemma MessageParts(m: string, e: string, g: string, movement: int, stated: int)
    requires m == e + FormatCents(movement) + g + FormatCents(stated)
    requires |e| == 9 && |g| == 6
    ensures var k := 9 + |FormatCents(movement)|;
            && |m| == k + 6 + |FormatCents(stated)|
            && m[..9] == e
            && ParseCents(m[9..k]) == Some(movement)
            && m[k..k + 6] == g
            && ParseCents(m[k + 6..]) == Some(stated)
  {
    SliceParts(e, FormatCents(movement), g, FormatCents(stated));
    ParseFormatCents(movement);
    ParseFormatCents(stated);
  }

  lemma SliceParts(e: string, a: string, g: string, b: string)
    ensures var m := e + a + g + b;
            && m[..|e|] == e
            && m[|e|..|e| + |a|] == a
            && m[|e| + |a|..|e| + |a| + |g|] == g
            && m[|e| + |a| + |g|..] == b
  {
  }
}
