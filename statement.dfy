/**
 * The `/parse` handler end to end: detect the statement type from the page
 * text, look up its ruleset, rebuild the lines of every page, cut them into
 * blocks and reconcile the blocks into transactions.
 */
module Statement {
  import opened Wrappers
  import opened Text
  import opened Patterns
  import opened Rules
  import opened Lines
  import opened Segmentation
  import opened Reconciliation
  import opened Errors

  /** A page: its plain text (for detection) and its words with positions (for parsing). */
  datatype Page = Page(text: string, words: seq<Word>)

  const DetectedBank: string := "ABSA"
  const DetectedAccountType: string := "Cheque Account Statement"

  /** The page names both the bank and the account type, ignoring case. */
  predicate Mentions(p: Page) {
    Contains(Lower(p.text), "absa") && Contains(Lower(p.text), "cheque account statement")
  }

  /** The bank and account type found on the first page that names both, if any. */
  function Detect(pages: seq<Page>): (r: Option<(string, string)>)
    ensures r.Some? ==> r.value == (DetectedBank, DetectedAccountType)
  {
    if pages == [] then None
    else if Mentions(pages[0]) then Some((DetectedBank, DetectedAccountType))
    else Detect(pages[1..])
  }

  /**
   * `f"{bank.upper()}_{account_type.upper().replace(' ', '_')}"`: the bank,
   * `_`, then the account type with no blank left, all without small letters.
   */
  function ConfigKey(bank: string, accountType: string): (r: string)
    ensures |r| == |bank| + 1 + |accountType| && r[|bank|] == '_'
    ensures forall i :: |bank| < i < |r| ==> r[i] != ' '
    ensures forall i :: 0 <= i < |r| ==> !IsLowerLetter(r[i])
  {
    var u := ReplaceChar(Upper(accountType), ' ', '_');
    var r := Upper(bank) + "_" + u;
    assert forall i :: |bank| < i < |r| ==> r[i] == u[i - |bank| - 1] && r[i] in u;
    r
  }

  /** The lines of every page, page after page. */
  function AllLines(pages: seq<Page>): seq<Line> {
    if pages == [] then [] else AllLines(pages[..|pages| - 1]) + LinesByY(pages[|pages| - 1].words)
  }

  /** Segmentation and reconciliation under one ruleset; no rows at all is an error. */
  function Transactions(lines: seq<Line>, rules: Ruleset): (r: Result<seq<Transaction>, ParseError>)
    ensures r.Success? ==> r.value != []
    ensures var blocks := Segment(lines, DateTest(rules), rules.dateXThreshold);
            && (forall i :: 0 <= i < |blocks| ==> blocks[i] != [])
            && (ProcessBlocks(blocks, rules).Failure? ==> r == Failure(ProcessBlocks(blocks, rules).error))
            && (ProcessBlocks(blocks, rules).Success? ==>
                  && (r.Success? <==> DatedBlocks(blocks, rules) > 0)
                  && (r.Failure? ==> r.error == NoTransactions)
                  && (r.Success? ==> r.value == ProcessBlocks(blocks, rules).value.transactions)
                  && (r.Success? ==> |r.value| == DatedBlocks(blocks, rules)))
  {
    var blocks := Segment(lines, DateTest(rules), rules.dateXThreshold);
    SegmentShape(lines, DateTest(rules), rules.dateXThreshold);
    OneRowPerDatedBlock(blocks, rules);
    match ProcessBlocks(blocks, rules)
    case Failure(e) => Failure(e)
    case Success(ledger) =>
      if ledger.transactions == [] then Failure(NoTransactions) else Success(ledger.transactions)
  }

  /** The handler's outcome for a document: its transactions, or the error it reports. */
  function ParseStatement(pages: seq<Page>): (r: Result<seq<Transaction>, ParseError>)
    ensures r.Success? ==> r.value != []
    ensures Detect(pages).None? ==> r == Failure(UndetectedDocument)
    ensures Detect(pages).Some? ==> r == Transactions(AllLines(pages), AbsaChequeAccountStatement)
  {
    DetectedKeyIsAbsa();
    match Detect(pages)
    case None => Failure(UndetectedDocument)
    case Some(detected) =>
      var key := ConfigKey(detected.0, detected.1);
      match GetRules(key)
      case None => Failure(UnsupportedConfiguration(key))
      case Some(rules) => Transactions(AllLines(pages), rules)
  }

  /** `parse_pdf`: detection, key lookup, line extraction, segmentation and reconciliation. */
  method ParsePdf(pages: seq<Page>) returns (r: Result<seq<Transaction>, ParseError>)
    ensures r == ParseStatement(pages)
  {
    var detectedBank, detectedAccountType := DetectType(pages);
    if detectedBank.None? || detectedAccountType.None? {
      return Failure(UndetectedDocument);
    }
    var key := Upper(detectedBank.value) + "_" + ReplaceChar(Upper(detectedAccountType.value), ' ', '_');
    var found := GetRules(key);
    if found.None? {
      return Failure(UnsupportedConfiguration(key));
    }
    var rules := found.value;
    var allLines := CollectLines(pages);
    var blocks := MakeBlocks(allLines, DateTest(rules), rules.dateXThreshold);
    SegmentShape(allLines, DateTest(rules), rules.dateXThreshold);
    var transactions := ReconcileBlocks(blocks, rules);
    if transactions.Failure? {
      return Failure(transactions.error);
    }
    if transactions.value == [] {
      return Failure(NoTransactions);
    }
    return Success(transactions.value);
  }

  /** The detection loop: stop at the first page that names both the bank and the account type. */
  method DetectType(pages: seq<Page>) returns (detectedBank: Option<string>, detectedAccountType: Option<string>)
    ensures detectedBank.Some? <==> detectedAccountType.Some?
    ensures detectedBank.None? <==> Detect(pages).None?
    ensures detectedBank.Some? ==> Detect(pages) == Some((detectedBank.value, detectedAccountType.value))
  {
    detectedBank, detectedAccountType := None, None;
    var i := 0;
    while i < |pages|
      invariant 0 <= i <= |pages|
      invariant Detect(pages) == Detect(pages[i..])
    {
      assert pages[i..][1..] == pages[i + 1..];
      var text := Lower(pages[i].text);
      if Contains(text, "absa") && Contains(text, "cheque account statement") {
        detectedBank := Some(DetectedBank);
        detectedAccountType := Some(DetectedAccountType);
        return;
      }
      i := i + 1;
    }
  }

  /** The extraction loop: the lines of every page, appended page after page. */
  method CollectLines(pages: seq<Page>) returns (allLines: seq<Line>)
    ensures allLines == AllLines(pages)
  {
    allLines := [];
    var j := 0;
    while j < |pages|
      invariant 0 <= j <= |pages|
      invariant allLines == AllLines(pages[..j])
    {
      assert pages[..j + 1][..j] == pages[..j];
      var lines := ExtractLinesByY(pages[j].words);
      allLines := allLines + lines;
      j := j + 1;
    }
    assert pages[..j] == pages;
  }

  // ---------------------------------------------------------------------------
  // Detection and configuration
  // ---------------------------------------------------------------------------

  /** A document is detected exactly when one of its pages names both the bank and the account type. */
  lemma {:induction false} DetectFinds(pages: seq<Page>)
    ensures Detect(pages).Some? <==> exists i :: 0 <= i < |pages| && Mentions(pages[i])
  {
    if pages != [] {
      DetectFinds(pages[1..]);
      if exists i :: 0 <= i < |pages| && Mentions(pages[i]) {
        var i :| 0 <= i < |pages| && Mentions(pages[i]);
        if i > 0 {
          assert pages[1..][i - 1] == pages[i];
        }
      }
      if exists i :: 0 <= i < |pages[1..]| && Mentions(pages[1..][i]) {
        var i :| 0 <= i < |pages[1..]| && Mentions(pages[1..][i]);
        assert pages[i + 1] == pages[1..][i];
      }
    }
  }

  // The helpers below take their string literals as parameters pinned by
  // `requires`: applied to literal arguments directly, the string functions
  // are unfolded eagerly by the solver and the proofs run out of resources.

  lemma UpperBank(s: string, t: string)
    requires s == DetectedBank && t == "ABSA"
    ensures Upper(s) == t
  {
    assert Upper(s)[..2] == t[..2];
    assert Upper(s)[2..] == t[2..];
    assert Upper(s) == Upper(s)[..2] + Upper(s)[2..];
  }

  lemma UpperAccountType(s: string, t: string)
    requires s == DetectedAccountType && t == "CHEQUE ACCOUNT STATEMENT"
    ensures Upper(s) == t
  {
    forall i | 0 <= i < |s| ensures Upper(s)[i] == t[i] {
    }
  }

  lemma Underscored(t: string, u: string)
    requires t == "CHEQUE ACCOUNT STATEMENT" && u == "CHEQUE_ACCOUNT_STATEMENT"
    ensures ReplaceChar(t, ' ', '_') == u
  {
    forall i | 0 <= i < |t| ensures ReplaceChar(t, ' ', '_')[i] == u[i] {
    }
  }

  lemma KeyJoined(a: string, u: string, key: string)
    requires a == "ABSA" && u == "CHEQUE_ACCOUNT_STATEMENT" && key == AbsaKey
    ensures a + "_" + u == key
  {
    forall i | 0 <= i < |key| ensures (a + "_" + u)[i] == key[i] {
    }
  }

  /** The key built from the detected bank and account type names the ABSA ruleset. */
  lemma DetectedKeyIsAbsa()
    ensures ConfigKey(DetectedBank, DetectedAccountType) == AbsaKey
    ensures GetRules(ConfigKey(DetectedBank, DetectedAccountType)) == Some(AbsaChequeAccountStatement)
  {
    DetectedKeyAt(DetectedBank, DetectedAccountType);
  }

  lemma DetectedKeyAt(bank: string, accountType: string)
    requires bank == DetectedBank && accountType == DetectedAccountType
    ensures ConfigKey(bank, accountType) == AbsaKey
    ensures GetRules(ConfigKey(bank, accountType)) == Some(AbsaChequeAccountStatement)
  {
    var a, t, u := "ABSA", "CHEQUE ACCOUNT STATEMENT", "CHEQUE_ACCOUNT_STATEMENT";
    UpperBank(bank, a);
    UpperAccountType(accountType, t);
    Underscored(t, u);
    KeyJoined(a, u, AbsaKey);
  }

  /**
   * The configuration error is never reported: detection only ever yields the
   * ABSA cheque statement, which has a ruleset, so the Standard Bank ruleset
   * is never selected.
   */
  lemma NeverUnsupported(pages: seq<Page>)
    ensures !ParseStatement(pages).Failure? || !ParseStatement(pages).error.UnsupportedConfiguration?
    ensures Detect(pages).Some? ==>
              ParseStatement(pages) == Transactions(AllLines(pages), AbsaChequeAccountStatement)
  {
    if Detect(pages).Some? {
      DetectedKeyIsAbsa();
      var rules := AbsaChequeAccountStatement;
      var lines := AllLines(pages);
      SegmentShape(lines, DateTest(rules), rules.dateXThreshold);
      OnlyAmountsFail(Segment(lines, DateTest(rules), rules.dateXThreshold), rules);
    }
  }

  /** A document none of whose pages names the statement type is rejected before any parsing. */
  lemma Undetected(pages: seq<Page>)
    requires forall i :: 0 <= i < |pages| ==> !Mentions(pages[i])
    ensures ParseStatement(pages) == Failure(UndetectedDocument)
  {
    DetectFinds(pages);
  }

  /** Every successful parse is a non-empty run of rows that reconcile with one another. */
  lemma ParsedRowsReconcile(pages: seq<Page>)
    ensures ParseStatement(pages).Success? ==>
              ParseStatement(pages).value != [] && Chained(ParseStatement(pages).value)
  {
    if ParseStatement(pages).Success? {
      NeverUnsupported(pages);
      var rules := AbsaChequeAccountStatement;
      var lines := AllLines(pages);
      SegmentShape(lines, DateTest(rules), rules.dateXThreshold);
      RunningBalance(Segment(lines, DateTest(rules), rules.dateXThreshold), rules);
    }
  }

  // ---------------------------------------------------------------------------
  // The second ruleset's date formats
  // ---------------------------------------------------------------------------

  /** Text whose only blank is the plain space, as in a line rebuilt from words. */
  predicate PlainBlanks(s: string) {
    forall i :: 0 <= i < |s| ==> s[i] == ' ' || !IsSpace(s[i])
  }

  /** Words joined with single spaces have no other blank. */
  lemma {:induction false} JoinPlainBlanks(ws: seq<string>)
    requires AllWords(ws)
    ensures PlainBlanks(Join(ws))
  {
    if |ws| > 1 {
      JoinPlainBlanks(ws[1..]);
      var rest := Join(ws[1..]);
      assert Join(ws) == ws[0] + " " + rest;
      forall i | 0 <= i < |Join(ws)|
        ensures Join(ws)[i] == ' ' || !IsSpace(Join(ws)[i])
      {
        if i > |ws[0]| {
          assert Join(ws)[i] == rest[i - |ws[0]| - 1];
        }
      }
    }
  }

  lemma StandardBankSpaced()
    ensures forall k :: 0 <= k < |StandardBankBusinessCurrentAccount.dateFormat.formats| ==>
              HasSpaces(StandardBankBusinessCurrentAccount.dateFormat.formats[k])
  {
    assert HasSpaces(MonthDayYearSpaced) by {
      assert MonthDayYearSpaced[1..][0].Spaces?;
    }
    assert HasSpaces(MonthDaySpaced) by {
      assert MonthDaySpaced[1..][0].Spaces?;
    }
  }

  /**
   * Under the Standard Bank ruleset no word is a date and no line has a
   * header date: its formats separate fields by blanks, but dates are parsed
   * only after every space has been turned into `/`.
   */
  lemma StandardBankNeverDates(line: string)
    requires PlainBlanks(line)
    ensures !IsDate(line, StandardBankBusinessCurrentAccount.dateFormat.formats)
    ensures HeaderDate(line, StandardBankBusinessCurrentAccount.dateFormat.formats).None?
  {
    var formats := StandardBankBusinessCurrentAccount.dateFormat.formats;
    StandardBankSpaced();
    SpacedFormatsNeverDate(line, formats);
    match Match(line, HeaderPattern)
    case None =>
    case Some(f) =>
      var head := line[..|line| - |f.rest|];
      assert PlainBlanks(head) by {
        forall i | 0 <= i < |head| ensures head[i] == ' ' || !IsSpace(head[i]) {
          assert head[i] == line[i];
        }
      }
      PrepareNoSpace(head);
      NoMatchWithoutSpace(Prepare(head), formats[0]);
  }

  /** Hence, under the Standard Bank ruleset, every block is skipped and the parse finds no rows. */
  lemma {:induction false} StandardBankSkipsAll(blocks: seq<seq<Line>>)
    requires forall i :: 0 <= i < |blocks| ==> blocks[i] != [] && PlainBlanks(blocks[i][0].text)
    ensures ProcessBlocks(blocks, StandardBankBusinessCurrentAccount) == Success(Ledger(None, []))
  {
    if blocks != [] {
      var last := blocks[|blocks| - 1];
      StandardBankSkipsAll(blocks[..|blocks| - 1]);
      StandardBankNeverDates(last[0].text);
      SkippedBlock(Ledger(None, []), last, StandardBankBusinessCurrentAccount);
    }
  }
}
