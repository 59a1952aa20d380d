/**
 * Column classification: every token of a block is routed by its left edge
 * into the description, debit, credit or balance column. Description
 * tokens accumulate in reading order; each amount column keeps only the
 * last token routed to it.
 */
module Classification {
  import opened Wrappers
  import opened Text
  import opened Rules
  import opened Lines

  datatype Column = Description | Debit | Credit | Balance

  predicate InZone(x: int, z: Zone) {
    z.lo <= x < z.hi
  }

  /**
   * The column a token at `x` belongs to, tried in the fixed order
   * description, debit, credit, balance; the balance column has no right edge.
   */
  function Route(x: int, zones: ColumnZones): (r: Option<Column>)
    ensures r == Some(Description) <==> InZone(x, zones.description)
    ensures r == None ==> !InZone(x, zones.description) && !InZone(x, zones.debit) && !InZone(x, zones.credit) && x < zones.balance.lo
  {
    if InZone(x, zones.description) then Some(Description)
    else if InZone(x, zones.debit) then Some(Debit)
    else if InZone(x, zones.credit) then Some(Credit)
    else if x >= zones.balance.lo then Some(Balance)
    else None
  }

  /** What classification collects from a block. */
  datatype Fields = Fields(
    descriptionParts: seq<string>,
    debitText: Option<string>,
    creditText: Option<string>,
    balanceText: Option<string>)

  const NoFields: Fields := Fields([], None, None, None)

  /** One token routed: description tokens are appended, amount tokens overwrite. */
  function Add(f: Fields, e: Entry, zones: ColumnZones): Fields {
    match Route(e.x, zones)
    case Some(Description) => f.(descriptionParts := f.descriptionParts + [e.text])
    case Some(Debit) => f.(debitText := Some(e.text))
    case Some(Credit) => f.(creditText := Some(e.text))
    case Some(Balance) => f.(balanceText := Some(e.text))
    case None => f
  }

  /** The fields after routing the tokens in order. */
  function ClassifyAll(tokens: seq<Entry>, zones: ColumnZones): Fields {
    if tokens == [] then NoFields
    else Add(ClassifyAll(tokens[..|tokens| - 1], zones), tokens[|tokens| - 1], zones)
  }

  /** The tokens of a run of lines in reading order: line by line, then left to right. */
  function Flat(block: seq<Line>): seq<Entry> {
    if block == [] then [] else Flat(block[..|block| - 1]) + block[|block| - 1].xmap
  }

  /** The first token of the first line is a date and is left out. */
  predicate SkipsFirst(block: seq<Line>, isDate: string -> bool) {
    block != [] && block[0].xmap != [] && isDate(block[0].xmap[0].text)
  }

  function DropSkipped(block: seq<Line>, isDate: string -> bool, tokens: seq<Entry>): seq<Entry> {
    if SkipsFirst(block, isDate) && tokens != [] then tokens[1..] else tokens
  }

  /** The tokens classification looks at. */
  function BlockTokens(block: seq<Line>, isDate: string -> bool): seq<Entry> {
    DropSkipped(block, isDate, Flat(block))
  }

  /** The fields of a block. */
  function Classify(block: seq<Line>, zones: ColumnZones, isDate: string -> bool): Fields {
    ClassifyAll(BlockTokens(block, isDate), zones)
  }

  /** `" ".join(description_parts).strip()` */
  function DescriptionText(f: Fields): string {
    Strip(Join(f.descriptionParts))
  }

  lemma FlatSnoc(block: seq<Line>, l: Line)
    ensures Flat(block + [l]) == Flat(block) + l.xmap
  {
    assert (block + [l])[..|block|] == block;
  }

  lemma DropSkippedSnoc(block: seq<Line>, isDate: string -> bool, tokens: seq<Entry>, e: Entry)
    requires tokens == [] ==> (SkipsFirst(block, isDate) ==> e == block[0].xmap[0])
    ensures DropSkipped(block, isDate, tokens + [e])
         == if tokens == [] && SkipsFirst(block, isDate) then [] else DropSkipped(block, isDate, tokens) + [e]
  {
    if SkipsFirst(block, isDate) && tokens != [] {
      assert (tokens + [e])[1..] == tokens[1..] + [e];
    }
  }

  /**
   * The outer loop over the block's lines: the description parts and the
   * three amount texts are carried from line to line.
   */
  method ClassifyBlock(block: seq<Line>, zones: ColumnZones, isDate: string -> bool) returns (fields: Fields)
    ensures fields == Classify(block, zones, isDate)
  {
    fields := NoFields;
    ghost var seen: seq<Entry> := [];
    var i := 0;
    while i < |block|
      invariant 0 <= i <= |block|
      invariant seen == DropSkipped(block, isDate, Flat(block[..i]))
      invariant fields == ClassifyAll(seen, zones)
    {
      fields, seen := ClassifyLine(block, i, zones, isDate, fields, seen);
      i := i + 1;
    }
    assert block[..i] == block;
  }

  /**
   * The inner loop over line `i`'s `(x, word)` pairs: skip a leading date
   * token, append description words, overwrite the amount texts.
   */
  method ClassifyLine(block: seq<Line>, i: int, zones: ColumnZones, isDate: string -> bool, fields0: Fields, ghost seen0: seq<Entry>)
    returns (fields: Fields, ghost seen: seq<Entry>)
    requires 0 <= i < |block|
    requires seen0 == DropSkipped(block, isDate, Flat(block[..i]))
    requires fields0 == ClassifyAll(seen0, zones)
    ensures seen == DropSkipped(block, isDate, Flat(block[..i + 1]))
    ensures fields == ClassifyAll(seen, zones)
  {
    var line := block[i];
    fields, seen := fields0, seen0;
    assert line.xmap[..0] == [];
    assert Flat(block[..i]) + line.xmap[..0] == Flat(block[..i]);
    var j := 0;
    while j < |line.xmap|
      invariant 0 <= j <= |line.xmap|
      invariant seen == DropSkipped(block, isDate, Flat(block[..i]) + line.xmap[..j])
      invariant fields == ClassifyAll(seen, zones)
    {
      var x := line.xmap[j].x;
      var word := line.xmap[j].text;
      TokenStep(block, isDate, i, j, seen);
      if i == 0 && j == 0 && isDate(word) {
        j := j + 1;
        continue;
      }
      ClassifyAllSnoc(seen, line.xmap[j], zones);
      seen := seen + [line.xmap[j]];
      fields := PlaceToken(fields, x, word, zones);
      j := j + 1;
    }
    assert line.xmap[..j] == line.xmap;
    FlatSnoc(block[..i], line);
    assert block[..i + 1] == block[..i] + [line];
  }

  /** One `(x, word)` pair: a description word is appended, an amount text overwrites the last one. */
  method PlaceToken(fields0: Fields, x: int, word: string, zones: ColumnZones) returns (fields: Fields)
    ensures fields == Add(fields0, Entry(x, word), zones)
  {
    fields := fields0;
    if zones.description.lo <= x < zones.description.hi {
      fields := fields.(descriptionParts := fields.descriptionParts + [word]);
    } else if zones.debit.lo <= x < zones.debit.hi {
      fields := fields.(debitText := Some(word));
    } else if zones.credit.lo <= x < zones.credit.hi {
      fields := fields.(creditText := Some(word));
    } else if x >= zones.balance.lo {
      fields := fields.(balanceText := Some(word));
    }
  }

  /** Reading the token at (i, j) extends the tokens seen, unless it is the skipped leading date. */
  lemma TokenStep(block: seq<Line>, isDate: string -> bool, i: int, j: int, seen: seq<Entry>)
    requires 0 <= i < |block| && 0 <= j < |block[i].xmap|
    requires seen == DropSkipped(block, isDate, Flat(block[..i]) + block[i].xmap[..j])
    ensures var after := DropSkipped(block, isDate, Flat(block[..i]) + block[i].xmap[..j + 1]);
            if i == 0 && j == 0 && isDate(block[i].xmap[j].text) then after == seen
            else after == seen + [block[i].xmap[j]]
  {
    var line := block[i];
    var before := Flat(block[..i]) + line.xmap[..j];
    var after := Flat(block[..i]) + line.xmap[..j + 1];
    assert line.xmap[..j + 1] == line.xmap[..j] + [line.xmap[j]];
    assert before + [line.xmap[j]] == after;
    if before == [] && SkipsFirst(block, isDate) {
      FlatPrefixEmpty(block, i);
    }
    DropSkippedSnoc(block, isDate, before, line.xmap[j]);
    if i == 0 && j == 0 {
      assert block[..0] == [];
      assert before == [];
    }
  }

  lemma ClassifyAllSnoc(tokens: seq<Entry>, e: Entry, zones: ColumnZones)
    ensures ClassifyAll(tokens + [e], zones) == Add(ClassifyAll(tokens, zones), e, zones)
  {
    assert (tokens + [e])[..|tokens|] == tokens;
  }

  /** Before anything is read, the next token is the first of the first line, if that line has one. */
  lemma FlatPrefixEmpty(block: seq<Line>, i: int)
    requires 0 <= i < |block| && block[0].xmap != []
    requires Flat(block[..i]) == []
    ensures i == 0
  {
    if i > 0 {
      FlatHead(block[..i]);
    }
  }

  lemma {:induction false} FlatHead(block: seq<Line>)
    requires block != [] && block[0].xmap != []
    ensures Flat(block) != [] && Flat(block)[0] == block[0].xmap[0]
  {
    if |block| > 1 {
      FlatHead(block[..|block| - 1]);
    } else {
      assert block[..0] == [];
    }
  }

  // ---------------------------------------------------------------------------
  // What classification guarantees
  // ---------------------------------------------------------------------------

  /** With ordered zones, each token's column is decided by its own zone alone. */
  lemma RouteExact(x: int, zones: ColumnZones)
    requires ZonesOrdered(zones)
    ensures Route(x, zones) == Some(Description) <==> InZone(x, zones.description)
    ensures Route(x, zones) == Some(Debit) <==> InZone(x, zones.debit)
    ensures Route(x, zones) == Some(Credit) <==> InZone(x, zones.credit)
    ensures Route(x, zones) == Some(Balance) <==> x >= zones.balance.lo
    ensures Route(x, zones) == None <==>
              (|| x < zones.description.lo
               || (zones.description.hi <= x < zones.debit.lo)
               || (zones.debit.hi <= x < zones.credit.lo)
               || (zones.credit.hi <= x < zones.balance.lo))
  {
  }

  /** The description words, in reading order. */
  function DescriptionWords(tokens: seq<Entry>, zones: ColumnZones): seq<string> {
    if tokens == [] then []
    else
      var e := tokens[|tokens| - 1];
      DescriptionWords(tokens[..|tokens| - 1], zones) + (if Route(e.x, zones) == Some(Description) then [e.text] else [])
  }

  /** `w` is the text of the last token routed to `c`. */
  predicate IsLastIn(tokens: seq<Entry>, zones: ColumnZones, c: Column, w: string) {
    exists k :: 0 <= k < |tokens| && Route(tokens[k].x, zones) == Some(c) && tokens[k].text == w
      && forall k' :: k < k' < |tokens| ==> Route(tokens[k'].x, zones) != Some(c)
  }

  predicate NoneIn(tokens: seq<Entry>, zones: ColumnZones, c: Column) {
    forall k :: 0 <= k < |tokens| ==> Route(tokens[k].x, zones) != Some(c)
  }

  function AmountOf(f: Fields, c: Column): Option<string> {
    match c
    case Description => None
    case Debit => f.debitText
    case Credit => f.creditText
    case Balance => f.balanceText
  }

  /** The description is every description token, in order. */
  lemma {:induction false} DescriptionInOrder(tokens: seq<Entry>, zones: ColumnZones)
    ensures ClassifyAll(tokens, zones).descriptionParts == DescriptionWords(tokens, zones)
  {
    if tokens != [] {
      DescriptionInOrder(tokens[..|tokens| - 1], zones);
    }
  }

  /**
   * An amount column holds the last token routed to it, and nothing when no
   * token was: later tokens overwrite earlier ones.
   */
  lemma {:induction false} LastTokenWins(tokens: seq<Entry>, zones: ColumnZones, c: Column)
    requires c != Description
    ensures AmountOf(ClassifyAll(tokens, zones), c).None? <==> NoneIn(tokens, zones, c)
    ensures AmountOf(ClassifyAll(tokens, zones), c).Some? ==>
              IsLastIn(tokens, zones, c, AmountOf(ClassifyAll(tokens, zones), c).value)
  {
    if tokens != [] {
      var prefix := tokens[..|tokens| - 1];
      var e := tokens[|tokens| - 1];
      var n := |tokens| - 1;
      LastTokenWins(prefix, zones, c);
      var a := AmountOf(ClassifyAll(tokens, zones), c);
      if Route(e.x, zones) == Some(c) {
        assert a == Some(e.text);
        assert IsLastIn(tokens, zones, c, e.text) by {
          assert Route(tokens[n].x, zones) == Some(c) && tokens[n].text == e.text;
        }
      } else {
        assert a == AmountOf(ClassifyAll(prefix, zones), c);
        assert NoneIn(tokens, zones, c) <==> NoneIn(prefix, zones, c) by {
          assert forall k :: 0 <= k < n ==> tokens[k] == prefix[k];
        }
        if a.Some? {
          var k :| 0 <= k < |prefix| && Route(prefix[k].x, zones) == Some(c) && prefix[k].text == a.value
            && forall k' :: k < k' < |prefix| ==> Route(prefix[k'].x, zones) != Some(c);
          assert tokens[k] == prefix[k];
          assert forall k' :: k < k' < |tokens| ==> Route(tokens[k'].x, zones) != Some(c) by {
            forall k' | k < k' < |tokens|
              ensures Route(tokens[k'].x, zones) != Some(c)
            {
              if k' < n {
                assert tokens[k'] == prefix[k'];
              }
            }
          }
        }
      }
    }
  }

  /** When the description tokens are non-blank words, stripping the joined text changes nothing. */
  lemma DescriptionJoined(f: Fields)
    requires AllWords(f.descriptionParts)
    ensures DescriptionText(f) == Join(f.descriptionParts)
  {
    StripJoin(f.descriptionParts);
  }
}
