/**
 * Block segmentation: the document's lines cut into transaction blocks.
 * A line whose first word is a date opens a new block; other lines join the
 * open block, except that lines starting left of the date column and not
 * opening with a date are dropped. The date test `isDate` is a parameter;
 * the parser passes `is_date` under the ruleset's formats.
 */
module Segmentation {
  import opened Text
  import opened Lines

  /** The left edge of a line's first word, or 0 for a line without words. */
  function XStart(l: Line): int {
    if l.positions == [] then 0 else l.positions[0]
  }

  /** The line's first whitespace-separated word is a date under `isDate`. */
  predicate IsDateLine(l: Line, isDate: string -> bool) {
    isDate(FirstWord(l.text))
  }

  /** The line survives the left-margin filter. */
  predicate Kept(l: Line, isDate: string -> bool, threshold: int) {
    !(XStart(l) < threshold && !IsDateLine(l, isDate))
  }

  /** The kept lines, in order. */
  function KeptLines(lines: seq<Line>, isDate: string -> bool, threshold: int): seq<Line> {
    if lines == [] then []
    else
      var l := lines[|lines| - 1];
      KeptLines(lines[..|lines| - 1], isDate, threshold) + (if Kept(l, isDate, threshold) then [l] else [])
  }

  /** The closed blocks and the block still being filled. */
  datatype Segments = Segments(blocks: seq<seq<Line>>, current: seq<Line>)

  /** One iteration of the segmentation loop. */
  function Step(st: Segments, l: Line, isDate: string -> bool, threshold: int): Segments {
    if !Kept(l, isDate, threshold) then st
    else if IsDateLine(l, isDate) then
      if st.current != [] then Segments(st.blocks + [st.current], [l]) else Segments(st.blocks, [l])
    else Segments(st.blocks, st.current + [l])
  }

  /** The loop state after the given lines. */
  function Scan(lines: seq<Line>, isDate: string -> bool, threshold: int): Segments {
    if lines == [] then Segments([], [])
    else Step(Scan(lines[..|lines| - 1], isDate, threshold), lines[|lines| - 1], isDate, threshold)
  }

  /** The loop state with the open block closed, if it holds anything. */
  function Close(st: Segments): seq<seq<Line>> {
    if st.current != [] then st.blocks + [st.current] else st.blocks
  }

  /** The blocks of a document. */
  function Segment(lines: seq<Line>, isDate: string -> bool, threshold: int): seq<seq<Line>> {
    Close(Scan(lines, isDate, threshold))
  }

  /** The segmentation loop over all lines of the document. */
  method MakeBlocks(lines: seq<Line>, isDate: string -> bool, threshold: int) returns (blocks: seq<seq<Line>>)
    ensures blocks == Segment(lines, isDate, threshold)
  {
    blocks := [];
    var current: seq<Line> := [];
    var i := 0;
    while i < |lines|
      invariant 0 <= i <= |lines|
      invariant Segments(blocks, current) == Scan(lines[..i], isDate, threshold)
    {
      var line := lines[i];
      ghost var next := Step(Segments(blocks, current), line, isDate, threshold);
      ScanSnoc(lines, i, isDate, threshold);
      var xStart := if line.positions != [] then line.positions[0] else 0;
      var firstWord := FirstWord(line.text);
      assert xStart == XStart(line) && isDate(firstWord) == IsDateLine(line, isDate);
      if xStart < threshold && !isDate(firstWord) {
        i := i + 1;
        continue;
      }
      if isDate(firstWord) {
        if current != [] {
          blocks := blocks + [current];
          current := [];
        }
      }
      current := current + [line];
      assert Segments(blocks, current) == next;
      i := i + 1;
    }
    assert lines[..i] == lines;
    if current != [] {
      blocks := blocks + [current];
    }
  }

  lemma ScanSnoc(lines: seq<Line>, i: nat, isDate: string -> bool, threshold: int)
    requires i < |lines|
    ensures Scan(lines[..i + 1], isDate, threshold) == Step(Scan(lines[..i], isDate, threshold), lines[i], isDate, threshold)
  {
    assert lines[..i + 1][..i] == lines[..i];
  }

  // ---------------------------------------------------------------------------
  // What segmentation guarantees
  // ---------------------------------------------------------------------------

  function Flatten(blocks: seq<seq<Line>>): seq<Line> {
    if blocks == [] then [] else Flatten(blocks[..|blocks| - 1]) + blocks[|blocks| - 1]
  }

  /** Every closed block opens with a date line, except possibly the first. */
  predicate DateStarts(blocks: seq<seq<Line>>, isDate: string -> bool) {
    && (forall i :: 0 <= i < |blocks| ==> blocks[i] != [])
    && (forall i :: 0 < i < |blocks| ==> IsDateLine(blocks[i][0], isDate))
  }

  /** No date line sits anywhere in a block but at its start. */
  predicate NoInnerDate(block: seq<Line>, isDate: string -> bool) {
    forall k :: 0 < k < |block| ==> !IsDateLine(block[k], isDate)
  }

  predicate NoInnerDates(blocks: seq<seq<Line>>, isDate: string -> bool) {
    forall i :: 0 <= i < |blocks| ==> NoInnerDate(blocks[i], isDate)
  }

  /** What holds of the loop state after every prefix of the lines. */
  predicate ScanInvariant(st: Segments, kept: seq<Line>, isDate: string -> bool) {
    && Flatten(st.blocks) + st.current == kept
    && DateStarts(st.blocks, isDate)
    && (st.blocks != [] ==> st.current != [] && IsDateLine(st.current[0], isDate))
    && NoInnerDates(st.blocks, isDate)
    && NoInnerDate(st.current, isDate)
  }

  lemma FlattenSnoc(blocks: seq<seq<Line>>, b: seq<Line>)
    ensures Flatten(blocks + [b]) == Flatten(blocks) + b
  {
    assert (blocks + [b])[..|blocks|] == blocks;
  }

  /** Closing a non-empty open block keeps the closed blocks well shaped. */
  lemma CloseKeepsShape(blocks: seq<seq<Line>>, current: seq<Line>, isDate: string -> bool)
    requires DateStarts(blocks, isDate) && NoInnerDates(blocks, isDate)
    requires current != [] && NoInnerDate(current, isDate)
    requires blocks != [] ==> IsDateLine(current[0], isDate)
    ensures DateStarts(blocks + [current], isDate) && NoInnerDates(blocks + [current], isDate)
  {
    CloseKeepsStarts(blocks, current, isDate);
    CloseKeepsInner(blocks, current, isDate);
  }

  lemma CloseKeepsStarts(blocks: seq<seq<Line>>, current: seq<Line>, isDate: string -> bool)
    requires DateStarts(blocks, isDate)
    requires current != []
    requires blocks != [] ==> IsDateLine(current[0], isDate)
    ensures DateStarts(blocks + [current], isDate)
  {
    var blocks' := blocks + [current];
    forall i | 0 <= i < |blocks'|
      ensures blocks'[i] != [] && (i > 0 ==> IsDateLine(blocks'[i][0], isDate))
    {
      if i < |blocks| {
        assert blocks'[i] == blocks[i];
      }
    }
  }

  lemma CloseKeepsInner(blocks: seq<seq<Line>>, current: seq<Line>, isDate: string -> bool)
    requires NoInnerDates(blocks, isDate)
    requires NoInnerDate(current, isDate)
    ensures NoInnerDates(blocks + [current], isDate)
  {
    var blocks' := blocks + [current];
    forall i | 0 <= i < |blocks'|
      ensures NoInnerDate(blocks'[i], isDate)
    {
      if i < |blocks| {
        assert blocks'[i] == blocks[i];
      }
    }
  }

  lemma StepOnDate(st: Segments, kept: seq<Line>, l: Line, isDate: string -> bool)
    requires ScanInvariant(st, kept, isDate)
    requires IsDateLine(l, isDate)
    ensures ScanInvariant(
      if st.current != [] then Segments(st.blocks + [st.current], [l]) else Segments(st.blocks, [l]),
      kept + [l], isDate)
  {
    if st.current != [] {
      FlattenSnoc(st.blocks, st.current);
      CloseKeepsShape(st.blocks, st.current, isDate);
    }
  }

  lemma StepOnOther(st: Segments, kept: seq<Line>, l: Line, isDate: string -> bool)
    requires ScanInvariant(st, kept, isDate)
    requires !IsDateLine(l, isDate)
    ensures ScanInvariant(Segments(st.blocks, st.current + [l]), kept + [l], isDate)
  {
    var current' := st.current + [l];
    forall k | 0 < k < |current'|
      ensures !IsDateLine(current'[k], isDate)
    {
      if k < |st.current| {
        assert current'[k] == st.current[k];
      }
    }
    assert current'[0] == if st.current == [] then l else st.current[0];
    assert Flatten(st.blocks) + current' == (Flatten(st.blocks) + st.current) + [l];
  }

  lemma StepKeepsInvariant(st: Segments, kept: seq<Line>, l: Line, isDate: string -> bool, threshold: int)
    requires ScanInvariant(st, kept, isDate)
    ensures ScanInvariant(Step(st, l, isDate, threshold), kept + (if Kept(l, isDate, threshold) then [l] else []), isDate)
  {
    if !Kept(l, isDate, threshold) {
      assert kept + [] == kept;
    } else if IsDateLine(l, isDate) {
      StepOnDate(st, kept, l, isDate);
    } else {
      StepOnOther(st, kept, l, isDate);
    }
  }

  lemma {:induction false} ScanInvariantHolds(lines: seq<Line>, isDate: string -> bool, threshold: int)
    ensures ScanInvariant(Scan(lines, isDate, threshold), KeptLines(lines, isDate, threshold), isDate)
  {
    if lines != [] {
      var prefix := lines[..|lines| - 1];
      ScanInvariantHolds(prefix, isDate, threshold);
      StepKeepsInvariant(Scan(prefix, isDate, threshold), KeptLines(prefix, isDate, threshold),
        lines[|lines| - 1], isDate, threshold);
    }
  }

  /** The blocks, read in order, are exactly the kept lines. */
  lemma SegmentFlattens(lines: seq<Line>, isDate: string -> bool, threshold: int)
    ensures Flatten(Segment(lines, isDate, threshold)) == KeptLines(lines, isDate, threshold)
  {
    var st := Scan(lines, isDate, threshold);
    ScanInvariantHolds(lines, isDate, threshold);
    if st.current != [] {
      FlattenSnoc(st.blocks, st.current);
    } else {
      assert Flatten(st.blocks) + [] == Flatten(st.blocks);
    }
  }

  /**
   * No block is empty; every block after the first opens with a date line;
   * no date line appears inside a block except at its start.
   */
  lemma SegmentShape(lines: seq<Line>, isDate: string -> bool, threshold: int)
    ensures var blocks := Segment(lines, isDate, threshold);
            && (forall i :: 0 <= i < |blocks| ==> blocks[i] != [])
            && (forall i :: 0 < i < |blocks| ==> IsDateLine(blocks[i][0], isDate))
            && (forall i, k :: 0 <= i < |blocks| && 0 < k < |blocks[i]| ==> !IsDateLine(blocks[i][k], isDate))
  {
    var st := Scan(lines, isDate, threshold);
    ScanInvariantHolds(lines, isDate, threshold);
    if st.current != [] {
      CloseKeepsShape(st.blocks, st.current, isDate);
    }
    var blocks := Segment(lines, isDate, threshold);
    assert DateStarts(blocks, isDate) && NoInnerDates(blocks, isDate);
    assert forall i, k :: 0 <= i < |blocks| && 0 < k < |blocks[i]| ==> !IsDateLine(blocks[i][k], isDate) by {
      forall i, k | 0 <= i < |blocks| && 0 < k < |blocks[i]|
        ensures !IsDateLine(blocks[i][k], isDate)
      {
        assert NoInnerDate(blocks[i], isDate);
      }
    }
  }

  /** Without a single date line, every kept line lands in one block. */
  lemma NoDatesOneBlock(lines: seq<Line>, isDate: string -> bool, threshold: int)
    requires forall i :: 0 <= i < |lines| ==> !IsDateLine(lines[i], isDate)
    ensures var kept := KeptLines(lines, isDate, threshold);
            Segment(lines, isDate, threshold) == (if kept == [] then [] else [kept])
  {
    NoDatesScan(lines, isDate, threshold);
  }

  lemma {:induction false} NoDatesScan(lines: seq<Line>, isDate: string -> bool, threshold: int)
    requires forall i :: 0 <= i < |lines| ==> !IsDateLine(lines[i], isDate)
    ensures Scan(lines, isDate, threshold) == Segments([], KeptLines(lines, isDate, threshold))
  {
    if lines != [] {
      NoDatesScan(lines[..|lines| - 1], isDate, threshold);
    }
  }
}
