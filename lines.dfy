/**
 * Line reconstruction: the words of a page grouped into lines by their
 * vertical position, each line's words in left-to-right order.
 * Coordinates are integers in tenths of a point, so rounding a position to
 * one decimal is the identity and a word's y key is its `y` field.
 */
module Lines {
  import opened Text

  /** A word as the text extractor reports it: left edge, top edge, text. */
  datatype Word = Word(x: int, y: int, text: string)

  /** One `(x, word)` pair of a line's `xmap`. */
  datatype Entry = Entry(x: int, text: string)

  /** One reconstructed line: its y key, its text, its word positions and its `(x, word)` pairs. */
  datatype Line = Line(y: int, text: string, positions: seq<int>, xmap: seq<Entry>)

  function EntryOf(w: Word): Entry {
    Entry(w.x, w.text)
  }

  // ---------------------------------------------------------------------------
  // Grouping by y key
  // ---------------------------------------------------------------------------

  /** The y keys that occur among the words. */
  function KeySet(ws: seq<Word>): set<int> {
    if ws == [] then {} else KeySet(ws[..|ws| - 1]) + {ws[|ws| - 1].y}
  }

  /** The `(x, word)` pairs appended under key `y`, in the order the words come. */
  function EntriesAt(ws: seq<Word>, y: int): seq<Entry> {
    if ws == [] then []
    else
      var w := ws[|ws| - 1];
      EntriesAt(ws[..|ws| - 1], y) + (if w.y == y then [EntryOf(w)] else [])
  }

  lemma EntriesAtSnoc(ws: seq<Word>, w: Word, y: int)
    ensures EntriesAt(ws + [w], y) == EntriesAt(ws, y) + (if w.y == y then [EntryOf(w)] else [])
    ensures KeySet(ws + [w]) == KeySet(ws) + {w.y}
  {
    assert (ws + [w])[..|ws|] == ws;
  }

  /** A group is non-empty exactly when its key occurs. */
  lemma {:induction false} EntriesAtNonEmpty(ws: seq<Word>, y: int)
    ensures |EntriesAt(ws, y)| > 0 <==> y in KeySet(ws)
  {
    if ws != [] {
      EntriesAtNonEmpty(ws[..|ws| - 1], y);
    }
  }

  /** `groups` is the dictionary of lists the words build: one list per key, in word order. */
  ghost predicate GroupsOf(groups: map<int, seq<Entry>>, ws: seq<Word>) {
    && (forall y :: y in groups <==> y in KeySet(ws))
    && (forall y :: y in groups ==> groups[y] == EntriesAt(ws, y))
  }

  // ---------------------------------------------------------------------------
  // Sorting keys and entries
  // ---------------------------------------------------------------------------

  predicate Increasing(ks: seq<int>) {
    forall i, j :: 0 <= i < j < |ks| ==> ks[i] < ks[j]
  }

  /** `k` placed into an increasing sequence, unless it is already there. */
  function InsertKey(k: int, ks: seq<int>): (r: seq<int>)
    requires Increasing(ks)
    ensures Increasing(r)
    ensures forall j :: j in r <==> j == k || j in ks
  {
    if ks == [] then [k]
    else if k < ks[0] then [k] + ks
    else if k == ks[0] then ks
    else
      var t := InsertKey(k, ks[1..]);
      assert ks == [ks[0]] + ks[1..];
      assert forall j :: j in ks[1..] ==> ks[0] < j;
      IncreasingCons(ks[0], t);
      [ks[0]] + t
  }

  lemma IncreasingCons(k: int, ks: seq<int>)
    requires Increasing(ks) && forall j :: j in ks ==> k < j
    ensures Increasing([k] + ks)
  {
    var r := [k] + ks;
    forall i, j | 0 <= i < j < |r| ensures r[i] < r[j] {
      assert r[j] == ks[j - 1];
      if i > 0 {
        assert r[i] == ks[i - 1];
      } else {
        assert ks[j - 1] in ks;
      }
    }
  }

  /** `sorted(lines.keys())`: the y keys of the words in increasing order. */
  function SortedKeys(ws: seq<Word>): (r: seq<int>)
    ensures Increasing(r)
    ensures forall k :: k in r <==> k in KeySet(ws)
  {
    if ws == [] then [] else InsertKey(ws[|ws| - 1].y, SortedKeys(ws[..|ws| - 1]))
  }

  predicate SortedByX(es: seq<Entry>) {
    forall i, j :: 0 <= i < j < |es| ==> es[i].x <= es[j].x
  }

  /** `e` placed before the first entry whose x is not smaller. */
  function InsertByX(e: Entry, es: seq<Entry>): (r: seq<Entry>)
    requires SortedByX(es)
    ensures SortedByX(r)
    ensures multiset(r) == multiset(es) + multiset{e}
  {
    if es == [] || e.x <= es[0].x then
      SortedByXCons(e, es);
      [e] + es
    else
      var t := InsertByX(e, es[1..]);
      assert es == [es[0]] + es[1..];
      InsertedBound(e, es[1..], t, es[0].x);
      SortedByXCons(es[0], t);
      [es[0]] + t
  }

  /** Every entry of `t`, which holds `e` and the entries of `es`, lies at or right of `bound`. */
  lemma InsertedBound(e: Entry, es: seq<Entry>, t: seq<Entry>, bound: int)
    requires multiset(t) == multiset(es) + multiset{e}
    requires bound <= e.x && forall i :: 0 <= i < |es| ==> bound <= es[i].x
    ensures forall i :: 0 <= i < |t| ==> bound <= t[i].x
  {
    forall i | 0 <= i < |t|
      ensures bound <= t[i].x
    {
      assert t[i] in multiset(t);
      if t[i] != e {
        assert t[i] in multiset(es);
        var k :| 0 <= k < |es| && es[k] == t[i];
      }
    }
  }

  lemma SortedByXCons(e: Entry, es: seq<Entry>)
    requires SortedByX(es) && forall i :: 0 <= i < |es| ==> e.x <= es[i].x
    ensures SortedByX([e] + es)
  {
    var r := [e] + es;
    forall i, j | 0 <= i < j < |r| ensures r[i].x <= r[j].x {
      assert r[j] == es[j - 1];
      if i > 0 {
        assert r[i] == es[i - 1];
      }
    }
  }

  /** `sorted(entries, key=x)`: a stable sort by x. */
  function SortByX(es: seq<Entry>): (r: seq<Entry>)
    ensures SortedByX(r)
    ensures multiset(r) == multiset(es)
  {
    if es == [] then []
    else
      assert es == [es[0]] + es[1..];
      InsertByX(es[0], SortByX(es[1..]))
  }

  /** The entries at horizontal position `x`, in order. */
  function AtX(es: seq<Entry>, x: int): seq<Entry> {
    if es == [] then [] else (if es[0].x == x then [es[0]] else []) + AtX(es[1..], x)
  }

  lemma {:induction false} InsertByXAtX(e: Entry, es: seq<Entry>, x: int)
    requires SortedByX(es)
    ensures AtX(InsertByX(e, es), x) == (if e.x == x then [e] else []) + AtX(es, x)
  {
    if es == [] || e.x <= es[0].x {
      AtXCons(e, es, x);
    } else {
      var t := InsertByX(e, es[1..]);
      var head := if es[0].x == x then [es[0]] else [];
      var mid := if e.x == x then [e] else [];
      var rest := AtX(es[1..], x);
      assert es == [es[0]] + es[1..];
      calc {
        AtX(InsertByX(e, es), x);
        { assert InsertByX(e, es) == [es[0]] + t; }
        AtX([es[0]] + t, x);
        { AtXCons(es[0], t, x); }
        head + AtX(t, x);
        { InsertByXAtX(e, es[1..], x); }
        head + (mid + rest);
        { SwapEmpty(head, mid, rest); }
        mid + (head + rest);
        { AtXCons(es[0], es[1..], x); }
        mid + AtX(es, x);
      }
    }
  }

  lemma SwapEmpty<T>(a: seq<T>, b: seq<T>, rest: seq<T>)
    requires a == [] || b == []
    ensures a + (b + rest) == b + (a + rest)
  {
    if a == [] {
      assert a + (b + rest) == b + rest;
      assert a + rest == rest;
    } else {
      assert b + (a + rest) == a + rest;
      assert b + rest == rest;
    }
  }

  lemma AtXCons(e: Entry, es: seq<Entry>, x: int)
    ensures AtX([e] + es, x) == (if e.x == x then [e] else []) + AtX(es, x)
  {
    assert ([e] + es)[1..] == es;
  }

  /** The sort is stable: entries with equal x keep their relative order. */
  lemma {:induction false} SortByXStable(es: seq<Entry>, x: int)
    ensures AtX(SortByX(es), x) == AtX(es, x)
  {
    if es != [] {
      SortByXStable(es[1..], x);
      InsertByXAtX(es[0], SortByX(es[1..]), x);
    }
  }

  // ---------------------------------------------------------------------------
  // Lines
  // ---------------------------------------------------------------------------

  function Texts(es: seq<Entry>): (r: seq<string>)
    ensures |r| == |es| && forall i :: 0 <= i < |es| ==> r[i] == es[i].text
  {
    seq(|es|, i requires 0 <= i < |es| => es[i].text)
  }

  function Positions(es: seq<Entry>): (r: seq<int>)
    ensures |r| == |es| && forall i :: 0 <= i < |es| ==> r[i] == es[i].x
  {
    seq(|es|, i requires 0 <= i < |es| => es[i].x)
  }

  /** The record built for key `y` from its x-sorted pairs. */
  function MakeLine(y: int, sorted: seq<Entry>): Line {
    Line(y, Join(Texts(sorted)), Positions(sorted), sorted)
  }

  /** The line of key `y`. */
  function LineAt(ws: seq<Word>, y: int): Line {
    MakeLine(y, SortByX(EntriesAt(ws, y)))
  }

  /** `extract_lines_by_y` as a value: one line per y key, in increasing key order. */
  function LinesByY(ws: seq<Word>): seq<Line> {
    if ws == [] then []
    else
      var ks := SortedKeys(ws);
      seq(|ks|, i requires 0 <= i < |ks| => LineAt(ws, ks[i]))
  }

  /** Appending one word to its key's list keeps the dictionary in step with the words. */
  lemma GroupsOfSnoc(groups: map<int, seq<Entry>>, ws: seq<Word>, w: Word)
    requires GroupsOf(groups, ws)
    ensures GroupsOf(groups[w.y := (if w.y in groups then groups[w.y] else []) + [EntryOf(w)]], ws + [w])
  {
    var g := groups[w.y := (if w.y in groups then groups[w.y] else []) + [EntryOf(w)]];
    EntriesAtSnoc(ws, w, w.y);
    if w.y !in KeySet(ws) {
      EntriesAtNonEmpty(ws, w.y);
    }
    forall y | y in g
      ensures g[y] == EntriesAt(ws + [w], y)
    {
      EntriesAtSnoc(ws, w, y);
    }
  }

  /** The first loop of `extract_lines_by_y`: each word's `(x, word)` appended under its y key. */
  method GroupByY(words: seq<Word>) returns (groups: map<int, seq<Entry>>)
    ensures GroupsOf(groups, words)
  {
    groups := map[];
    var i := 0;
    while i < |words|
      invariant 0 <= i <= |words|
      invariant GroupsOf(groups, words[..i])
    {
      var w := words[i];
      var prev := if w.y in groups then groups[w.y] else [];
      GroupsOfSnoc(groups, words[..i], w);
      groups := groups[w.y := prev + [EntryOf(w)]];
      assert words[..i + 1] == words[..i] + [w];
      i := i + 1;
    }
    assert words[..i] == words;
  }

  /**
   * `extract_lines_by_y`: group the words by y key, then emit the keys in
   * increasing order, each with its pairs sorted by x.
   */
  method ExtractLinesByY(words: seq<Word>) returns (lines: seq<Line>)
    ensures lines == LinesByY(words)
  {
    if |words| == 0 {
      return [];
    }
    var groups := GroupByY(words);
    var keys := SortedKeys(words);
    lines := [];
    var j := 0;
    while j < |keys|
      invariant 0 <= j <= |keys|
      invariant lines == LinesByY(words)[..j]
    {
      var y := keys[j];
      GroupOfKey(groups, words, keys, j);
      var sorted := SortByX(groups[y]);
      var line := Line(y, Join(Texts(sorted)), Positions(sorted), sorted);
      lines := lines + [line];
      j := j + 1;
    }
    assert lines == LinesByY(words);
  }

  /** The line the loop builds from the group of the `j`-th key is the `j`-th line. */
  lemma GroupOfKey(groups: map<int, seq<Entry>>, ws: seq<Word>, keys: seq<int>, j: nat)
    requires GroupsOf(groups, ws) && ws != [] && keys == SortedKeys(ws) && j < |keys|
    ensures keys[j] in groups
    ensures var sorted := SortByX(groups[keys[j]]);
            LinesByY(ws)[..j + 1]
              == LinesByY(ws)[..j] + [Line(keys[j], Join(Texts(sorted)), Positions(sorted), sorted)]
  {
    var lines := LinesByY(ws);
    var y := keys[j];
    assert y in KeySet(ws);
    assert groups[y] == EntriesAt(ws, y);
    assert lines[j] == LineAt(ws, y) == MakeLine(y, SortByX(groups[y]));
    TakeOneMore(lines, j);
  }

  lemma TakeOneMore(lines: seq<Line>, j: nat)
    requires j < |lines|
    ensures lines[..j + 1] == lines[..j] + [lines[j]]
  {
  }


  // ---------------------------------------------------------------------------
  // What the reconstruction guarantees
  // ---------------------------------------------------------------------------

  /** Lines come in strictly increasing y order, and a y key has exactly one line. */
  lemma LinesIncreasing(ws: seq<Word>)
    ensures var lines := LinesByY(ws);
            forall i, j :: 0 <= i < j < |lines| ==> lines[i].y < lines[j].y
  {
  }

  /** Each line's pairs are sorted by x, and pairs with equal x keep their word order. */
  lemma LineOrder(ws: seq<Word>, i: int, x: int)
    requires 0 <= i < |LinesByY(ws)|
    ensures var line := LinesByY(ws)[i];
            SortedByX(line.xmap) && AtX(line.xmap, x) == AtX(EntriesAt(ws, line.y), x)
  {
    var line := LinesByY(ws)[i];
    SortByXStable(EntriesAt(ws, line.y), x);
  }

  /** A line holds exactly the words with its y key, and holds at least one. */
  lemma LineContents(ws: seq<Word>, i: int)
    requires 0 <= i < |LinesByY(ws)|
    ensures var line := LinesByY(ws)[i];
            && multiset(line.xmap) == multiset(EntriesAt(ws, line.y))
            && |line.xmap| > 0
            && line.positions == Positions(line.xmap)
  {
    var line := LinesByY(ws)[i];
    EntriesAtNonEmpty(ws, line.y);
    assert |line.xmap| == |multiset(line.xmap)|;
  }

  /** Every word lands in the one line whose key is its y. */
  lemma WordPlaced(ws: seq<Word>, i: int)
    requires 0 <= i < |ws|
    ensures var lines := LinesByY(ws);
            exists j :: 0 <= j < |lines| && lines[j].y == ws[i].y && EntryOf(ws[i]) in lines[j].xmap
  {
    var lines := LinesByY(ws);
    var ks := SortedKeys(ws);
    KeyOfWord(ws, i);
    var j :| 0 <= j < |ks| && ks[j] == ws[i].y;
    EntryInGroup(ws, i);
    assert EntryOf(ws[i]) in multiset(EntriesAt(ws, ws[i].y));
    assert lines[j] == LineAt(ws, ws[i].y);
    assert EntryOf(ws[i]) in multiset(lines[j].xmap);
  }

  lemma {:induction false} KeyOfWord(ws: seq<Word>, i: int)
    requires 0 <= i < |ws|
    ensures ws[i].y in KeySet(ws)
  {
    if i < |ws| - 1 {
      KeyOfWord(ws[..|ws| - 1], i);
    }
  }

  lemma {:induction false} EntryInGroup(ws: seq<Word>, i: int)
    requires 0 <= i < |ws|
    ensures EntryOf(ws[i]) in EntriesAt(ws, ws[i].y)
  {
    if i < |ws| - 1 {
      EntryInGroup(ws[..|ws| - 1], i);
    }
  }

  /** No words, no lines; some words, some lines. */
  lemma NoWordsNoLines(ws: seq<Word>)
    ensures LinesByY(ws) == [] <==> ws == []
  {
    if ws != [] {
      KeyOfWord(ws, 0);
      assert ws[0].y in SortedKeys(ws);
    }
  }

  /** Total number of pairs over a run of lines. */
  function EntryCount(lines: seq<Line>): nat {
    if lines == [] then 0 else EntryCount(lines[..|lines| - 1]) + |lines[|lines| - 1].xmap|
  }

  /** Sum over the keys `ks` of the size of each key's group. */
  function GroupSizes(ws: seq<Word>, ks: seq<int>): nat {
    if ks == [] then 0 else GroupSizes(ws, ks[..|ks| - 1]) + |EntriesAt(ws, ks[|ks| - 1])|
  }

  predicate Distinct(ks: seq<int>) {
    forall i, j :: 0 <= i < j < |ks| ==> ks[i] != ks[j]
  }

  lemma {:induction false} GroupSizesSnoc(ws: seq<Word>, w: Word, ks: seq<int>)
    requires Distinct(ks)
    ensures GroupSizes(ws + [w], ks) == GroupSizes(ws, ks) + (if w.y in ks then 1 else 0)
  {
    if ks != [] {
      var ks' := ks[..|ks| - 1];
      var k := ks[|ks| - 1];
      assert Distinct(ks');
      GroupSizesSnoc(ws, w, ks');
      EntriesAtSnoc(ws, w, k);
      if w.y == k {
        assert w.y !in ks';
      }
      assert w.y in ks <==> w.y in ks' || w.y == k;
    }
  }

  /** Groups over distinct keys covering every word add up to the number of words. */
  lemma {:induction false} GroupSizesTotal(ws: seq<Word>, ks: seq<int>)
    requires Distinct(ks)
    requires forall k :: k in KeySet(ws) ==> k in ks
    ensures GroupSizes(ws, ks) == |ws|
  {
    if ws == [] {
      GroupSizesEmpty(ks);
    } else {
      var ws' := ws[..|ws| - 1];
      var w := ws[|ws| - 1];
      assert ws == ws' + [w];
      EntriesAtSnoc(ws', w, w.y);
      GroupSizesTotal(ws', ks);
      GroupSizesSnoc(ws', w, ks);
    }
  }

  lemma {:induction false} GroupSizesEmpty(ks: seq<int>)
    ensures GroupSizes([], ks) == 0
  {
    if ks != [] {
      GroupSizesEmpty(ks[..|ks| - 1]);
    }
  }

  lemma {:induction false} EntryCountLines(ws: seq<Word>, ks: seq<int>, n: nat)
    requires n <= |ks|
    ensures EntryCount(seq(n, i requires 0 <= i < n => LineAt(ws, ks[i]))) == GroupSizes(ws, ks[..n])
  {
    var lines := seq(n, i requires 0 <= i < n => LineAt(ws, ks[i]));
    if n > 0 {
      var shorter := seq(n - 1, i requires 0 <= i < n - 1 => LineAt(ws, ks[i]));
      assert lines[..n - 1] == shorter;
      assert ks[..n][..n - 1] == ks[..n - 1];
      EntryCountLines(ws, ks, n - 1);
      var last := LineAt(ws, ks[n - 1]);
      assert |last.xmap| == |multiset(last.xmap)| == |EntriesAt(ws, ks[n - 1])|;
    }
  }

  /** The lines hold as many pairs as there were words: no word is lost or repeated. */
  lemma EveryWordOnce(ws: seq<Word>)
    ensures EntryCount(LinesByY(ws)) == |ws|
  {
    if ws != [] {
      var ks := SortedKeys(ws);
      EntryCountLines(ws, ks, |ks|);
      assert ks[..|ks|] == ks;
      GroupSizesTotal(ws, ks);
    }
  }

  /** When every word is a non-blank token, splitting a line's text gives back its words. */
  lemma LineTextWords(ws: seq<Word>, y: int)
    requires y in KeySet(ws)
    requires AllWords(Texts(LineAt(ws, y).xmap))
    ensures |LineAt(ws, y).xmap| > 0
    ensures var line := LineAt(ws, y);
            Split(line.text) == Texts(line.xmap) && FirstWord(line.text) == line.xmap[0].text
  {
    var es := SortByX(EntriesAt(ws, y));
    EntriesAtNonEmpty(ws, y);
    assert |es| == |multiset(es)|;
    SplitJoin(Texts(es));
    FirstWordOfJoin(Texts(es));
  }
}
