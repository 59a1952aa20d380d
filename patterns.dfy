/**
 * Date recognition: the two regular expressions the parser uses on dates.
 *
 * `datetime.strptime(text, fmt)` compiles `fmt` into a regular expression,
 * matches it at the start of the text, rejects unconverted trailing data and
 * then checks the calendar (a missing year is 1900). In that expression `%d`
 * is `3[01]|[12]\d|0[1-9]|[1-9]| [1-9]`, `%m` is `1[0-2]|0[1-9]|[1-9]`, `%Y`
 * is `\d\d\d\d`, a blank is `\s+`, and any other character stands for itself.
 * The `%d` alternative ` [1-9]` (a space, then a digit) is left out here:
 * every caller turns spaces into `/` before parsing, so it never applies.
 * The block header uses `^(\d{1,2}[/\-\s]\d{1,2}[/\-\s]\d{2,4})`. Both are
 * patterns of the small language below, matched with the backtracking order
 * of Python's `re`: digit runs longest first, `\s+` longest first, first
 * success wins.
 */
module Patterns {
  import opened Wrappers
  import opened Text

  /** The date field a number fills, if any. */
  datatype Tag = Day | Month | Year | Anon

  datatype Atom =
      /** `\d{minLen,maxLen}` whose value lies in `[lo, hi]`, longest run first. */
    | Num(tag: Tag, minLen: nat, maxLen: nat, lo: nat, hi: nat)
      /** One character from `chars`, or any whitespace when `orSpace`. */
    | Sep(chars: set<char>, orSpace: bool)
      /** `\s+`, longest run first. */
    | Spaces

  type Pattern = seq<Atom>

  datatype Capture = Capture(tag: Tag, value: nat)

  /** A successful match at the start of a text: the numbers read and the unconsumed rest. */
  datatype Found = Found(captures: seq<Capture>, rest: string)

  predicate SuffixOf(r: string, s: string) {
    |r| <= |s| && r == s[|s| - |r|..]
  }

  function Min(a: nat, b: nat): nat {
    if a <= b then a else b
  }

  /** The length of the run of whitespace at the start of `s`. */
  function SpaceRun(s: string): (n: nat)
    ensures n <= |s|
    ensures forall i :: 0 <= i < n ==> IsSpace(s[i])
    ensures n == |s| || !IsSpace(s[n])
  {
    if |s| > 0 && IsSpace(s[0]) then
      var n := SpaceRun(s[1..]);
      assert forall i :: 1 <= i < n + 1 ==> s[i] == s[1..][i - 1];
      n + 1
    else 0
  }

  /** `re.match(p, s)`: the first match of `p` at the start of `s` in backtracking order. */
  function Match(s: string, p: Pattern): (r: Option<Found>)
    ensures r.Some? ==> SuffixOf(r.value.rest, s)
    decreases |p|, |s| + 1
  {
    if p == [] then Some(Found([], s))
    else
      match p[0]
      case Num(_, _, maxLen, _, _) => TryNum(s, p, Min(maxLen, DigitRun(s)))
      case Sep(cs, orSpace) =>
        if |s| > 0 && (s[0] in cs || (orSpace && IsSpace(s[0]))) then
          var r := Match(s[1..], p[1..]);
          if r.Some? then Some(r.value) else None
        else None
      case Spaces => TrySpaces(s, p, SpaceRun(s))
  }

  /** The number atom `p[0]` tried on the first `len` digits, then on fewer. */
  function TryNum(s: string, p: Pattern, len: nat): (r: Option<Found>)
    requires p != [] && p[0].Num? && len <= DigitRun(s)
    ensures r.Some? ==> SuffixOf(r.value.rest, s)
    decreases |p|, len
  {
    if len < p[0].minLen then None
    else
      assert s[..len] == s[..DigitRun(s)][..len];
      var v := DigitsValue(s[..len]);
      var tail := if p[0].lo <= v <= p[0].hi then Match(s[len..], p[1..]) else None;
      if tail.Some? then Some(Found([Capture(p[0].tag, v)] + tail.value.captures, tail.value.rest))
      else if len == 0 then None
      else TryNum(s, p, len - 1)
  }

  /** The `\s+` atom `p[0]` tried on the first `len` blanks, then on fewer. */
  function TrySpaces(s: string, p: Pattern, len: nat): (r: Option<Found>)
    requires p != [] && len <= |s|
    ensures r.Some? ==> SuffixOf(r.value.rest, s)
    decreases |p|, len
  {
    if len == 0 then None
    else
      var tail := Match(s[len..], p[1..]);
      if tail.Some? then tail else TrySpaces(s, p, len - 1)
  }

  // ---------------------------------------------------------------------------
  // Calendar dates
  // ---------------------------------------------------------------------------

  datatype Date = Date(year: int, month: int, day: int)

  predicate IsLeap(y: int) {
    y % 4 == 0 && (y % 100 != 0 || y % 400 == 0)
  }

  function DaysInMonth(month: int, year: int): int {
    if month == 2 then (if IsLeap(year) then 29 else 28)
    else if month == 4 || month == 6 || month == 9 || month == 11 then 30
    else 31
  }

  /** What `datetime.date` accepts: years 1 to 9999 and real calendar days. */
  predicate ValidDate(d: Date) {
    && 1 <= d.year <= 9999
    && 1 <= d.month <= 12
    && 1 <= d.day <= DaysInMonth(d.month, d.year)
  }

  /** The value captured for `tag`, or `default` when the pattern has no such field. */
  function CaptureOf(cs: seq<Capture>, tag: Tag, default: nat): nat {
    if cs == [] then default
    else if cs[0].tag == tag then cs[0].value
    else CaptureOf(cs[1..], tag, default)
  }

  /** `datetime.strptime(s, fmt)`: `None` where Python raises `ValueError`. */
  function Strptime(s: string, fmt: Pattern): (r: Option<Date>)
    ensures r.Some? ==> ValidDate(r.value)
  {
    match Match(s, fmt)
    case None => None
    case Some(f) =>
      if f.rest != "" then None
      else
        var d := Date(CaptureOf(f.captures, Year, 1900), CaptureOf(f.captures, Month, 1), CaptureOf(f.captures, Day, 1));
        if ValidDate(d) then Some(d) else None
  }

  /** `text.replace(" ", "/").replace("-", "/")` */
  function Prepare(text: string): string {
    ReplaceChar(ReplaceChar(text, ' ', '/'), '-', '/')
  }

  /** `is_date(text, formats)`: some format, tried in order, parses the prepared text. */
  predicate IsDate(text: string, formats: seq<Pattern>) {
    formats != [] && (Strptime(Prepare(text), formats[0]).Some? || IsDate(text, formats[1..]))
  }

  const DayAtom: Atom := Num(Day, 1, 2, 1, 31)
  const MonthAtom: Atom := Num(Month, 1, 2, 1, 12)
  const YearAtom: Atom := Num(Year, 4, 4, 0, 9999)
  const Slash: Atom := Sep({'/'}, false)

  /** `"%d/%m/%Y"` */
  const DayMonthYear: Pattern := [DayAtom, Slash, MonthAtom, Slash, YearAtom]
  /** `"%m %d %Y"` */
  const MonthDayYearSpaced: Pattern := [MonthAtom, Spaces, DayAtom, Spaces, YearAtom]
  /** `"%m %d"` */
  const MonthDaySpaced: Pattern := [MonthAtom, Spaces, DayAtom]

  /** `\d{1,2}[/\-\s]\d{1,2}[/\-\s]\d{2,4}` */
  const HeaderPattern: Pattern := [
    Num(Anon, 1, 2, 0, 99), Sep({'/', '-'}, true),
    Num(Anon, 1, 2, 0, 99), Sep({'/', '-'}, true),
    Num(Anon, 2, 4, 0, 9999)
  ]

  /**
   * The date of a block: the header pattern matched at the start of its first
   * line, separators turned into `/`, parsed with the first configured format.
   * `None` when there is no match, no format, or the parse fails.
   */
  function HeaderDate(line: string, formats: seq<Pattern>): (r: Option<Date>)
    ensures r.Some? ==> ValidDate(r.value)
  {
    if formats == [] then None
    else
      match Match(line, HeaderPattern)
      case None => None
      case Some(f) => Strptime(Prepare(line[..|line| - |f.rest|]), formats[0])
  }

  /** `strftime("%Y-%m-%d")` */
  function IsoDate(d: Date): string
    requires ValidDate(d)
  {
    PadDigits(d.year as nat, 4) + "-" + PadDigits(d.month as nat, 2) + "-" + PadDigits(d.day as nat, 2)
  }

  // ---------------------------------------------------------------------------
  // Properties
  // ---------------------------------------------------------------------------

  /** Output dates have the shape YYYY-MM-DD and spell out the parsed date. */
  lemma IsoDateShape(d: Date)
    requires ValidDate(d)
    ensures |IsoDate(d)| == 10
    ensures IsoDate(d)[4] == '-' && IsoDate(d)[7] == '-'
    ensures AllDigits(IsoDate(d)[..4]) && AllDigits(IsoDate(d)[5..7]) && AllDigits(IsoDate(d)[8..])
    ensures DigitsValue(IsoDate(d)[..4]) == d.year
    ensures DigitsValue(IsoDate(d)[5..7]) == d.month
    ensures DigitsValue(IsoDate(d)[8..]) == d.day
  {
    var y, m, dd := PadDigits(d.year as nat, 4), PadDigits(d.month as nat, 2), PadDigits(d.day as nat, 2);
    PadDigitsSound(d.year as nat, 4);
    PadDigitsSound(d.month as nat, 2);
    PadDigitsSound(d.day as nat, 2);
    var s := IsoDate(d);
    assert s == y + "-" + m + "-" + dd;
    assert s[..4] == y;
    assert s[5..7] == m;
    assert s[8..] == dd;
  }

  lemma MatchEnd(s: string)
    ensures Match(s, []) == Some(Found([], s))
  {
  }

  /** A number atom meeting a whole digit string it accepts reads it and goes on. */
  lemma NumStep(a: Atom, q: Pattern, digits: string, r: string, tail: Found)
    requires a.Num? && AllDigits(digits) && Fits(a, digits)
    requires r == "" || !IsDigit(r[0]) || |digits| == a.maxLen
    requires Match(r, q) == Some(tail)
    ensures Match(digits + r, [a] + q) == Some(Found([Capture(a.tag, DigitsValue(digits))] + tail.captures, tail.rest))
  {
    var s, p := digits + r, [a] + q;
    var k := |digits|;
    if r == "" || !IsDigit(r[0]) {
      DigitRunOf(digits, r);
    } else {
      DigitRunCovers(digits, r);
    }
    assert s[..k] == digits && s[k..] == r && p[0] == a && p[1..] == q;
    NumReadsRun(s, p, k, tail);
  }

  /** A number atom whose longest allowed digit run it accepts reads that run and goes on. */
  lemma NumReadsRun(s: string, p: Pattern, k: nat, tail: Found)
    requires p != [] && p[0].Num? && k == Min(p[0].maxLen, DigitRun(s))
    requires AllDigits(s[..k]) && Fits(p[0], s[..k]) && Match(s[k..], p[1..]) == Some(tail)
    ensures Match(s, p) == Some(Found([Capture(p[0].tag, DigitsValue(s[..k]))] + tail.captures, tail.rest))
  {
  }

  /** The separator atom `a` accepts `c`: one of its characters, or whitespace where it allows any. */
  predicate SepAccepts(a: Atom, c: char)
    requires a.Sep?
  {
    c in a.chars || (a.orSpace && IsSpace(c))
  }

  lemma SepStep(a: Atom, q: Pattern, c: char, r: string, tail: Found)
    requires a.Sep? && SepAccepts(a, c)
    requires Match(r, q) == Some(tail)
    ensures Match([c] + r, [a] + q) == Some(tail)
  {
    assert ([c] + r)[1..] == r && ([a] + q)[1..] == q;
  }

  /** A number atom accepts this digit string as a whole. */
  predicate Fits(a: Atom, digits: string)
    requires a.Num? && AllDigits(digits)
  {
    a.minLen <= |digits| <= a.maxLen && a.lo <= DigitsValue(digits) <= a.hi
  }

  /** A date written day, month, four-digit year with separator `c`. */
  function RenderDmy(d: Date, c: char): string
    requires ValidDate(d)
  {
    PadDigits(d.day as nat, 2) + [c] + PadDigits(d.month as nat, 2) + [c] + PadDigits(d.year as nat, 4)
  }

  lemma RenderDmyParts(d: Date, c: char)
    requires ValidDate(d)
    ensures |RenderDmy(d, c)| == 10
    ensures RenderDmy(d, c)[2] == c && RenderDmy(d, c)[5] == c
    ensures AllDigits(RenderDmy(d, c)[..2]) && DigitsValue(RenderDmy(d, c)[..2]) == d.day
    ensures AllDigits(RenderDmy(d, c)[3..5]) && DigitsValue(RenderDmy(d, c)[3..5]) == d.month
    ensures AllDigits(RenderDmy(d, c)[6..]) && DigitsValue(RenderDmy(d, c)[6..]) == d.year
  {
    PadDigitsSound(d.year as nat, 4);
    PadDigitsSound(d.month as nat, 2);
    PadDigitsSound(d.day as nat, 2);
    var s := RenderDmy(d, c);
    assert s[..2] == PadDigits(d.day as nat, 2);
    assert s[3..5] == PadDigits(d.month as nat, 2);
    assert s[6..] == PadDigits(d.year as nat, 4);
  }

  /**
   * Three numbers separated by single characters, each read whole by the
   * number atoms of a five-atom pattern, are captured in order.
   */
  lemma MatchThreeFields(a: string, c1: char, b: string, c2: char, y: string, rest: string, p: Pattern)
    requires |p| == 5 && p[0].Num? && p[1].Sep? && p[2].Num? && p[3].Sep? && p[4].Num?
    requires AllDigits(a) && AllDigits(b) && AllDigits(y)
    requires Fits(p[0], a) && Fits(p[2], b) && Fits(p[4], y)
    requires SepAccepts(p[1], c1) && SepAccepts(p[3], c2) && !IsDigit(c1) && !IsDigit(c2)
    requires rest == "" || !IsDigit(rest[0]) || |y| == p[4].maxLen
    ensures Match(a + [c1] + b + [c2] + y + rest, p) == Some(Found(
      [Capture(p[0].tag, DigitsValue(a)), Capture(p[2].tag, DigitsValue(b)), Capture(p[4].tag, DigitsValue(y))], rest))
  {
    var q3: Pattern := [p[3]] + ([p[4]] + []);
    var q1: Pattern := [p[1]] + ([p[2]] + q3);
    var r3 := [c2] + (y + rest);
    var r1 := [c1] + (b + r3);
    var f4 := Found([Capture(p[4].tag, DigitsValue(y))] + Found([], rest).captures, rest);
    SepNumTail(p[3], p[4], c2, y, rest);
    var f2 := Found([Capture(p[2].tag, DigitsValue(b))] + f4.captures, rest);
    NumStep(p[2], q3, b, r3, f4);
    SepStep(p[1], [p[2]] + q3, c1, b + r3, f2);
    var f0 := Found([Capture(p[0].tag, DigitsValue(a))] + f2.captures, rest);
    NumStep(p[0], q1, a, r1, f2);
    PatternOfFive(p);
    ConcatFive(a, c1, b, c2, y, rest);
    ThreeCaptures(Capture(p[0].tag, DigitsValue(a)), Capture(p[2].tag, DigitsValue(b)), Capture(p[4].tag, DigitsValue(y)));
    assert Match(a + r1, [p[0]] + q1) == Some(f0);
  }

  lemma ThreeCaptures(x: Capture, y: Capture, z: Capture)
    ensures [x] + ([y] + ([z] + [])) == [x, y, z]
  {
  }

  lemma SepNumTail(sep: Atom, num: Atom, c: char, y: string, rest: string)
    requires sep.Sep? && SepAccepts(sep, c)
    requires num.Num? && AllDigits(y) && Fits(num, y)
    requires rest == "" || !IsDigit(rest[0]) || |y| == num.maxLen
    ensures Match([c] + (y + rest), [sep] + ([num] + [])) ==
      Some(Found([Capture(num.tag, DigitsValue(y))] + Found([], rest).captures, rest))
  {
    MatchEnd(rest);
    NumStep(num, [], y, rest, Found([], rest));
    SepStep(sep, [num] + [], c, y + rest, Found([Capture(num.tag, DigitsValue(y))] + Found([], rest).captures, rest));
  }

  lemma PatternOfFive(p: Pattern)
    requires |p| == 5
    ensures p == [p[0]] + ([p[1]] + ([p[2]] + ([p[3]] + ([p[4]] + []))))
  {
  }

  lemma ConcatFive(a: string, c1: char, b: string, c2: char, y: string, rest: string)
    ensures a + [c1] + b + [c2] + y + rest == a + ([c1] + (b + ([c2] + (y + rest))))
  {
  }

  /** Matching `"%d/%m/%Y"` against `DD/MM/YYYY` followed by `rest` reads the three fields. */
  lemma MatchDmy(d: Date, c: char, rest: string, p: Pattern)
    requires ValidDate(d)
    requires |p| == 5 && p[0].Num? && p[1].Sep? && p[2].Num? && p[3].Sep? && p[4].Num?
    requires p[0].minLen <= 2 <= p[0].maxLen && p[0].lo <= 1 && 31 <= p[0].hi
    requires p[2].minLen <= 2 <= p[2].maxLen && p[2].lo <= 1 && 12 <= p[2].hi
    requires p[4].minLen <= 4 <= p[4].maxLen && p[4].lo <= 1 && 9999 <= p[4].hi
    requires c in p[1].chars && c in p[3].chars && !IsDigit(c)
    requires rest == "" || !IsDigit(rest[0])
    ensures Match(RenderDmy(d, c) + rest, p) == Some(Found(
      [Capture(p[0].tag, d.day as nat), Capture(p[2].tag, d.month as nat), Capture(p[4].tag, d.year as nat)], rest))
  {
    var s := RenderDmy(d, c);
    RenderDmyParts(d, c);
    assert s == s[..2] + [c] + s[3..5] + [c] + s[6..];
    MatchThreeFields(s[..2], c, s[3..5], c, s[6..], rest, p);
  }

  /** A day-month-year date in the configured format parses back to itself. */
  lemma DmyRoundTrip(d: Date)
    requires ValidDate(d)
    ensures Strptime(RenderDmy(d, '/'), DayMonthYear) == Some(d)
  {
    MatchDmy(d, '/', "", DayMonthYear);
    assert RenderDmy(d, '/') + "" == RenderDmy(d, '/');
    var caps := [Capture(Day, d.day as nat), Capture(Month, d.month as nat), Capture(Year, d.year as nat)];
    assert caps[1..] == [Capture(Month, d.month as nat), Capture(Year, d.year as nat)];
    assert caps[1..][1..] == [Capture(Year, d.year as nat)];
    assert CaptureOf(caps[1..][1..], Year, 1900) == d.year;
    assert CaptureOf(caps, Year, 1900) == d.year;
    assert CaptureOf(caps, Month, 1) == d.month;
    assert CaptureOf(caps, Day, 1) == d.day;
  }

  lemma PrepareDmy(d: Date, c: char)
    requires ValidDate(d)
    requires c == '/' || c == '-' || c == ' '
    ensures Prepare(RenderDmy(d, c)) == RenderDmy(d, '/')
  {
    var s := RenderDmy(d, c);
    var t := RenderDmy(d, '/');
    RenderDmyParts(d, c);
    RenderDmyParts(d, '/');
    var p := Prepare(s);
    forall i | 0 <= i < 10
      ensures p[i] == t[i]
    {
      if i < 2 {
        assert s[i] == s[..2][i] && t[i] == t[..2][i];
      } else if 2 < i < 5 {
        assert s[i] == s[3..5][i - 3] && t[i] == t[3..5][i - 3];
      } else if i > 5 {
        assert s[i] == s[6..][i - 6] && t[i] == t[6..][i - 6];
      }
    }
  }

  /**
   * `is_date` accepts a day-month-year word under `"%d/%m/%Y"` whether its
   * separators are `/`, `-` or blanks, since all three are turned into `/`.
   */
  lemma DmyIsDate(d: Date, c: char)
    requires ValidDate(d)
    requires c == '/' || c == '-' || c == ' '
    ensures IsDate(RenderDmy(d, c), [DayMonthYear])
  {
    PrepareDmy(d, c);
    DmyRoundTrip(d);
  }

  /**
   * A first line that starts with `DD/MM/YYYY` (and no further digit) dates
   * its block with that day under `"%d/%m/%Y"`.
   */
  lemma HeaderDateDmy(d: Date, rest: string)
    requires ValidDate(d)
    requires rest == "" || !IsDigit(rest[0])
    ensures HeaderDate(RenderDmy(d, '/') + rest, [DayMonthYear]) == Some(d)
  {
    var s := RenderDmy(d, '/');
    var t := s + rest;
    MatchDmy(d, '/', rest, HeaderPattern);
    assert Match(t, HeaderPattern).value.rest == rest;
    assert t[..|t| - |rest|] == s;
    PrepareDmy(d, '/');
    DmyRoundTrip(d);
  }

  // ---------------------------------------------------------------------------
  // What a successful match reads
  // ---------------------------------------------------------------------------

  /** The number atom `p[0]` read the first `n` characters of `s`, and the rest of `p` then matched, giving `g`; `f` is the whole result. */
  predicate NumRead(s: string, p: Pattern, n: nat, g: Found, f: Found)
    requires p != [] && p[0].Num?
  {
    && n <= |s| && AllDigits(s[..n]) && Fits(p[0], s[..n])
    && Match(s[n..], p[1..]) == Some(g)
    && f == Found([Capture(p[0].tag, DigitsValue(s[..n]))] + g.captures, g.rest)
  }

  lemma {:induction false} TryNumSound(s: string, p: Pattern, len: nat)
    requires p != [] && p[0].Num? && len <= DigitRun(s) && len <= p[0].maxLen
    requires TryNum(s, p, len).Some?
    ensures exists n: nat, g :: n <= len && NumRead(s, p, n, g, TryNum(s, p, len).value)
    decreases len
  {
    assert AllDigits(s[..len]) by {
      assert s[..len] == s[..DigitRun(s)][..len];
    }
    var v := DigitsValue(s[..len]);
    var tail := if p[0].lo <= v <= p[0].hi then Match(s[len..], p[1..]) else None;
    if p[0].minLen <= len && tail.Some? {
      assert TryNum(s, p, len) == Some(Found([Capture(p[0].tag, v)] + tail.value.captures, tail.value.rest));
      assert NumRead(s, p, len, tail.value, TryNum(s, p, len).value);
    } else {
      assert len > 0 && TryNum(s, p, len) == TryNum(s, p, len - 1);
      TryNumSound(s, p, len - 1);
    }
  }

  /** A match that starts with a number atom read some accepted digits first. */
  lemma MatchNumSound(s: string, p: Pattern)
    requires p != [] && p[0].Num? && Match(s, p).Some?
    ensures exists n: nat, g :: NumRead(s, p, n, g, Match(s, p).value)
  {
    TryNumSound(s, p, Min(p[0].maxLen, DigitRun(s)));
  }

  /** A match that starts with a separator atom consumed one accepted character first. */
  lemma MatchSepSound(s: string, p: Pattern)
    requires p != [] && p[0].Sep? && Match(s, p).Some?
    ensures |s| > 0 && SepAccepts(p[0], s[0]) && Match(s[1..], p[1..]) == Match(s, p)
  {
  }

  predicate IsFive(p: Pattern) {
    |p| == 5 && p[0].Num? && p[1].Sep? && p[2].Num? && p[3].Sep? && p[4].Num?
  }

  /**
   * A number-separator-number-separator-number pattern read digit fields
   * ending at `i`, `j` and `k`, each accepted by its atom, with accepted
   * separators at `i` and `j`; `f` holds the three values and what follows.
   */
  predicate FiveRead(s: string, p: Pattern, i: nat, j: nat, k: nat, f: Found)
    requires IsFive(p)
  {
    && i + 1 <= j && j + 1 <= k <= |s|
    && AllDigits(s[..i]) && Fits(p[0], s[..i]) && SepAccepts(p[1], s[i])
    && AllDigits(s[i + 1..j]) && Fits(p[2], s[i + 1..j]) && SepAccepts(p[3], s[j])
    && AllDigits(s[j + 1..k]) && Fits(p[4], s[j + 1..k])
    && f == Found([Capture(p[0].tag, DigitsValue(s[..i])), Capture(p[2].tag, DigitsValue(s[i + 1..j])),
                   Capture(p[4].tag, DigitsValue(s[j + 1..k]))], s[k..])
  }

  /** The separator `p[0]` accepted the first character of `s`, then the number `p[1]` read the next `n`, and the rest matched, giving `g`. */
  predicate SepNumRead(s: string, p: Pattern, n: nat, g: Found, f: Found)
    requires |p| >= 2 && p[0].Sep? && p[1].Num?
  {
    && 1 + n <= |s| && SepAccepts(p[0], s[0])
    && AllDigits(s[1..1 + n]) && Fits(p[1], s[1..1 + n])
    && Match(s[1 + n..], p[2..]) == Some(g)
    && f == Found([Capture(p[1].tag, DigitsValue(s[1..1 + n]))] + g.captures, g.rest)
  }

  lemma MatchSepNumSound(s: string, p: Pattern)
    requires |p| >= 2 && p[0].Sep? && p[1].Num? && Match(s, p).Some?
    ensures exists n: nat, g :: SepNumRead(s, p, n, g, Match(s, p).value)
  {
    MatchSepSound(s, p);
    var t, q := s[1..], p[1..];
    MatchNumSound(t, q);
    var n: nat, g :| NumRead(t, q, n, g, Match(t, q).value);
    SepNumFromNum(s, p, n, g, Match(s, p).value);
    assert SepNumRead(s, p, n, g, Match(s, p).value);
  }

  lemma SepNumFromNum(s: string, p: Pattern, n: nat, g: Found, f: Found)
    requires |p| >= 2 && p[0].Sep? && p[1].Num? && |s| > 0 && SepAccepts(p[0], s[0])
    requires NumRead(s[1..], p[1..], n, g, f)
    ensures SepNumRead(s, p, n, g, f)
  {
    SliceOfSlice(s, 1, 0, n);
    SliceOfSlice(s, 1, n, |s| - 1);
    assert p[1..][0] == p[1] && p[1..][1..] == p[2..];
  }

  lemma SliceOfSlice(s: string, a: nat, b: nat, c: nat)
    requires a <= |s| && b <= c <= |s| - a
    ensures s[a..][b..c] == s[a + b..a + c]
  {
  }

  predicate IsTail(p: Pattern) {
    |p| == 4 && p[0].Sep? && p[1].Num? && p[2].Sep? && p[3].Num?
  }

  /**
   * A separator-number-separator-number pattern read an accepted separator,
   * `n2` accepted digits, another accepted separator and `n3` accepted digits;
   * `g` holds the two values and what follows.
   */
  predicate TailRead(s: string, p: Pattern, n2: nat, n3: nat, g: Found)
    requires IsTail(p)
  {
    && 1 + n2 <= |s| && SepAccepts(p[0], s[0]) && AllDigits(s[1..1 + n2]) && Fits(p[1], s[1..1 + n2])
    && var s3 := s[1 + n2..];
    && 1 + n3 <= |s3| && SepAccepts(p[2], s3[0]) && AllDigits(s3[1..1 + n3]) && Fits(p[3], s3[1..1 + n3])
    && g == Found([Capture(p[1].tag, DigitsValue(s[1..1 + n2])), Capture(p[3].tag, DigitsValue(s3[1..1 + n3]))], s3[1 + n3..])
  }

  lemma MatchTailSound(s: string, p: Pattern)
    requires IsTail(p) && Match(s, p).Some?
    ensures exists n2: nat, n3: nat :: TailRead(s, p, n2, n3, Match(s, p).value)
  {
    var f := Match(s, p).value;
    MatchSepNumSound(s, p);
    var n2: nat, g2 :| SepNumRead(s, p, n2, g2, f);
    var s3, p3 := s[1 + n2..], p[2..];
    MatchSepNumSound(s3, p3);
    var n3: nat, g3 :| SepNumRead(s3, p3, n3, g3, g2);
    assert p3[2..] == [];
    MatchEnd(s3[1 + n3..]);
    assert p3[0] == p[2] && p3[1] == p[3];
    assert TailRead(s, p, n2, n3, f);
  }

  /** Whatever a five-atom pattern matches is three digit fields with two separators. */
  lemma MatchFiveSound(s: string, p: Pattern)
    requires IsFive(p) && Match(s, p).Some?
    ensures exists i: nat, j: nat, k: nat :: FiveRead(s, p, i, j, k, Match(s, p).value)
  {
    var f := Match(s, p).value;
    MatchNumSound(s, p);
    var n1: nat, g1 :| NumRead(s, p, n1, g1, f);
    MatchTailSound(s[n1..], p[1..]);
    var n2: nat, n3: nat :| TailRead(s[n1..], p[1..], n2, n3, g1);
    FiveAssemble(s, p, n1, n2, n3, g1, f);
  }

  /** The pieces read one atom at a time, put back together as positions in the whole text. */
  lemma FiveAssemble(s: string, p: Pattern, n1: nat, n2: nat, n3: nat, g1: Found, f: Found)
    requires IsFive(p)
    requires n1 <= |s| && AllDigits(s[..n1]) && Fits(p[0], s[..n1])
    requires f == Found([Capture(p[0].tag, DigitsValue(s[..n1]))] + g1.captures, g1.rest)
    requires TailRead(s[n1..], p[1..], n2, n3, g1)
    ensures FiveRead(s, p, n1, n1 + 1 + n2, n1 + 2 + n2 + n3, f)
  {
    var i, j := n1, n1 + 1 + n2;
    var k := j + 1 + n3;
    var q := p[1..];
    assert q[0] == p[1] && q[1] == p[2] && q[2] == p[3] && q[3] == p[4];
    var a, b, y := s[..i], s[i + 1..j], s[j + 1..k];
    SliceOfSlice(s, i, 1, 1 + n2);
    SliceOfSlice(s, i, 1 + n2, |s| - i);
    SliceOfSlice(s, j, 1, 1 + n3);
    SliceOfSlice(s, j, 1 + n3, |s| - j);
    assert s[i..][1 + n2..] == s[j..];
    assert b == s[i..][1..1 + n2] && y == s[j..][1..1 + n3] && s[k..] == s[j..][1 + n3..];
  }

  // ---------------------------------------------------------------------------
  // Exactly which texts are dates
  // ---------------------------------------------------------------------------

  /** The characters `is_date` and the block header turn into `/`, and `/` itself. */
  const DateSeparators: set<char> := {'/', '-', ' '}

  /**
   * `s` starts with `d` written day, month, year: one or two digits ending
   * at `i`, one or two ending at `j`, then four, with separators from `seps`.
   */
  predicate SpellsDate(s: string, i: nat, j: nat, seps: set<char>, d: Date) {
    && 1 <= i <= 2 && i + 2 <= j <= i + 3 && j + 5 <= |s|
    && AllDigits(s[..i]) && s[i] in seps
    && AllDigits(s[i + 1..j]) && s[j] in seps
    && AllDigits(s[j + 1..j + 5])
    && DigitsValue(s[..i]) == d.day && DigitsValue(s[i + 1..j]) == d.month && DigitsValue(s[j + 1..j + 5]) == d.year
  }

  /** The date `strptime` builds from the captures of `"%d/%m/%Y"`. */
  lemma DmyCaptures(v1: nat, v2: nat, v3: nat)
    ensures var cs := [Capture(Day, v1), Capture(Month, v2), Capture(Year, v3)];
            Date(CaptureOf(cs, Year, 1900), CaptureOf(cs, Month, 1), CaptureOf(cs, Day, 1)) == Date(v3, v2, v1)
  {
    var cs := [Capture(Day, v1), Capture(Month, v2), Capture(Year, v3)];
    assert cs[1..] == [Capture(Month, v2), Capture(Year, v3)];
    assert cs[1..][1..] == [Capture(Year, v3)];
    assert CaptureOf(cs[1..][1..], Year, 1900) == v3;
    assert CaptureOf(cs, Year, 1900) == v3;
    assert CaptureOf(cs, Month, 1) == v2;
  }

  /** A text `"%d/%m/%Y"` accepts spells the date it returns, with slashes and nothing after. */
  lemma DmySound(s: string, d: Date)
    requires Strptime(s, DayMonthYear) == Some(d)
    ensures exists i: nat, j: nat :: |s| == j + 5 && SpellsDate(s, i, j, {'/'}, d)
  {
    var f := Match(s, DayMonthYear).value;
    MatchFiveSound(s, DayMonthYear);
    var i: nat, j: nat, k: nat :| FiveRead(s, DayMonthYear, i, j, k, f);
    DmyFields(s, i, j, k, f, d);
  }

  /** The fields `"%d/%m/%Y"` read, with nothing left over, spell the date built from them. */
  lemma DmyFields(s: string, i: nat, j: nat, k: nat, f: Found, d: Date)
    requires FiveRead(s, DayMonthYear, i, j, k, f) && f.rest == ""
    requires d == Date(CaptureOf(f.captures, Year, 1900), CaptureOf(f.captures, Month, 1), CaptureOf(f.captures, Day, 1))
    ensures |s| == j + 5 && SpellsDate(s, i, j, {'/'}, d)
  {
    assert k == |s|;
    DmyCaptures(DigitsValue(s[..i]), DigitsValue(s[i + 1..j]), DigitsValue(s[j + 1..k]));
  }

  /** Every valid date spelled with slashes, padded or not, is accepted by `"%d/%m/%Y"`. */
  lemma DmyComplete(s: string, i: nat, j: nat, d: Date)
    requires ValidDate(d) && |s| == j + 5 && SpellsDate(s, i, j, {'/'}, d)
    ensures Strptime(s, DayMonthYear) == Some(d)
  {
    var a, b, y := s[..i], s[i + 1..j], s[j + 1..];
    assert s == a + ['/'] + b + ['/'] + y + "";
    assert d.day <= 31 by {
      assert DaysInMonth(d.month, d.year) <= 31;
    }
    MatchThreeFields(a, '/', b, '/', y, "", DayMonthYear);
    DmyCaptures(d.day as nat, d.month as nat, d.year as nat);
  }

  /** `"%d/%m/%Y"` accepts exactly the slash-separated spellings of valid dates, and returns the date spelled. */
  lemma DmyExact(s: string, d: Date)
    ensures Strptime(s, DayMonthYear) == Some(d) <==>
              ValidDate(d) && exists i: nat, j: nat :: |s| == j + 5 && SpellsDate(s, i, j, {'/'}, d)
  {
    if Strptime(s, DayMonthYear) == Some(d) {
      DmySound(s, d);
    }
    if ValidDate(d) && exists i: nat, j: nat :: |s| == j + 5 && SpellsDate(s, i, j, {'/'}, d) {
      var i: nat, j: nat :| |s| == j + 5 && SpellsDate(s, i, j, {'/'}, d);
      DmyComplete(s, i, j, d);
    }
  }

  /** `Prepare` keeps the length, turns blanks and dashes into `/` and keeps every other character. */
  lemma PrepareAt(t: string)
    ensures |Prepare(t)| == |t|
    ensures forall k :: 0 <= k < |t| ==> Prepare(t)[k] == (if t[k] == ' ' || t[k] == '-' then '/' else t[k])
  {
  }

  /** Digit fields survive `Prepare` unchanged, and only digits become digits. */
  lemma PrepareDigits(t: string, x: nat, y: nat)
    requires x <= y <= |t|
    ensures AllDigits(Prepare(t)[x..y]) <==> AllDigits(t[x..y])
    ensures AllDigits(t[x..y]) ==> Prepare(t)[x..y] == t[x..y]
  {
    PrepareAt(t);
    assert forall k :: x <= k < y ==> Prepare(t)[x..y][k - x] == Prepare(t)[k] && t[x..y][k - x] == t[k];
  }

  /** After `Prepare`, a slash-separated spelling is exactly a spelling with `/`, `-` or blanks. */
  lemma PrepareSpells(t: string, i: nat, j: nat, d: Date)
    ensures SpellsDate(Prepare(t), i, j, {'/'}, d) <==> SpellsDate(t, i, j, DateSeparators, d)
  {
    PrepareAt(t);
    if 1 <= i <= 2 && i + 2 <= j <= i + 3 && j + 5 <= |t| {
      PrepareDigits(t, 0, i);
      PrepareDigits(t, i + 1, j);
      PrepareDigits(t, j + 1, j + 5);
    }
  }

  /**
   * `is_date` under the first ruleset's formats accepts exactly a valid date
   * spelled day, month, four-digit year, separated by `/`, `-` or blanks.
   */
  lemma IsDateDmy(text: string)
    ensures IsDate(text, [DayMonthYear]) <==>
              exists i: nat, j: nat, d :: ValidDate(d) && |text| == j + 5 && SpellsDate(text, i, j, DateSeparators, d)
  {
    var formats := [DayMonthYear];
    assert formats[1..] == [];
    var t := Prepare(text);
    PrepareAt(text);
    if IsDate(text, formats) {
      assert !IsDate(text, formats[1..]);
      assert Strptime(t, DayMonthYear).Some?;
      var d := Strptime(t, DayMonthYear).value;
      DmySound(t, d);
      var i: nat, j: nat :| |t| == j + 5 && SpellsDate(t, i, j, {'/'}, d);
      PrepareSpells(text, i, j, d);
    }
    if exists i: nat, j: nat, d :: ValidDate(d) && |text| == j + 5 && SpellsDate(text, i, j, DateSeparators, d) {
      var i: nat, j: nat, d :| ValidDate(d) && |text| == j + 5 && SpellsDate(text, i, j, DateSeparators, d);
      PrepareSpells(text, i, j, d);
      DmyComplete(t, i, j, d);
    }
  }

  /** A spelling inside a prefix is a spelling of the whole line, and back. */
  lemma SpellsPrefix(line: string, m: nat, i: nat, j: nat, seps: set<char>, d: Date)
    requires j + 5 <= m <= |line|
    ensures SpellsDate(line[..m], i, j, seps, d) <==> SpellsDate(line, i, j, seps, d)
  {
    var u := line[..m];
    if 1 <= i <= 2 && i + 2 <= j <= i + 3 {
      assert u[..i] == line[..i] && u[i + 1..j] == line[i + 1..j] && u[j + 1..j + 5] == line[j + 1..j + 5];
    }
  }

  /** A block header read under `"%d/%m/%Y"` is a date spelled at the start of the line. */
  lemma HeaderDateSound(line: string, d: Date)
    requires HeaderDate(line, [DayMonthYear]) == Some(d)
    ensures exists i: nat, j: nat :: SpellsDate(line, i, j, DateSeparators, d)
  {
    var f := Match(line, HeaderPattern).value;
    var m := |line| - |f.rest|;
    var u := line[..m];
    var t := Prepare(u);
    assert Strptime(t, DayMonthYear) == Some(d);
    DmySound(t, d);
    var i: nat, j: nat :| |t| == j + 5 && SpellsDate(t, i, j, {'/'}, d);
    PrepareSpells(u, i, j, d);
    SpellsPrefix(line, m, i, j, DateSeparators, d);
  }

  /**
   * A line starting with a valid date spelled day, month, four-digit year
   * (separated by `/`, `-` or blanks) dates its block with that day, whatever follows.
   */
  lemma HeaderDateComplete(line: string, i: nat, j: nat, d: Date)
    requires ValidDate(d) && SpellsDate(line, i, j, DateSeparators, d)
    ensures HeaderDate(line, [DayMonthYear]) == Some(d)
  {
    var m := j + 5;
    HeaderMatchesSpelling(line, i, j, d);
    SpellsPrefix(line, m, i, j, DateSeparators, d);
    PrepareSpells(line[..m], i, j, d);
    PrepareAt(line[..m]);
    DmyComplete(Prepare(line[..m]), i, j, d);
  }

  /** The header pattern reads a spelled date and stops right after its year. */
  lemma HeaderMatchesSpelling(line: string, i: nat, j: nat, d: Date)
    requires ValidDate(d) && SpellsDate(line, i, j, DateSeparators, d)
    ensures Match(line, HeaderPattern).Some? && |line| - |Match(line, HeaderPattern).value.rest| == j + 5
  {
    var a, b, y, rest := line[..i], line[i + 1..j], line[j + 1..j + 5], line[j + 5..];
    assert line == a + [line[i]] + b + [line[j]] + y + rest;
    assert d.day <= 31 by {
      assert DaysInMonth(d.month, d.year) <= 31;
    }
    MatchThreeFields(a, line[i], b, line[j], y, rest, HeaderPattern);
  }

  /** The block date under the first ruleset is `d` exactly when the line starts with a spelling of `d`. */
  lemma HeaderDateExact(line: string, d: Date)
    ensures HeaderDate(line, [DayMonthYear]) == Some(d) <==>
              ValidDate(d) && exists i: nat, j: nat :: SpellsDate(line, i, j, DateSeparators, d)
  {
    if HeaderDate(line, [DayMonthYear]) == Some(d) {
      HeaderDateSound(line, d);
    }
    if ValidDate(d) && exists i: nat, j: nat :: SpellsDate(line, i, j, DateSeparators, d) {
      var i: nat, j: nat :| SpellsDate(line, i, j, DateSeparators, d);
      HeaderDateComplete(line, i, j, d);
    }
  }

  /** `is_date`: some format, in the order given, parses the prepared text. */
  lemma {:induction false} IsDateSomeFormat(text: string, formats: seq<Pattern>)
    ensures IsDate(text, formats) <==> exists k :: 0 <= k < |formats| && Strptime(Prepare(text), formats[k]).Some?
  {
    if formats != [] {
      IsDateSomeFormat(text, formats[1..]);
      assert forall k :: 1 <= k < |formats| ==> formats[1..][k - 1] == formats[k];
      if Strptime(Prepare(text), formats[0]).Some? {
        assert 0 < |formats|;
      }
      if exists k :: 0 <= k < |formats| && Strptime(Prepare(text), formats[k]).Some? {
        var k :| 0 <= k < |formats| && Strptime(Prepare(text), formats[k]).Some?;
        if k > 0 {
          assert Strptime(Prepare(text), formats[1..][k - 1]).Some?;
        }
      }
    }
  }

  // ---------------------------------------------------------------------------
  // Formats that need whitespace
  // ---------------------------------------------------------------------------

  predicate HasSpaces(p: Pattern) {
    p != [] && (p[0].Spaces? || HasSpaces(p[1..]))
  }

  lemma {:induction false} NoMatchWithoutSpace(s: string, p: Pattern)
    requires NoSpace(s) && HasSpaces(p)
    ensures Match(s, p) == None
    decreases |p|, |s| + 1
  {
    match p[0]
    case Num(_, _, maxLen, _, _) =>
      TryNumWithoutSpace(s, p, Min(maxLen, DigitRun(s)));
    case Sep(cs, orSpace) =>
      if |s| > 0 {
        NoMatchWithoutSpace(s[1..], p[1..]);
      }
    case Spaces =>
  }

  lemma {:induction false} TryNumWithoutSpace(s: string, p: Pattern, len: nat)
    requires p != [] && p[0].Num? && len <= DigitRun(s)
    requires NoSpace(s) && HasSpaces(p)
    ensures TryNum(s, p, len) == None
    decreases |p|, len
  {
    if len >= p[0].minLen {
      NoMatchWithoutSpace(s[len..], p[1..]);
      if len > 0 {
        TryNumWithoutSpace(s, p, len - 1);
      }
    }
  }

  /** A text whose only blanks are plain spaces has no whitespace once prepared. */
  lemma PrepareNoSpace(text: string)
    requires forall i :: 0 <= i < |text| ==> text[i] == ' ' || !IsSpace(text[i])
    ensures NoSpace(Prepare(text))
  {
  }

  /**
   * Formats with a blank (the second ruleset's `"%m %d %Y"` and `"%m %d"`)
   * never accept a word whose only blanks are plain spaces: `is_date` turns
   * every space into `/` before parsing, and a blank needs whitespace.
   */
  lemma {:induction false} SpacedFormatsNeverDate(text: string, formats: seq<Pattern>)
    requires forall i :: 0 <= i < |text| ==> text[i] == ' ' || !IsSpace(text[i])
    requires forall k :: 0 <= k < |formats| ==> HasSpaces(formats[k])
    ensures !IsDate(text, formats)
  {
    if formats != [] {
      PrepareNoSpace(text);
      NoMatchWithoutSpace(Prepare(text), formats[0]);
      SpacedFormatsNeverDate(text, formats[1..]);
    }
  }
}
