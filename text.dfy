/**
 * The string operations of Python that the statement parser relies on:
 * `str.split()`, `str.strip()`, `" ".join(...)`, `str.lower()`/`str.upper()`,
 * `in` on strings, `str.replace` of one character, and decimal digit strings.
 */
module Text {

  /** Python's `str.isspace()`: the characters `str.split()` and `str.strip()` treat as whitespace. */
  predicate IsSpace(c: char) {
    || c == ' '
    || ('\t' <= c <= '\r')
    || ('\U{1C}' <= c <= '\U{1F}')
    || c == '\U{85}'
    || c == '\U{A0}'
    || c == '\U{1680}'
    || ('\U{2000}' <= c <= '\U{200A}')
    || c == '\U{2028}'
    || c == '\U{2029}'
    || c == '\U{202F}'
    || c == '\U{205F}'
    || c == '\U{3000}'
  }

  predicate IsDigit(c: char) {
    '0' <= c <= '9'
  }

  predicate NoSpace(s: string) {
    forall i :: 0 <= i < |s| ==> !IsSpace(s[i])
  }

  predicate AllDigits(s: string) {
    forall i :: 0 <= i < |s| ==> IsDigit(s[i])
  }

  /** A word as the PDF layer delivers it: at least one character and no whitespace. */
  predicate IsWord(s: string) {
    s != "" && NoSpace(s)
  }

  predicate AllWords(ws: seq<string>) {
    forall i :: 0 <= i < |ws| ==> IsWord(ws[i])
  }

  // ---------------------------------------------------------------------------
  // Joining and splitting
  // ---------------------------------------------------------------------------

  /** `" ".join(words)` */
  function Join(words: seq<string>): string {
    if |words| == 0 then ""
    else if |words| == 1 then words[0]
    else words[0] + " " + Join(words[1..])
  }

  /** `s` without its leading run of whitespace. */
  function TrimStart(s: string): (r: string)
    ensures |r| <= |s| && r == s[|s| - |r|..]
    ensures r == "" || !IsSpace(r[0])
    ensures forall i :: 0 <= i < |s| - |r| ==> IsSpace(s[i])
  {
    if |s| > 0 && IsSpace(s[0]) then
      var r := TrimStart(s[1..]);
      assert forall i :: 1 <= i < |s| - |r| ==> s[i] == s[1..][i - 1];
      r
    else s
  }

  /** `s` without its trailing run of whitespace. */
  function TrimEnd(s: string): (r: string)
    ensures |r| <= |s| && r == s[..|r|]
    ensures r == "" || !IsSpace(r[|r| - 1])
    ensures forall i :: |r| <= i < |s| ==> IsSpace(s[i])
  {
    if |s| > 0 && IsSpace(s[|s| - 1]) then TrimEnd(s[..|s| - 1]) else s
  }

  /** The longest prefix of `s` that holds no whitespace. */
  function WordPrefix(s: string): (r: string)
    ensures |r| <= |s| && r == s[..|r|]
    ensures NoSpace(r)
    ensures |r| == |s| || IsSpace(s[|r|])
  {
    if |s| > 0 && !IsSpace(s[0]) then
      var r := WordPrefix(s[1..]);
      assert s[1..][..|r|] == s[1..1 + |r|];
      [s[0]] + r
    else ""
  }

  /** `str.split()` without arguments: the maximal runs of non-whitespace characters, in order. */
  function Split(s: string): (r: seq<string>)
    ensures AllWords(r)
    decreases |s|
  {
    var t := TrimStart(s);
    if t == "" then []
    else
      var w := WordPrefix(t);
      assert w != "" by {
        assert !IsSpace(t[0]);
      }
      var rest := Split(t[|w|..]);
      AllWordsCons(w, rest);
      [w] + rest
  }

  lemma AllWordsCons(w: string, rest: seq<string>)
    requires IsWord(w) && AllWords(rest)
    ensures AllWords([w] + rest)
  {
    var r := [w] + rest;
    forall i | 0 <= i < |r|
      ensures IsWord(r[i])
    {
      if i > 0 {
        assert r[i] == rest[i - 1];
      }
    }
  }

  /** `s.split()[0] if s.split() else ""` */
  function FirstWord(s: string): string {
    var ws := Split(s);
    if ws == [] then "" else ws[0]
  }

  /** `str.strip()` without arguments: `s` is `r` with whitespace around it, and `r` neither starts nor ends with whitespace. */
  function Strip(s: string): (r: string)
    ensures r == "" || (!IsSpace(r[0]) && !IsSpace(r[|r| - 1]))
    ensures exists k :: Surrounds(s, r, k)
  {
    var t := TrimStart(s);
    TrimmedSurrounds(s, t, TrimEnd(t));
    TrimEnd(t)
  }

  /** Whitespace cut from the front and then from the back leaves `r` in place within `s`. */
  lemma TrimmedSurrounds(s: string, t: string, r: string)
    requires |t| <= |s| && t == s[|s| - |t|..] && forall i :: 0 <= i < |s| - |t| ==> IsSpace(s[i])
    requires |r| <= |t| && r == t[..|r|] && forall i :: |r| <= i < |t| ==> IsSpace(t[i])
    ensures Surrounds(s, r, |s| - |t|)
  {
    var k := |s| - |t|;
    assert s[k..k + |r|] == r;
    forall i | k + |r| <= i < |s|
      ensures IsSpace(s[i])
    {
      assert s[i] == t[i - k];
    }
  }

  /** `r` occurs in `s` at `k`, with only whitespace before and after it. */
  predicate Surrounds(s: string, r: string, k: int) {
    && 0 <= k && k + |r| <= |s| && s[k..k + |r|] == r
    && (forall i :: 0 <= i < k ==> IsSpace(s[i]))
    && (forall i :: k + |r| <= i < |s| ==> IsSpace(s[i]))
  }

  lemma {:induction false} WordPrefixOfWord(a: string, b: string)
    requires NoSpace(a)
    requires b == "" || IsSpace(b[0])
    ensures WordPrefix(a + b) == a
  {
    if a != "" {
      assert (a + b)[1..] == a[1..] + b;
      WordPrefixOfWord(a[1..], b);
    }
  }

  lemma {:induction false} JoinEnds(ws: seq<string>)
    requires |ws| > 0 && AllWords(ws)
    ensures |Join(ws)| > 0
    ensures Join(ws)[0] == ws[0][0]
    ensures Join(ws)[|Join(ws)| - 1] == ws[|ws| - 1][|ws[|ws| - 1]| - 1]
  {
    if |ws| > 1 {
      var rest := Join(ws[1..]);
      JoinEnds(ws[1..]);
      assert Join(ws) == ws[0] + " " + rest;
      assert IsWord(ws[0]);
      assert Join(ws)[|Join(ws)| - 1] == rest[|rest| - 1];
    } else {
      assert IsWord(ws[0]);
    }
  }

  /** Splitting a line rebuilt with `" ".join` gives back exactly its words. */
  lemma SplitAfterSpace(s: string)
    ensures Split(" " + s) == Split(s)
  {
    assert (" " + s)[1..] == s;
    assert TrimStart(" " + s) == TrimStart(s);
  }

  /** A word followed by nothing or by whitespace is the first token `str.split()` finds. */
  lemma SplitCons(w: string, tail: string)
    requires IsWord(w)
    requires tail == "" || IsSpace(tail[0])
    ensures Split(w + tail) == [w] + Split(tail)
  {
    var j := w + tail;
    assert j[0] == w[0];
    assert TrimStart(j) == j;
    WordPrefixOfWord(w, tail);
    assert j[|w|..] == tail;
  }

  /** Splitting a line rebuilt with `" ".join` gives back exactly its words. */
  lemma {:induction false} SplitJoin(ws: seq<string>)
    requires AllWords(ws)
    ensures Split(Join(ws)) == ws
  {
    if |ws| == 1 {
      SplitCons(ws[0], "");
      assert ws[0] + "" == ws[0];
    } else if |ws| > 1 {
      var rest := Join(ws[1..]);
      assert Join(ws) == ws[0] + (" " + rest);
      SplitCons(ws[0], " " + rest);
      SplitAfterSpace(rest);
      SplitJoin(ws[1..]);
      assert ws == [ws[0]] + ws[1..];
    }
  }

  /** The first whitespace-delimited token of a rebuilt line is its first word. */
  lemma FirstWordOfJoin(ws: seq<string>)
    requires |ws| > 0 && AllWords(ws)
    ensures FirstWord(Join(ws)) == ws[0]
  {
    SplitJoin(ws);
  }

  /** Stripping a line rebuilt from words leaves it unchanged. */
  lemma StripJoin(ws: seq<string>)
    requires AllWords(ws)
    ensures Strip(Join(ws)) == Join(ws)
  {
    var j := Join(ws);
    if |ws| > 0 {
      JoinEnds(ws);
    }
    assert TrimStart(j) == j;
    assert TrimEnd(j) == j;
  }

  // ---------------------------------------------------------------------------
  // Case, search and character replacement
  // ---------------------------------------------------------------------------

  function LowerChar(c: char): char {
    if 'A' <= c <= 'Z' then (c as int + 32) as char else c
  }

  function UpperChar(c: char): char {
    if 'a' <= c <= 'z' then (c as int - 32) as char else c
  }

  predicate IsUpperLetter(c: char) {
    'A' <= c <= 'Z'
  }

  predicate IsLowerLetter(c: char) {
    'a' <= c <= 'z'
  }

  /** `str.lower()`, restricted to ASCII letters: no capital is left, letters move 32 code points down the table, nothing else changes. */
  function Lower(s: string): (r: string)
    ensures |r| == |s|
    ensures forall i :: 0 <= i < |r| ==> !IsUpperLetter(r[i])
    ensures forall i :: 0 <= i < |s| ==> if IsUpperLetter(s[i]) then r[i] as int == s[i] as int + 32 else r[i] == s[i]
  {
    seq(|s|, i requires 0 <= i < |s| => LowerChar(s[i]))
  }

  /** `str.upper()`, restricted to ASCII letters: no small letter is left, letters move 32 code points up the table, nothing else changes. */
  function Upper(s: string): (r: string)
    ensures |r| == |s|
    ensures forall i :: 0 <= i < |r| ==> !IsLowerLetter(r[i])
    ensures forall i :: 0 <= i < |s| ==> if IsLowerLetter(s[i]) then r[i] as int + 32 == s[i] as int else r[i] == s[i]
  {
    seq(|s|, i requires 0 <= i < |s| => UpperChar(s[i]))
  }

  /** Lower-casing ignores case: the upper-cased text lower-cases to the same thing, and lower-casing twice changes nothing. */
  lemma LowerIgnoresCase(s: string)
    ensures Lower(Upper(s)) == Lower(s)
    ensures Lower(Lower(s)) == Lower(s)
  {
  }

  predicate StartsWith(s: string, p: string) {
    |p| <= |s| && s[..|p|] == p
  }

  /** `t in s` for strings: `t` occurs somewhere in `s`. */
  predicate Contains(s: string, t: string)
    decreases |s|
  {
    StartsWith(s, t) || (|s| > 0 && Contains(s[1..], t))
  }

  /** `t` occurs in `s` starting at index `k`. */
  predicate OccursAt(s: string, t: string, k: int) {
    0 <= k && k + |t| <= |s| && s[k..k + |t|] == t
  }

  /** `t in s` holds exactly when `t` occurs in `s` at some index. */
  lemma {:induction false} ContainsAt(s: string, t: string)
    ensures Contains(s, t) <==> exists k :: OccursAt(s, t, k)
    decreases |s|
  {
    if StartsWith(s, t) {
      assert OccursAt(s, t, 0);
    }
    if |s| > 0 {
      ContainsAt(s[1..], t);
      forall k | 0 <= k
        ensures OccursAt(s[1..], t, k) <==> OccursAt(s, t, k + 1)
      {
        if k + |t| <= |s| - 1 {
          assert s[1..][k..k + |t|] == s[k + 1..k + 1 + |t|];
        }
      }
    }
    if exists k :: OccursAt(s, t, k) {
      var k :| OccursAt(s, t, k);
      if k == 0 {
        assert StartsWith(s, t);
      } else {
        assert OccursAt(s[1..], t, k - 1);
      }
    }
  }

  /** `s.replace(a, b)` where `a` and `b` are one character each. */
  function ReplaceChar(s: string, a: char, b: char): (r: string)
    ensures |r| == |s|
    ensures forall ch :: ch in r ==> ch in s || ch == b
    ensures a != b ==> a !in r
    ensures forall i :: 0 <= i < |s| ==> r[i] == (if s[i] == a then b else s[i])
  {
    seq(|s|, i requires 0 <= i < |s| => if s[i] == a then b else s[i])
  }

  /** `s.replace(c, "")` where `c` is one character. */
  function RemoveChar(s: string, c: char): (r: string)
    ensures c !in r
    ensures |r| <= |s|
    ensures forall ch :: ch in r ==> ch in s
  {
    if s == "" then ""
    else (if s[0] == c then "" else [s[0]]) + RemoveChar(s[1..], c)
  }

  // ---------------------------------------------------------------------------
  // Decimal digit strings
  // ---------------------------------------------------------------------------

  function Pow10(k: nat): (r: nat)
    ensures r >= 1
  {
    if k == 0 then 1 else 10 * Pow10(k - 1)
  }

  function DigitValue(c: char): (v: nat)
    requires IsDigit(c)
    ensures v < 10
  {
    c as int - '0' as int
  }

  function DigitChar(d: nat): (c: char)
    requires d < 10
    ensures IsDigit(c) && DigitValue(c) == d
  {
    ('0' as int + d) as char
  }

  /** The number a string of decimal digits denotes (most significant first). */
  function DigitsValue(s: string): nat
    requires AllDigits(s)
  {
    if s == "" then 0 else DigitsValue(s[..|s| - 1]) * 10 + DigitValue(s[|s| - 1])
  }

  /** The length of the run of decimal digits at the start of `s`. */
  function DigitRun(s: string): (n: nat)
    ensures n <= |s| && AllDigits(s[..n])
    ensures n == |s| || !IsDigit(s[n])
  {
    if |s| > 0 && IsDigit(s[0]) then
      var n := DigitRun(s[1..]);
      assert s[..n + 1] == [s[0]] + s[1..][..n];
      n + 1
    else 0
  }

  /** The decimal numeral of `n`, without leading zeros. */
  function NatToDigits(n: nat): (r: string)
    ensures |r| >= 1 && AllDigits(r)
    ensures DigitsValue(r) == n
  {
    if n < 10 then [DigitChar(n)]
    else
      var p := NatToDigits(n / 10);
      var r := p + [DigitChar(n % 10)];
      assert r[..|r| - 1] == p;
      r
  }

  /** The digit run of a numeral followed by a non-digit is the numeral. */
  lemma {:induction false} DigitRunOf(a: string, b: string)
    requires AllDigits(a)
    requires b == "" || !IsDigit(b[0])
    ensures DigitRun(a + b) == |a|
  {
    if a != "" {
      assert (a + b)[1..] == a[1..] + b;
      DigitRunOf(a[1..], b);
    } else {
      assert a + b == b;
    }
  }

  /** A run of digits at the start of a text is part of its digit run. */
  lemma {:induction false} DigitRunCovers(a: string, b: string)
    requires AllDigits(a)
    ensures |a| <= DigitRun(a + b)
  {
    if a != "" {
      assert (a + b)[1..] == a[1..] + b;
      DigitRunCovers(a[1..], b);
    }
  }

  function Zeros(k: nat): (r: string)
    ensures |r| == k && AllDigits(r)
  {
    if k == 0 then "" else "0" + Zeros(k - 1)
  }

  /** The decimal numeral of `n`, left-padded with zeros to at least `width` digits. */
  function PadDigits(n: nat, width: nat): string {
    var d := NatToDigits(n);
    if |d| < width then Zeros(width - |d|) + d else d
  }

  lemma ShiftDigit(x: nat, p: nat, y: nat, d: nat)
    ensures (x * p + y) * 10 + d == x * (p * 10) + (y * 10 + d)
  {
  }

  lemma {:induction false} DigitsValueAppend(a: string, b: string)
    requires AllDigits(a) && AllDigits(b)
    ensures AllDigits(a + b)
    ensures DigitsValue(a + b) == DigitsValue(a) * Pow10(|b|) + DigitsValue(b)
  {
    assert AllDigits(a + b) by {
      forall i | 0 <= i < |a + b|
        ensures IsDigit((a + b)[i])
      {
        if i >= |a| {
          assert (a + b)[i] == b[i - |a|];
        }
      }
    }
    if b == "" {
      assert a + b == a;
    } else {
      var b' := b[..|b| - 1];
      var c := b[|b| - 1];
      assert (a + b)[..|a + b| - 1] == a + b';
      assert (a + b)[|a + b| - 1] == c;
      assert DigitsValue(b) == DigitsValue(b') * 10 + DigitValue(c);
      assert DigitsValue(a + b) == DigitsValue(a + b') * 10 + DigitValue(c);
      DigitsValueAppend(a, b');
      ShiftDigit(DigitsValue(a), Pow10(|b'|), DigitsValue(b'), DigitValue(c));
    }
  }

  lemma {:induction false} ZerosValue(k: nat)
    ensures DigitsValue(Zeros(k)) == 0
  {
    if k > 0 {
      ZerosValue(k - 1);
      DigitsValueAppend("0", Zeros(k - 1));
    }
  }

  lemma {:induction false} NatToDigitsLength(n: nat, k: nat)
    requires k >= 1 && n < Pow10(k)
    ensures |NatToDigits(n)| <= k
  {
    if n >= 10 {
      NatToDigitsLength(n / 10, k - 1);
    }
  }

  /** Zero padding keeps the value and reaches exactly `width` digits when `n` fits. */
  lemma PadDigitsSound(n: nat, width: nat)
    requires width >= 1 && n < Pow10(width)
    ensures AllDigits(PadDigits(n, width))
    ensures |PadDigits(n, width)| == width
    ensures DigitsValue(PadDigits(n, width)) == n
  {
    NatToDigitsLength(n, width);
    var d := NatToDigits(n);
    if |d| < width {
      var z := Zeros(width - |d|);
      ZerosValue(width - |d|);
      DigitsValueAppend(z, d);
      assert DigitsValue(z) * Pow10(|d|) == 0;
      assert PadDigits(n, width) == z + d;
    }
  }
}
