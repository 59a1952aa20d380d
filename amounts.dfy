/**
 * Amount tokens: the separator clean-up applied before conversion, the
 * conversion itself (to whole cents) and the two-decimal rendering used in
 * the output rows.
 */
module Amounts {
  import opened Wrappers
  import opened Text

  const NoBreakSpace: char := '\U{00A0}'
  const ThinSpace: char := '\U{2009}'
  const NarrowNoBreakSpace: char := '\U{202F}'

  predicate IsSpaceVariant(c: char) {
    c == NoBreakSpace || c == ThinSpace || c == NarrowNoBreakSpace || c == ' '
  }

  /** The four space variants and the thousands separator removed, in that order. */
  function StripSeparators(s: string, thousandsSep: char): (r: string)
    ensures forall ch :: ch in r ==> ch in s && !IsSpaceVariant(ch) && ch != thousandsSep
  {
    RemoveChar(RemoveChar(RemoveChar(RemoveChar(RemoveChar(s, NoBreakSpace), ThinSpace), NarrowNoBreakSpace), ' '), thousandsSep)
  }

  /**
   * `normalize_amount_string`: drop spaces and the thousands separator, turn
   * the decimal separator into '.', and with `trailingNeg` move one trailing
   * '-' to the front. The input is taken as already NFKD-normalised.
   */
  function NormalizeAmount(s: string, thousandsSep: char, decimalSep: char, trailingNeg: bool): (r: string)
    ensures forall ch :: ch in r ==> !IsSpaceVariant(ch)
    ensures thousandsSep != '.' ==> thousandsSep !in r
    ensures decimalSep != '.' ==> decimalSep !in r
    ensures forall ch :: ch in r ==> ch in s || ch == '.'
    ensures |r| <= |s|
  {
    var t := ReplaceChar(StripSeparators(s, thousandsSep), decimalSep, '.');
    if trailingNeg && |t| > 0 && t[|t| - 1] == '-' then
      assert forall ch :: ch in t[..|t| - 1] ==> ch in t;
      "-" + t[..|t| - 1]
    else t
  }

  // ---------------------------------------------------------------------------
  // Digits survive normalisation in order
  // ---------------------------------------------------------------------------

  /** The decimal digits of `s`, in order. */
  function Digits(s: string): (r: string)
    ensures AllDigits(r)
  {
    if s == "" then "" else (if IsDigit(s[0]) then [s[0]] else "") + Digits(s[1..])
  }

  lemma {:induction false} DigitsAppend(a: string, b: string)
    ensures Digits(a + b) == Digits(a) + Digits(b)
  {
    if a == "" {
      assert a + b == b;
    } else {
      var head := if IsDigit(a[0]) then [a[0]] else "";
      assert (a + b)[0] == a[0];
      assert (a + b)[1..] == a[1..] + b;
      assert Digits(a + b) == head + Digits(a[1..] + b);
      DigitsAppend(a[1..], b);
      assert Digits(a) == head + Digits(a[1..]);
    }
  }

  lemma {:induction false} DigitsRemoveChar(s: string, c: char)
    requires !IsDigit(c)
    ensures Digits(RemoveChar(s, c)) == Digits(s)
  {
    if s != "" {
      DigitsRemoveChar(s[1..], c);
      DigitsAppend(if s[0] == c then "" else [s[0]], RemoveChar(s[1..], c));
    }
  }

  lemma ReplaceCharCons(s: string, a: char, b: char)
    requires s != ""
    ensures ReplaceChar(s, a, b) == [if s[0] == a then b else s[0]] + ReplaceChar(s[1..], a, b)
  {
  }

  lemma {:induction false} DigitsReplaceChar(s: string, a: char, b: char)
    requires !IsDigit(a) && !IsDigit(b)
    ensures Digits(ReplaceChar(s, a, b)) == Digits(s)
  {
    if s != "" {
      ReplaceCharCons(s, a, b);
      var h := if s[0] == a then b else s[0];
      assert ([h] + ReplaceChar(s[1..], a, b))[1..] == ReplaceChar(s[1..], a, b);
      DigitsReplaceChar(s[1..], a, b);
    }
  }

  lemma StripKeepsDigits(s: string, thousandsSep: char)
    requires !IsDigit(thousandsSep)
    ensures Digits(StripSeparators(s, thousandsSep)) == Digits(s)
  {
    var s1 := RemoveChar(s, NoBreakSpace);
    var s2 := RemoveChar(s1, ThinSpace);
    var s3 := RemoveChar(s2, NarrowNoBreakSpace);
    var s4 := RemoveChar(s3, ' ');
    DigitsRemoveChar(s, NoBreakSpace);
    DigitsRemoveChar(s1, ThinSpace);
    DigitsRemoveChar(s2, NarrowNoBreakSpace);
    DigitsRemoveChar(s3, ' ');
    DigitsRemoveChar(s4, thousandsSep);
  }

  /** Normalisation neither loses nor reorders a digit when both separators are non-digits. */
  lemma NormalizeKeepsDigits(s: string, thousandsSep: char, decimalSep: char, trailingNeg: bool)
    requires !IsDigit(thousandsSep) && !IsDigit(decimalSep)
    ensures Digits(NormalizeAmount(s, thousandsSep, decimalSep, trailingNeg)) == Digits(s)
  {
    var s5 := StripSeparators(s, thousandsSep);
    StripKeepsDigits(s, thousandsSep);
    var t := ReplaceChar(s5, decimalSep, '.');
    DigitsReplaceChar(s5, decimalSep, '.');
    assert Digits(t) == Digits(s);
    if trailingNeg && |t| > 0 && t[|t| - 1] == '-' {
      var p := t[..|t| - 1];
      assert t == p + "-";
      DigitsAppend(p, "-");
      DigitsAppend("-", p);
      assert Digits("-") == "";
      assert NormalizeAmount(s, thousandsSep, decimalSep, trailingNeg) == "-" + p;
    } else {
      assert NormalizeAmount(s, thousandsSep, decimalSep, trailingNeg) == t;
    }
  }

  // ---------------------------------------------------------------------------
  // Idempotence and the trailing sign
  // ---------------------------------------------------------------------------

  lemma RemoveAbsent(s: string, c: char)
    requires c !in s
    ensures RemoveChar(s, c) == s
  {
  }

  lemma ReplaceAbsent(s: string, a: char, b: char)
    requires a !in s || a == b
    ensures ReplaceChar(s, a, b) == s
  {
  }

  /**
   * Without a trailing-sign rule, and with a thousands separator other than
   * '.', normalising twice is normalising once.
   */
  lemma NormalizeIdempotent(s: string, thousandsSep: char, decimalSep: char)
    requires thousandsSep != '.'
    ensures var r := NormalizeAmount(s, thousandsSep, decimalSep, false);
            NormalizeAmount(r, thousandsSep, decimalSep, false) == r
  {
    var r := NormalizeAmount(s, thousandsSep, decimalSep, false);
    RemoveAbsent(r, NoBreakSpace);
    RemoveAbsent(r, ThinSpace);
    RemoveAbsent(r, NarrowNoBreakSpace);
    RemoveAbsent(r, ' ');
    RemoveAbsent(r, thousandsSep);
    assert StripSeparators(r, thousandsSep) == r;
    ReplaceAbsent(r, decimalSep, '.');
  }

  /** The ABSA format (thousands ' ', decimal '.', no trailing sign) is idempotent. */
  lemma AbsaNormalizeIdempotent(s: string)
    ensures NormalizeAmount(NormalizeAmount(s, ' ', '.', false), ' ', '.', false)
         == NormalizeAmount(s, ' ', '.', false)
  {
    NormalizeIdempotent(s, ' ', '.');
  }

  lemma {:induction false} RemoveCharAppend(a: string, b: string, c: char)
    ensures RemoveChar(a + b, c) == RemoveChar(a, c) + RemoveChar(b, c)
  {
    if a == "" {
      assert a + b == b;
    } else {
      var head := if a[0] == c then "" else [a[0]];
      assert (a + b)[0] == a[0];
      assert (a + b)[1..] == a[1..] + b;
      assert RemoveChar(a + b, c) == head + RemoveChar(a[1..] + b, c);
      RemoveCharAppend(a[1..], b, c);
      assert RemoveChar(a, c) == head + RemoveChar(a[1..], c);
    }
  }

  lemma RemoveOtherChar(c: char, d: char)
    requires c != d
    ensures RemoveChar([c], d) == [c]
  {
    assert [c][1..] == "";
  }

  /** Stripping leaves a string without spaces and separators unchanged. */
  lemma NoSeparators(s: string, thousandsSep: char)
    requires forall ch :: ch in s ==> !IsSpaceVariant(ch) && ch != thousandsSep
    ensures StripSeparators(s, thousandsSep) == s
  {
    RemoveAbsent(s, NoBreakSpace);
    RemoveAbsent(s, ThinSpace);
    RemoveAbsent(s, NarrowNoBreakSpace);
    RemoveAbsent(s, ' ');
    RemoveAbsent(s, thousandsSep);
  }

  lemma StripSeparatorsAppend(a: string, b: string, thousandsSep: char)
    ensures StripSeparators(a + b, thousandsSep) == StripSeparators(a, thousandsSep) + StripSeparators(b, thousandsSep)
  {
    var a1, b1 := RemoveChar(a, NoBreakSpace), RemoveChar(b, NoBreakSpace);
    var a2, b2 := RemoveChar(a1, ThinSpace), RemoveChar(b1, ThinSpace);
    var a3, b3 := RemoveChar(a2, NarrowNoBreakSpace), RemoveChar(b2, NarrowNoBreakSpace);
    var a4, b4 := RemoveChar(a3, ' '), RemoveChar(b3, ' ');
    RemoveCharAppend(a, b, NoBreakSpace);
    RemoveCharAppend(a1, b1, ThinSpace);
    RemoveCharAppend(a2, b2, NarrowNoBreakSpace);
    RemoveCharAppend(a3, b3, ' ');
    RemoveCharAppend(a4, b4, thousandsSep);
  }

  /**
   * The decimal separator becomes '.' in place: a whole part and a fraction
   * that do not contain it normalise each on their own, joined by '.'.
   */
  lemma NormalizeDecimal(whole: string, fraction: string, thousandsSep: char, decimalSep: char)
    requires decimalSep !in whole && decimalSep !in fraction
    requires decimalSep != thousandsSep && !IsSpaceVariant(decimalSep)
    ensures NormalizeAmount(whole + [decimalSep] + fraction, thousandsSep, decimalSep, false)
         == StripSeparators(whole, thousandsSep) + "." + StripSeparators(fraction, thousandsSep)
  {
    var w, f := StripSeparators(whole, thousandsSep), StripSeparators(fraction, thousandsSep);
    StripAroundSeparator(whole, fraction, thousandsSep, decimalSep);
    ReplaceSeparator(w, f, decimalSep, '.');
  }

  lemma StripAroundSeparator(whole: string, fraction: string, thousandsSep: char, decimalSep: char)
    requires decimalSep != thousandsSep && !IsSpaceVariant(decimalSep)
    ensures StripSeparators(whole + [decimalSep] + fraction, thousandsSep)
         == StripSeparators(whole, thousandsSep) + [decimalSep] + StripSeparators(fraction, thousandsSep)
  {
    StripSeparatorsAppend(whole + [decimalSep], fraction, thousandsSep);
    StripSeparatorsAppend(whole, [decimalSep], thousandsSep);
    NoSeparators([decimalSep], thousandsSep);
  }

  lemma ReplaceSeparator(w: string, f: string, a: char, b: char)
    requires a !in w && a !in f
    ensures ReplaceChar(w + [a] + f, a, b) == w + [b] + f
  {
    var r := ReplaceChar(w + [a] + f, a, b);
    forall i | 0 <= i < |r|
      ensures r[i] == (w + [b] + f)[i]
    {
      if i < |w| {
        assert (w + [a] + f)[i] == w[i];
      } else if i > |w| {
        assert (w + [a] + f)[i] == f[i - |w| - 1];
      }
    }
  }

  lemma StripSeparatorsMinus(s: string, thousandsSep: char)
    requires thousandsSep != '-'
    ensures StripSeparators(s + "-", thousandsSep) == StripSeparators(s, thousandsSep) + "-"
  {
    RemoveOtherChar('-', NoBreakSpace);
    RemoveOtherChar('-', ThinSpace);
    RemoveOtherChar('-', NarrowNoBreakSpace);
    RemoveOtherChar('-', ' ');
    RemoveOtherChar('-', thousandsSep);
    var s1 := RemoveChar(s, NoBreakSpace);
    var s2 := RemoveChar(s1, ThinSpace);
    var s3 := RemoveChar(s2, NarrowNoBreakSpace);
    var s4 := RemoveChar(s3, ' ');
    RemoveCharAppend(s, "-", NoBreakSpace);
    RemoveCharAppend(s1, "-", ThinSpace);
    RemoveCharAppend(s2, "-", NarrowNoBreakSpace);
    RemoveCharAppend(s3, "-", ' ');
    RemoveCharAppend(s4, "-", thousandsSep);
  }

  /**
   * A trailing '-' becomes a leading one under the trailing-sign rule and
   * stays at the end without it.
   */
  lemma NormalizeTrailingMinus(s: string, thousandsSep: char, decimalSep: char)
    requires '-' !in s && thousandsSep != '-' && decimalSep != '-'
    ensures NormalizeAmount(s + "-", thousandsSep, decimalSep, true) == "-" + NormalizeAmount(s, thousandsSep, decimalSep, true)
    ensures NormalizeAmount(s + "-", thousandsSep, decimalSep, false) == NormalizeAmount(s, thousandsSep, decimalSep, false) + "-"
  {
    var t := ReplaceChar(StripSeparators(s, thousandsSep), decimalSep, '.');
    PreparedMinus(s, thousandsSep, decimalSep);
    assert (t + "-")[..|t + "-"| - 1] == t;
  }

  lemma PreparedMinus(s: string, thousandsSep: char, decimalSep: char)
    requires '-' !in s && thousandsSep != '-' && decimalSep != '-'
    ensures var t := ReplaceChar(StripSeparators(s, thousandsSep), decimalSep, '.');
            ReplaceChar(StripSeparators(s + "-", thousandsSep), decimalSep, '.') == t + "-" && '-' !in t
  {
    var p := StripSeparators(s, thousandsSep);
    StripSeparatorsMinus(s, thousandsSep);
    var t := ReplaceChar(p, decimalSep, '.');
    assert ReplaceChar(p + "-", decimalSep, '.') == t + "-";
  }

  // The examples below delegate to helpers that take their string literals as
  // parameters pinned by `requires`: applied to literal arguments directly,
  // the string functions are unfolded eagerly by the solver and the proofs
  // run out of resources.

  /** The Standard Bank ruleset's negative example: "800,00-" reads as "-800.00". */
  lemma NegativeExample()
    ensures NormalizeAmount("800,00-", '.', ',', true) == "-800.00"
  {
    NegativeExampleAt("800,00-", "800,00");
  }

  lemma NegativeExampleAt(s: string, a: string)
    requires a == "800,00" && s == "800,00-"
    ensures NormalizeAmount(s, '.', ',', true) == "-800.00"
  {
    assert s == a + "-";
    NoSeparators(a, '.');
    NormalizeTrailingMinus(a, '.', ',');
    DecimalComma(a, "800.00");
  }

  lemma StripSeparatorAlone(thousandsSep: char)
    requires !IsSpaceVariant(thousandsSep)
    ensures StripSeparators([thousandsSep], thousandsSep) == ""
  {
    var sep := [thousandsSep];
    RemoveOtherChar(thousandsSep, NoBreakSpace);
    RemoveOtherChar(thousandsSep, ThinSpace);
    RemoveOtherChar(thousandsSep, NarrowNoBreakSpace);
    RemoveOtherChar(thousandsSep, ' ');
    assert sep[1..] == "";
  }

  /** A thousands separator between two separator-free pieces is dropped. */
  lemma StripGrouped(whole: string, fraction: string, thousandsSep: char)
    requires !IsSpaceVariant(thousandsSep)
    requires StripSeparators(whole, thousandsSep) == whole
    requires StripSeparators(fraction, thousandsSep) == fraction
    ensures StripSeparators(whole + [thousandsSep] + fraction, thousandsSep) == whole + fraction
  {
    var grouped := whole + [thousandsSep];
    StripSeparatorsAppend(whole, [thousandsSep], thousandsSep);
    StripSeparatorAlone(thousandsSep);
    assert StripSeparators(grouped, thousandsSep) == whole;
    StripSeparatorsAppend(grouped, fraction, thousandsSep);
  }

  /** The Standard Bank ruleset's grouped example: "40.929,08" reads as "40929.08". */
  lemma GroupedExample()
    ensures NormalizeAmount("40.929,08", '.', ',', true) == "40929.08"
  {
    GroupedExampleAt("40.929,08", "40", "929,08");
  }

  lemma GroupedExampleAt(s: string, whole: string, fraction: string)
    requires whole == "40" && fraction == "929,08" && s == "40.929,08"
    ensures NormalizeAmount(s, '.', ',', true) == "40929.08"
  {
    GroupedStripped(s, whole, fraction);
    DecimalComma(StripSeparators(s, '.'), "40929.08");
  }

  lemma GroupedStripped(s: string, whole: string, fraction: string)
    requires whole == "40" && fraction == "929,08" && s == "40.929,08"
    ensures StripSeparators(s, '.') == "40929,08"
  {
    assert s == whole + ['.'] + fraction;
    NoSeparators(whole, '.');
    NoSeparators(fraction, '.');
    StripGrouped(whole, fraction, '.');
    assert whole + fraction == "40929,08";
  }

  lemma DecimalComma(t: string, r: string)
    requires (t == "40929,08" && r == "40929.08") || (t == "800,00" && r == "800.00")
    ensures ReplaceChar(t, ',', '.') == r
  {
    forall i | 0 <= i < |t| ensures ReplaceChar(t, ',', '.')[i] == r[i] {
    }
  }

  // ---------------------------------------------------------------------------
  // Conversion to cents and back
  // ---------------------------------------------------------------------------

  /** Cents denoted by a fraction of at most two digits ("5" is 50, "05" is 5). */
  function FractionCents(f: string): (c: nat)
    requires AllDigits(f) && |f| <= 2
    ensures c < 100
  {
    if |f| == 0 then 0 else if |f| == 1 then DigitValue(f[0]) * 10 else DigitValue(f[0]) * 10 + DigitValue(f[1])
  }

  /**
   * An unsigned decimal numeral: digits, optionally '.' and at most two more
   * digits, with at least one digit overall.
   */
  function ParseUnsignedCents(s: string): (r: Option<nat>)
  {
    var n := DigitRun(s);
    var rest := s[n..];
    if rest == "" then
      if n > 0 then Some(DigitsValue(s[..n]) * 100) else None
    else if rest[0] == '.' && |rest| <= 3 && AllDigits(rest[1..]) && (n > 0 || |rest| > 1) then
      Some(DigitsValue(s[..n]) * 100 + FractionCents(rest[1..]))
    else None
  }

  /** `float(s)` on a normalised amount, in cents; `None` where the model rejects the text. */
  function ParseCents(s: string): (r: Option<int>)
    ensures r.Some? ==> s != ""
    ensures r.Some? && r.value < 0 ==> s[0] == '-'
  {
    if s != "" && (s[0] == '-' || s[0] == '+') then
      var u := ParseUnsignedCents(s[1..]);
      if u.None? then None
      else if s[0] == '-' then Some(-(u.value as int))
      else Some(u.value as int)
    else
      var u := ParseUnsignedCents(s);
      if u.None? then None else Some(u.value as int)
  }

  function Abs(c: int): nat {
    if c < 0 then -c else c
  }

  /** Whole units, '.', and exactly two digits of cents. */
  function UnsignedText(m: nat): (r: string)
    ensures r != "" && IsDigit(r[0]) && IsDigit(r[|r| - 1])
    ensures forall i :: 0 <= i < |r| ==> IsDigit(r[i]) || r[i] == '.'
  {
    PadDigitsSound(m % 100, 2);
    NatToDigits(m / 100) + "." + PadDigits(m % 100, 2)
  }

  /** `f"{c:.2f}"` for an amount of `c` cents. */
  function FormatCents(c: int): (r: string)
    ensures r != "" && (c < 0 <==> r[0] == '-') && IsDigit(r[|r| - 1])
    ensures forall i :: 0 < i < |r| ==> IsDigit(r[i]) || r[i] == '.'
  {
    (if c < 0 then "-" else "") + UnsignedText(Abs(c))
  }

  /**
   * A rendered amount is already normal under any format whose decimal
   * separator is '.' and whose thousands separator is not a character of
   * a rendered amount.
   */
  lemma NormalizeFormatted(c: int, thousandsSep: char, trailingNeg: bool)
    requires !IsDigit(thousandsSep) && thousandsSep != '-' && thousandsSep != '.'
    ensures NormalizeAmount(FormatCents(c), thousandsSep, '.', trailingNeg) == FormatCents(c)
  {
    var r := FormatCents(c);
    assert forall ch :: ch in r ==> !IsSpaceVariant(ch) && ch != thousandsSep by {
      forall ch | ch in r
        ensures !IsSpaceVariant(ch) && ch != thousandsSep
      {
        var i :| 0 <= i < |r| && r[i] == ch;
        assert i == 0 ==> ch == '-' || IsDigit(ch);
      }
    }
    NoSeparators(r, thousandsSep);
    ReplaceAbsent(r, '.', '.');
    assert !IsDigit('-');
  }

  lemma TwoDigitFraction(f: string)
    requires AllDigits(f) && |f| == 2
    ensures FractionCents(f) == DigitsValue(f)
  {
    assert f[..1][..0] == "";
    assert DigitsValue(f[..1]) == DigitValue(f[0]);
  }

  lemma UnsignedRoundTrip(m: nat)
    ensures ParseUnsignedCents(UnsignedText(m)) == Some(m)
  {
    var w := NatToDigits(m / 100);
    var f := PadDigits(m % 100, 2);
    PadDigitsSound(m % 100, 2);
    TwoDigitFraction(f);
    var u := w + "." + f;
    var rest := "." + f;
    assert u == w + rest;
    DigitRunOf(w, rest);
    assert u[..|w|] == w;
    assert u[|w|..] == rest;
    assert rest[1..] == f;
    assert AllDigits(rest[1..]) && |rest| == 3 && |w| > 0;
    assert DigitsValue(w) * 100 + FractionCents(f) == m;
  }

  lemma ParseNegative(u: string, m: nat)
    requires ParseUnsignedCents(u) == Some(m)
    ensures ParseCents("-" + u) == Some(-(m as int))
  {
    assert ("-" + u)[1..] == u;
  }

  lemma ParseUnsigned(u: string, m: nat)
    requires ParseUnsignedCents(u) == Some(m)
    requires u != "" && IsDigit(u[0])
    ensures ParseCents(u) == Some(m)
  {
  }

  /** Reading back a rendered amount gives the same number of cents. */
  lemma ParseFormatCents(c: int)
    ensures ParseCents(FormatCents(c)) == Some(c)
  {
    var m := Abs(c);
    var u := UnsignedText(m);
    UnsignedRoundTrip(m);
    if c < 0 {
      ParseNegative(u, m);
    } else {
      assert FormatCents(c) == u;
      ParseUnsigned(u, m);
    }
  }
}
