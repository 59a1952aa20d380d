/**
 * The layout registry: one ruleset per bank and account type, keyed by the
 * string the detector builds. Coordinates are in tenths of a point, so the
 * table's `(95, 305)` is `Zone(950, 3050)`.
 */
module Rules {
  import opened Wrappers
  import opened Patterns

  /** A half-open horizontal band `[lo, hi)` of the page. */
  datatype Zone = Zone(lo: int, hi: int)

  datatype ColumnZones = ColumnZones(description: Zone, debit: Zone, credit: Zone, balance: Zone)

  /** Separators are single characters; `negativeTrailing` is the table's "Y"/"N" flag. */
  datatype AmountFormat = AmountFormat(thousandsSeparator: char, decimalSeparator: char, negativeTrailing: string)

  /** Candidate `strptime` formats in the order they are tried; `yearOptional` is "Y"/"N". */
  datatype DateFormat = DateFormat(formats: seq<Pattern>, yearOptional: string)

  datatype Ruleset = Ruleset(
    columnZones: ColumnZones,
    amountFormat: AmountFormat,
    dateFormat: DateFormat,
    multiline: bool,
    dateXThreshold: int)

  const AbsaChequeAccountStatement: Ruleset := Ruleset(
    ColumnZones(Zone(950, 3050), Zone(3100, 3900), Zone(3950, 4700), Zone(4750, 9990)),
    AmountFormat(' ', '.', "N"),
    DateFormat([DayMonthYear], "N"),
    true,
    950)

  const StandardBankBusinessCurrentAccount: Ruleset := Ruleset(
    ColumnZones(Zone(0, 2600), Zone(3000, 4200), Zone(4200, 5200), Zone(5200, 9990)),
    AmountFormat('.', ',', "Y"),
    DateFormat([MonthDayYearSpaced, MonthDaySpaced], "Y"),
    true,
    2600)

  const AbsaKey: string := "ABSA_CHEQUE_ACCOUNT_STATEMENT"
  const StandardBankKey: string := "STANDARD_BANK_BUSINESS_CURRENT_ACCOUNT"

  /** `PARSING_RULES` */
  const ParsingRules: map<string, Ruleset> := map[
    AbsaKey := AbsaChequeAccountStatement,
    StandardBankKey := StandardBankBusinessCurrentAccount
  ]

  /** `PARSING_RULES.get(key)` */
  function GetRules(key: string): (r: Option<Ruleset>)
    ensures r.Some? <==> key == AbsaKey || key == StandardBankKey
  {
    if key in ParsingRules then Some(ParsingRules[key]) else None
  }

  predicate ValidZone(z: Zone) {
    z.lo < z.hi
  }

  /** Each zone is non-empty and they follow each other without overlap, left to right. */
  predicate ZonesOrdered(z: ColumnZones) {
    && ValidZone(z.description) && ValidZone(z.debit) && ValidZone(z.credit) && ValidZone(z.balance)
    && z.description.hi <= z.debit.lo
    && z.debit.hi <= z.credit.lo
    && z.credit.hi <= z.balance.lo
  }

  predicate IsFlag(s: string) {
    s == "Y" || s == "N"
  }

  /** What the parser assumes of every ruleset it may be handed. */
  predicate WellFormed(r: Ruleset) {
    && ZonesOrdered(r.columnZones)
    && r.amountFormat.thousandsSeparator != r.amountFormat.decimalSeparator
    && IsFlag(r.amountFormat.negativeTrailing)
    && r.dateFormat.formats != []
    && IsFlag(r.dateFormat.yearOptional)
  }

  /** Every ruleset in the registry is well formed. */
  lemma ParsingRulesWellFormed()
    ensures forall key :: key in ParsingRules ==> WellFormed(ParsingRules[key])
  {
  }
}
