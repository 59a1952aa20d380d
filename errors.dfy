/** The ways a whole document can fail to parse. */
module Errors {

  datatype ParseError =
      /** No page mentions both the bank and the account type (HTTP 400). */
    | UndetectedDocument
      /** The detected key has no ruleset (HTTP 400). */
    | UnsupportedConfiguration(key: string)
      /** An amount token that `float()` rejects; the handler does not catch it. */
    | MalformedAmount(text: string)
      /** Every block was skipped (HTTP 400). */
    | NoTransactions

  /** The HTTP status of the response: the uncaught conversion error becomes a server error. */
  function Status(e: ParseError): (r: int)
    ensures r == 400 || r == 500
    ensures r == 500 <==> e.MalformedAmount?
  {
    if e.MalformedAmount? then 500 else 400
  }

  /** The response body's `detail` for the rejections the handler raises itself. */
  function Detail(e: ParseError): string {
    match e
    case UndetectedDocument => "Unable to detect bank/account type in PDF"
    case UnsupportedConfiguration(key) => "Unsupported bank/account type configuration: " + key
    case MalformedAmount(_) => "Internal Server Error"
    case NoTransactions => "No transactions found in PDF"
  }

  /** Different rejections carry different messages; only the uncaught conversion errors all read alike. */
  lemma DetailTellsApart(e1: ParseError, e2: ParseError)
    requires Detail(e1) == Detail(e2)
    ensures e1 == e2 || (e1.MalformedAmount? && e2.MalformedAmount?)
  {
    var prefix := "Unsupported bank/account type configuration: ";
    if e1.UnsupportedConfiguration? && e2.UnsupportedConfiguration? {
      assert e1.key == Detail(e1)[|prefix|..];
    }
  }
}
