/** The decision of `FetchAndAnalyzeData`: the three statistics read from an
    address's statistics page are converted to numbers, a two-branch threshold
    rule decides whether the address qualifies, and a qualifying address gets a
    result whose label records the numbers. The browser session is replaced by
    the page it produced; fmt's number scanning and formatting are parameters. */
module Analyze {
  import opened Base
  import opened Text

  /** A value decoded into an `interface{}` field: Go's JSON decoder yields
      float64 for numbers and string for strings; `JOther` stands for a missing
      field, null, a boolean, an array or an object. */
  datatype JsonValue = JNumber(n: real) | JString(s: string) | JOther

  /** What one browser visit produced for an address. */
  datatype Page =
    | NavigateFailed
    | Undecodable
    | Stats(totalProfit: JsonValue, solBalance: JsonValue, winRate: JsonValue, twitterName: string)

  datatype AnalysisError = AccessFailed | JsonFailed

  /** The `(*Result, error)` pair: an error, `nil, nil` (not qualified), or a result. */
  datatype Analysis = Failed(error: AnalysisError) | NotQualified | Qualified(result: Result)

  /** The parts of fmt the analyzer uses on numbers: `Sscanf` with "%f" (None when
      it fails) and `Sprintf` with "%.2f" and "%.3f". */
  datatype Numerics = Numerics(scan: string -> Option<real>, fixed2: real -> string, fixed3: real -> string)

  /** The key in front of the win rate in a result label. */
  const WinRateKey: string := "winrate:"

  /** The type switch on one field: a number is used as it is, a string is
      scanned (a failed scan leaves the zero value), anything else stays zero. */
  function ToNumber(v: JsonValue, scan: string -> Option<real>): (x: real)
    ensures v.JNumber? ==> x == v.n
    ensures v.JString? && scan(v.s).Some? ==> x == scan(v.s).value
    ensures v.JOther? || (v.JString? && scan(v.s).None?) ==> x == 0.0
  {
    match v
    case JNumber(n) => n
    case JString(s) => (match scan(s) case Some(y) => y case None => 0.0)
    case JOther => 0.0
  }

  /** The threshold rule: a large profit with a balance and a modest win rate,
      or a moderate profit with a high win rate. */
  predicate Qualifies(profit: real, balance: real, winRate: real) {
    || (profit >= 1000000.0 && balance >= 20.0 && winRate >= 0.1)
    || (profit >= 10000.0 && winRate >= 0.755)
  }

  /** The label of a qualifying result. */
  function ResultLabel(profit: real, balance: real, winRate: real, name: string, num: Numerics): string {
    "profit:" + num.fixed2(profit) + ",balance:" + num.fixed2(balance)
      + "," + WinRateKey + num.fixed3(winRate) + ",name:" + name
  }

  /** The decision for one address and the page its visit produced. */
  function AnalyzeAddress(address: string, page: Page, num: Numerics): (a: Analysis)
    ensures a == Failed(AccessFailed) <==> page.NavigateFailed?
    ensures a == Failed(JsonFailed) <==> page.Undecodable?
    ensures a.Qualified? <==>
              page.Stats? &&
              Qualifies(ToNumber(page.totalProfit, num.scan), ToNumber(page.solBalance, num.scan),
                        ToNumber(page.winRate, num.scan))
    ensures a.NotQualified? <==>
              page.Stats? &&
              !Qualifies(ToNumber(page.totalProfit, num.scan), ToNumber(page.solBalance, num.scan),
                         ToNumber(page.winRate, num.scan))
    ensures a.Qualified? ==> a.result.address == address && Contains(a.result.labelText, WinRateKey)
    ensures a.Qualified? ==>
              a.result.labelText == ResultLabel(ToNumber(page.totalProfit, num.scan), ToNumber(page.solBalance, num.scan),
                                                ToNumber(page.winRate, num.scan), page.twitterName, num)
  {
    match page
    case NavigateFailed => Failed(AccessFailed)
    case Undecodable => Failed(JsonFailed)
    case Stats(p, b, w, name) =>
      var profit, balance, winRate := ToNumber(p, num.scan), ToNumber(b, num.scan), ToNumber(w, num.scan);
      if Qualifies(profit, balance, winRate) then
        var front := "profit:" + num.fixed2(profit) + ",balance:" + num.fixed2(balance) + ",";
        var back := num.fixed3(winRate) + ",name:" + name;
        ContainsMiddle(front, WinRateKey, back);
        assert ResultLabel(profit, balance, winRate, name, num) == front + WinRateKey + back;
        Qualified(Result(address, ResultLabel(profit, balance, winRate, name, num)))
      else
        NotQualified
  }

  /** Every qualifying address has a profit of at least 10,000 and a win rate
      of at least 0.1, whichever branch admitted it. */
  lemma QualifiesFloor(profit: real, balance: real, winRate: real)
    requires Qualifies(profit, balance, winRate)
    ensures profit >= 10000.0 && winRate >= 0.1
  {
  }

  /** Raising any of the three numbers never disqualifies an address. */
  lemma QualifiesMonotone(profit: real, balance: real, winRate: real, profit': real, balance': real, winRate': real)
    requires Qualifies(profit, balance, winRate)
    requires profit <= profit' && balance <= balance' && winRate <= winRate'
    ensures Qualifies(profit', balance', winRate')
  {
  }

  /** Neither branch subsumes the other, and the thresholds are inclusive. */
  lemma QualifiesBoundaries()
    ensures Qualifies(1000000.0, 20.0, 0.1) && !Qualifies(1000000.0, 19.99, 0.1)
    ensures Qualifies(10000.0, 0.0, 0.755) && !Qualifies(9999.99, 0.0, 0.755)
    ensures !Qualifies(999999.0, 1000.0, 0.754)
  {
  }
}
