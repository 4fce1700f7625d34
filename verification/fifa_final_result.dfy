/** One row of the World Cup finals table, as the scraper extracts it. */
module FifaFinalResult {
  import opened JavaIntegers

  /** Immutable once built; no identity beyond its four fields. */
  datatype FinalResult = FinalResult(year: Int32, winner: string, score: string, runnerUp: string)
}
