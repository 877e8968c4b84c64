/** Vocabulary shared by both simulators: trading days and the two trade directions. */
module Market {
  /** A trading day, as an ordinal; only equality and order of days matter to the model. */
  type Date = int

  /** The direction of a trade, recorded as 'BUY' or 'SELL' in the ledgers. */
  datatype Action = Buy | Sell
}
