/**
 * The fund record and the table of funds the importer writes to.
 */
module Funds {
  import opened Wrappers
  import opened Decimals
  import opened Dates

  /** A fund: a name, a strategy, an optional amount of assets under
      management and an optional inception date. */
  datatype Fund = Fund(name: string, strategy: string, aum: Option<Decimal>, inceptionDate: Option<Date>)

  /** The fund table, as the sequence of its rows in insertion order. */
  class FundStore {
    var funds: seq<Fund>

    constructor ()
      ensures funds == []
    {
      funds := [];
    }

    /** `Fund.objects.create(...)`: the database either stores the record or
        raises; `accepted` is its verdict, which the model does not compute. */
    method Create(f: Fund, accepted: bool) returns (created: bool)
      modifies this
      ensures created == accepted
      ensures funds == if accepted then old(funds) + [f] else old(funds)
    {
      created := accepted;
      if accepted {
        funds := funds + [f];
      }
    }
  }
}
