/** The direction of a booking, as the database enumerates it. */
module Ledger {
  datatype Direction = Credit | Debit | Unknown
}
