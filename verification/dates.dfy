/** Dates are day serial numbers, as QuantLib counts them. */
module Dates {

  type Date = int

}
