/** Command responses as the broker delivers them. */
module Deliveries {

  // Uncorrelated responses go to the asynchronous handlers and have nothing to do with
  // the pending table.
  datatype Delivery = Delivery(routingKey: string, isCorrelated: bool, body: nat)
}
