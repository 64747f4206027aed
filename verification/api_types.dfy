/**
 * The record shapes the dashboard receives from the tracking backend. The
 * backend, the HTTP client and the response validation are not modelled; only
 * the shapes of the validated records are.
 */
module ApiTypes {
  import opened Wrappers

  /** A terminal as listed by the backend; every field may be null. */
  datatype Terminal = Terminal(
    terminalID: Option<string>,
    terminalCode: Option<string>,
    terminalName: Option<string>)

  /** One cargo row. The quantities are JavaScript numbers; no modelled rule
      reads them, and they are kept as integers. */
  datatype Cargo = Cargo(
    terminal: Option<string>,
    blId: int,
    blNumber: Option<string>,
    blType: Option<string>,
    cargoID: int,
    qtyOrdered: int,
    totalQtyHandled: int,
    totalQtyHandledOut: int,
    cargoType: Option<string>,
    containerID: Option<string>,
    mvvin: Option<string>,
    gcmarks: Option<string>)

  /** One tracking event of a cargo: its sequence number, a free-text
      description that may be null, and an unparsed date string. */
  datatype TrackingEvent = TrackingEvent(
    eventNo: int,
    eventDescription: Option<string>,
    eventDate: string)
}
