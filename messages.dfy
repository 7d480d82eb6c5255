/**
 * The shape of messages crossing the worker's message channel. A value is
 * wrapped as `{ data: value }`, the part of a browser MessageEvent that the
 * bootstrap reproduces (preamble.js:32-37).
 */
module Messages {

  /** `{ data: value }` */
  datatype Envelope<V> = Envelope(data: V)

  /** One call of the parent port's `postMessage`: the payload and the transfer list. */
  datatype Posted<V, X> = Posted(payload: Envelope<V>, transfer: X)
}
