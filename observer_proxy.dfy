/**
 * The observer proxy that the doctor list registers in front of the
 * RecyclerView's own observer: it forwards every change event, moving its
 * positions down by the number of header rows.  `P` is the payload type.
 */
module ObserverProxy {

  /** The six callbacks of an adapter data observer. */
  datatype AdapterEvent<P> =
    | Changed
    | RangeChanged(positionStart: int, itemCount: int)
    | RangeChangedWithPayload(positionStart: int, itemCount: int, payload: P)
    | RangeInserted(positionStart: int, itemCount: int)
    | RangeRemoved(positionStart: int, itemCount: int)
    | RangeMoved(fromPosition: int, toPosition: int, itemCount: int)
  {
    /** The events that carry a start position and a count. */
    predicate IsRange() {
      RangeChanged? || RangeChangedWithPayload? || RangeInserted? || RangeRemoved?
    }
  }

  predicate SameKind<P>(a: AdapterEvent<P>, b: AdapterEvent<P>) {
    && (a.Changed? <==> b.Changed?)
    && (a.RangeChanged? <==> b.RangeChanged?)
    && (a.RangeChangedWithPayload? <==> b.RangeChangedWithPayload?)
    && (a.RangeInserted? <==> b.RangeInserted?)
    && (a.RangeRemoved? <==> b.RangeRemoved?)
    && (a.RangeMoved? <==> b.RangeMoved?)
  }

  /** The one event the proxy passes on for `e`. */
  function Forward<P>(e: AdapterEvent<P>, headerCount: int): (r: AdapterEvent<P>)
    ensures SameKind(r, e)
    ensures e.IsRange() ==> r.positionStart == e.positionStart + headerCount && r.itemCount == e.itemCount
    ensures e.RangeChangedWithPayload? ==> r.payload == e.payload
    ensures e.RangeMoved? ==> && r.fromPosition == e.fromPosition + headerCount
                              && r.toPosition == e.toPosition + headerCount
                              && r.toPosition - r.fromPosition == e.toPosition - e.fromPosition
                              && r.itemCount == e.itemCount
  {
    match e
    case Changed => Changed
    case RangeChanged(start, count) => RangeChanged(start + headerCount, count)
    case RangeChangedWithPayload(start, count, payload) => RangeChangedWithPayload(start + headerCount, count, payload)
    case RangeInserted(start, count) => RangeInserted(start + headerCount, count)
    case RangeRemoved(start, count) => RangeRemoved(start + headerCount, count)
    case RangeMoved(from, to, count) => RangeMoved(from + headerCount, to + headerCount, count)
  }

  /** Forwarding through a proxy with the opposite offset gives the event back. */
  lemma ForwardRoundTrip<P>(e: AdapterEvent<P>, headerCount: int)
    ensures Forward(Forward(e, headerCount), -headerCount) == e
  {
  }

  /** Two proxies in a row act as one whose offset is the sum. */
  lemma ForwardCompose<P>(e: AdapterEvent<P>, first: int, second: int)
    ensures Forward(Forward(e, first), second) == Forward(e, first + second)
  {
  }

  /** Distinct events stay distinct once forwarded. */
  lemma ForwardInjective<P>(a: AdapterEvent<P>, b: AdapterEvent<P>, headerCount: int)
    requires Forward(a, headerCount) == Forward(b, headerCount)
    ensures a == b
  {
    ForwardRoundTrip(a, headerCount);
    ForwardRoundTrip(b, headerCount);
  }
}
