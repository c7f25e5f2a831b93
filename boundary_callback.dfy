/**
 * The boundary callback that fetches the next page when the list runs out
 * of rows.  It keeps the key of the next page in `lastKey`.  The request
 * helper, the service and the response handler are outside the model: what
 * the callback asks of them is recorded, in order, in `effects`, and the
 * helper's single-flight decision arrives as `helperIdle`.
 */
module Boundary {
  import opened Wrappers
  import opened Model
  import StringExt
  import ViewItemMapper
  import PagingStatus

  /** What the callback asks of the outside world. */
  datatype Effect =
    | Requested(requestType: PagingStatus.RequestType, url: string)   // service.getDoctorList(url).enqueue
    | Handled(rows: seq<DoctorViewItem>)                              // handleResponse(rows)
    | RecordedSuccess(requestType: PagingStatus.RequestType)
    | RecordedFailure(requestType: PagingStatus.RequestType, failure: Failure)
    | Uncaught(failure: Failure)                                      // an exception escapes onResponse

  class DoctorsBoundaryCallback {
    var lastKey: Option<string>
    var effects: seq<Effect>

    constructor ()
      ensures lastKey == None && effects == []
    {
      lastKey := None;
      effects := [];
    }

    /** The table is empty: one INITIAL request for the current key's page. */
    method OnZeroItemsLoaded(helperIdle: bool)
      modifies this
      ensures lastKey == old(lastKey)
      ensures effects == old(effects) +
        if helperIdle then [Requested(PagingStatus.Initial, StringExt.ManipulateUrl(lastKey))] else []
    {
      if helperIdle {
        var url := StringExt.ManipulateUrl(lastKey);
        effects := effects + [Requested(PagingStatus.Initial, url)];
      }
    }

    /**
     * The list reached its end: request the next page when there is a key,
     * otherwise there is nothing more and the request is recorded as done.
     */
    method OnItemAtEndLoaded(itemAtEnd: DoctorViewItem, helperIdle: bool)
      modifies this
      ensures lastKey == old(lastKey)
      ensures !helperIdle ==> effects == old(effects)
      ensures helperIdle && StringExt.IsNullOrEmpty(lastKey) ==>
        effects == old(effects) + [RecordedSuccess(PagingStatus.After)]
      ensures helperIdle && !StringExt.IsNullOrEmpty(lastKey) ==>
        effects == old(effects) + [Requested(PagingStatus.After, StringExt.ManipulateUrl(lastKey))]
        && StringExt.ParseUrl(StringExt.ManipulateUrl(lastKey)) == StringExt.KeyedPage(lastKey.value)
    {
      if helperIdle {
        if !StringExt.IsNullOrEmpty(lastKey) {
          var url := StringExt.ManipulateUrl(lastKey);
          StringExt.ParseManipulatedUrl(lastKey);
          effects := effects + [Requested(PagingStatus.After, url)];
        } else {
          effects := effects + [RecordedSuccess(PagingStatus.After)];
        }
      }
    }

    /** Ignored: the list is only ever appended to. */
    method OnItemAtFrontLoaded(itemAtFront: DoctorViewItem)
      ensures unchanged(this)
    {
    }

    /**
     * The service answered the request of type `requestType`: keep the body's
     * key (none for a null body), hand the mapped rows to the handler, and
     * record success.  A doctor without a rating makes the mapping throw,
     * after the key is kept; nothing catches it, so neither the handler nor
     * the request hears of the page.  `round` and `now` are what the mapper needs.
     */
    method OnResponse(requestType: PagingStatus.RequestType, body: Option<RawDoctors>, round: Rounding, now: int)
      modifies this
      ensures lastKey == if body.Some? then body.value.lastKey else None
      ensures ViewItemMapper.ViewItems(body, round, now).Success? ==>
        effects == old(effects) + [Handled(ViewItemMapper.ViewItems(body, round, now).data.doctors),
                                   RecordedSuccess(requestType)]
      ensures ViewItemMapper.ViewItems(body, round, now).Error? ==>
        effects == old(effects) + [Uncaught(NullRatingFailure)]
    {
      lastKey := if body.Some? then body.value.lastKey else None;
      var mapped := ViewItemMapper.Map(body, round, now);
      if mapped.Error? {
        effects := effects + [Uncaught(mapped.failure)];
        return;
      }
      effects := effects + [Handled(mapped.data.doctors)];
      effects := effects + [RecordedSuccess(requestType)];
    }

    /** The request failed: record the failure; the key stays as it was. */
    method OnFailure(requestType: PagingStatus.RequestType, failure: Failure)
      modifies this
      ensures lastKey == old(lastKey)
      ensures effects == old(effects) + [RecordedFailure(requestType, failure)]
    {
      effects := effects + [RecordedFailure(requestType, failure)];
    }
  }
}
