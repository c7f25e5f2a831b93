/**
 * The reduction of a request helper's status report to the load state the
 * list shows, and the live value that follows the reports.
 */
module PagingStatus {
  import opened Wrappers
  import opened Model
  import opened LoadStates

  /** The request types, in declaration order. */
  datatype RequestType = Initial | Before | After

  const RequestTypes: seq<RequestType> := [Initial, Before, After]

  datatype Status = Running | Succeeded | Failed

  /** The helper's report: a status and a (nullable) last error per request type. */
  datatype StatusReport = StatusReport(
    initial: Status, before: Status, after: Status,
    initialError: Option<Failure>, beforeError: Option<Failure>, afterError: Option<Failure>)
  {
    function StatusFor(t: RequestType): Status {
      match t
      case Initial => initial
      case Before => before
      case After => after
    }

    function ErrorFor(t: RequestType): Option<Failure> {
      match t
      case Initial => initialError
      case Before => beforeError
      case After => afterError
    }

    predicate HasRunning() {
      exists t :: t in RequestTypes && StatusFor(t) == Running
    }

    predicate HasError() {
      exists t :: t in RequestTypes && StatusFor(t) == Failed
    }
  }

  /** `getErrorFor(t)?.message` */
  function MessageFor(report: StatusReport, t: RequestType): Option<string> {
    var e := report.ErrorFor(t);
    if e.Some? then e.value.message else None
  }

  /** `mapNotNull { getErrorFor(it)?.message }` over the given types. */
  function Messages(report: StatusReport, types: seq<RequestType>): (ms: seq<string>)
    ensures |ms| <= |types|
    ensures ms == [] <==> forall i :: 0 <= i < |types| ==> MessageFor(report, types[i]).None?
    ensures ms != [] ==> exists k :: 0 <= k < |types| && MessageFor(report, types[k]) == Some(ms[0])
                                     && forall i :: 0 <= i < k ==> MessageFor(report, types[i]).None?
  {
    if types == [] then []
    else
      var m := MessageFor(report, types[0]);
      var rest := Messages(report, types[1..]);
      if m.Some? then
        [m.value] + rest
      else
        assert forall i :: 1 <= i < |types| ==> types[1..][i - 1] == types[i];
        if rest != [] then
          var k :| 0 <= k < |types[1..]| && MessageFor(report, types[1..][k]) == Some(rest[0])
                   && forall i :: 0 <= i < k ==> MessageFor(report, types[1..][i]).None?;
          assert MessageFor(report, types[k + 1]) == Some(rest[0]);
          rest
        else
          rest
  }

  /** Some request type carries an error with a message. */
  predicate HasErrorMessage(report: StatusReport) {
    exists t :: t in RequestTypes && MessageFor(report, t).Some?
  }

  /**
   * `getErrorMessage`: the first non-null error message in declaration
   * order.  `first()` throws when there is none, so one is required.
   */
  function GetErrorMessage(report: StatusReport): (msg: string)
    requires HasErrorMessage(report)
    ensures exists k :: 0 <= k < |RequestTypes| && MessageFor(report, RequestTypes[k]) == Some(msg)
                        && forall i :: 0 <= i < k ==> MessageFor(report, RequestTypes[i]).None?
  {
    var ms := Messages(report, RequestTypes);
    assert ms != [] by {
      var t :| t in RequestTypes && MessageFor(report, t).Some?;
      var i :| 0 <= i < |RequestTypes| && RequestTypes[i] == t;
    }
    ms[0]
  }

  /** The listener's `when`: running wins over errors, an error wins over done. */
  function ToLoadState(report: StatusReport): (s: LoadState)
    requires report.HasRunning() || !report.HasError() || HasErrorMessage(report)
    ensures s.Loading? <==> report.HasRunning()
    ensures s.Error? <==> !report.HasRunning() && report.HasError()
    ensures s.Done? <==> !report.HasRunning() && !report.HasError()
    ensures s.Error? ==> exists k :: 0 <= k < |RequestTypes| && MessageFor(report, RequestTypes[k]) == Some(s.error)
                                     && forall i :: 0 <= i < k ==> MessageFor(report, RequestTypes[i]).None?
  {
    if report.HasRunning() then Loading
    else if report.HasError() then LoadState.Error(GetErrorMessage(report))
    else Done
  }

  /** A running request shows as loading whatever errors the report holds. */
  lemma RunningTakesPrecedence(report: StatusReport, t: RequestType)
    requires report.StatusFor(t) == Running
    ensures ToLoadState(report) == Loading
  {
    assert t in RequestTypes;
  }

  /** The live value `createStatusLiveData` returns, with the listener it registers. */
  class StatusLiveData {
    var value: LoadState

    constructor ()
      ensures value == Loading
    {
      value := Loading;
    }

    /** The listener, called with each new report. */
    method OnReport(report: StatusReport)
      requires report.HasRunning() || !report.HasError() || HasErrorMessage(report)
      modifies this
      ensures value == ToLoadState(report)
    {
      if report.HasRunning() {
        value := Loading;
      } else if report.HasError() {
        value := LoadState.Error(GetErrorMessage(report));
      } else {
        value := Done;
      }
    }
  }
}
