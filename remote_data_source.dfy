/** The remote data source: asks the service for one page and maps the reply. */
module RemoteDataSource {
  import opened Wrappers
  import opened Model
  import StringExt
  import DomainMapper

  // The data source keeps its own copy of the constants and of the path rule.
  const EndpointPrefix: string := "interviews/challenges/android/doctors"
  const ResponseTypeSuffix: string := ".json"

  /** The private copy of the path rule; it agrees with the shared one on every key. */
  function ManipulateUrl(lastKey: Option<string>): (url: string)
    ensures url == StringExt.ManipulateUrl(lastKey)
  {
    if lastKey.None? || lastKey.value == "" then
      EndpointPrefix + ResponseTypeSuffix
    else
      EndpointPrefix + "-" + lastKey.value + ResponseTypeSuffix
  }

  /** What the service does with a request path: a decoded page, or an exception. */
  datatype ServiceReply = Body(raw: RawDoctors) | Thrown(failure: Failure)

  /** The request made and the result handed back. */
  datatype Fetch = Fetch(url: string, result: Result<Doctors>)

  /**
   * `getDoctorList`: requests the path for `lastKey`; a reply is mapped to the
   * domain page.  An exception, from the service or from the mapping of a
   * doctor without a rating, becomes an `Error` carrying it.
   */
  function GetDoctorList(lastKey: Option<string>, service: string -> ServiceReply, round: Rounding): (f: Fetch)
    ensures StringExt.ParseUrl(f.url) == StringExt.PageOf(lastKey)
    ensures f.url == StringExt.ManipulateUrl(lastKey)
    ensures f.result.Success? <==> service(f.url).Body? && AllRated(service(f.url).raw.doctors)
    ensures f.result.Success? ==>
      |f.result.data.doctors| == |service(f.url).raw.doctors|
      && f.result.data.lastKey == service(f.url).raw.lastKey
      && forall i :: 0 <= i < |f.result.data.doctors| ==>
           DomainMapper.ToDoctor(service(f.url).raw.doctors[i], round) == Success(f.result.data.doctors[i])
    ensures f.result.Error? && service(f.url).Thrown? ==> f.result.failure == service(f.url).failure
    ensures f.result.Error? && service(f.url).Body? ==> f.result.failure == NullRatingFailure
  {
    var url := ManipulateUrl(lastKey);
    StringExt.ParseManipulatedUrl(lastKey);
    match service(url)
    case Body(raw) => Fetch(url, DomainMapper.DomainDoctors(raw, round))
    case Thrown(e) => Fetch(url, Error(e))
  }
}
