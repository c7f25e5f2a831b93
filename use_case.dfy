/** The use case that asks the repository for a page and maps each result for the UI. */
module UseCase {
  import opened Wrappers
  import opened Model

  /** The parameters of the use case; the default has no key. */
  datatype DoctorParams = DoctorParams(lastKey: Option<string> := None)

  /** One result: a success is mapped, an error keeps its failure. */
  function MapResult<D, V>(result: Result<D>, mapper: D -> V): (r: Result<V>)
    ensures r.Success? <==> result.Success?
    ensures result.Success? ==> r.data == mapper(result.data)
    ensures result.Error? ==> r.failure == result.failure
  {
    match result
    case Success(data) => Success(mapper(data))
    case Error(failure) => Error(failure)
  }

  /** `map` over the flow of results: one output per input, in order. */
  function MapResults<D, V>(results: seq<Result<D>>, mapper: D -> V): (r: seq<Result<V>>)
    ensures |r| == |results|
    ensures forall i :: 0 <= i < |results| ==> r[i].Success? == results[i].Success?
    ensures forall i :: 0 <= i < |results| && results[i].Success? ==> r[i].data == mapper(results[i].data)
    ensures forall i :: 0 <= i < |results| && results[i].Error? ==> r[i].failure == results[i].failure
  {
    if results == [] then []
    else [MapResult(results[0], mapper)] + MapResults(results[1..], mapper)
  }

  /**
   * `execute`: the repository (a function from page key to the flow of its
   * results) is asked for exactly the key of the parameters.
   */
  function Execute<D, V>(params: DoctorParams, repository: Option<string> -> seq<Result<D>>, mapper: D -> V)
    : (r: seq<Result<V>>)
    ensures |r| == |repository(params.lastKey)|
    ensures forall i :: 0 <= i < |r| ==>
      r[i] == MapResult(repository(params.lastKey)[i], mapper)
  {
    MapResults(repository(params.lastKey), mapper)
  }

  /** Mapping with the identity changes nothing. */
  lemma {:induction false} MapResultsIdentity<D>(results: seq<Result<D>>)
    ensures MapResults(results, (d: D) => d) == results
    decreases |results|
  {
    if results != [] {
      MapResultsIdentity(results[1..]);
      assert [results[0]] + results[1..] == results;
    }
  }

  /** Mapping twice is mapping once with the composed mapper. */
  lemma {:induction false} MapResultsCompose<D, V, W>(results: seq<Result<D>>, f: D -> V, g: V -> W)
    ensures MapResults(MapResults(results, f), g) == MapResults(results, (d: D) => g(f(d)))
    decreases |results|
  {
    if results != [] {
      MapResultsCompose(results[1..], f, g);
      assert MapResults(results, f)[1..] == MapResults(results[1..], f);
    }
  }
}
