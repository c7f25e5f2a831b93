/** Conversion of a decoded page (raw records) into the domain records. */
module DomainMapper {
  import opened Wrappers
  import opened Model

  /**
   * One raw doctor as a domain doctor: nullable counts and texts get
   * defaults; a null rating makes the rounding throw.
   */
  function ToDoctor(raw: RawDoctor, round: Rounding): (r: Result<Doctor>)
    // the only failure is the rounding of a missing rating
    ensures r.Error? <==> raw.rating.None?
    ensures r.Error? ==> r.failure == NullRatingFailure
    // copied unchanged
    ensures r.Success? ==> r.data.id == raw.id && r.data.name == raw.name && r.data.photoId == raw.photoId
    ensures r.Success? ==> r.data.address == raw.address && r.data.highlighted == raw.highlighted
    ensures r.Success? ==> r.data.specialityIds == raw.specialityIds && r.data.source == raw.source
    ensures r.Success? ==> r.data.phoneNumber == raw.phoneNumber && r.data.openingHours == raw.openingHours
    // nulls replaced by defaults, present values kept
    ensures r.Success? && raw.reviewCount.None? ==> r.data.reviewCount == 0
    ensures r.Success? && raw.reviewCount.Some? ==> r.data.reviewCount == raw.reviewCount.value
    ensures r.Success? && raw.email.None? ==> r.data.email == ""
    ensures r.Success? && raw.email.Some? ==> r.data.email == raw.email.value
    ensures r.Success? && raw.website.None? ==> r.data.website == ""
    ensures r.Success? && raw.website.Some? ==> r.data.website == raw.website.value
    ensures r.Success? && raw.integration.None? ==> r.data.integration == ""
    ensures r.Success? && raw.integration.Some? ==> r.data.integration == raw.integration.value
    ensures r.Success? && raw.translation.None? ==> r.data.translation == ""
    ensures r.Success? && raw.translation.Some? ==> r.data.translation == raw.translation.value
    // derived
    ensures r.Success? ==> r.data.location == Location(raw.latitude, raw.longitude)
    ensures r.Success? ==> r.data.rating == round(raw.rating.value)
  {
    match RoundRating(raw.rating, round)
    case Error(e) => Error(e)
    case Success(rating) =>
      Success(Doctor(
        raw.id,
        raw.name,
        raw.photoId,
        rating,
        raw.address,
        Location(raw.latitude, raw.longitude),
        raw.highlighted,
        raw.reviewCount.GetOr(0),
        raw.specialityIds,
        raw.source,
        raw.phoneNumber,
        raw.email.GetOr(""),
        raw.website.GetOr(""),
        raw.openingHours,
        raw.integration.GetOr(""),
        raw.translation.GetOr("")))
  }

  /**
   * The domain page of a raw page, element by element; the first doctor
   * without a rating makes the whole page fail.
   */
  function DomainDoctors(item: RawDoctors, round: Rounding): (r: Result<Doctors>)
    ensures r.Success? <==> AllRated(item.doctors)
    ensures r.Error? ==> r.failure == NullRatingFailure
    ensures r.Success? ==> |r.data.doctors| == |item.doctors| && r.data.lastKey == item.lastKey
    ensures r.Success? ==> forall i :: 0 <= i < |item.doctors| ==>
              ToDoctor(item.doctors[i], round) == Success(r.data.doctors[i])
  {
    if AllRated(item.doctors) then
      Success(Doctors(seq(|item.doctors|, i requires 0 <= i < |item.doctors| => ToDoctor(item.doctors[i], round).data),
                      item.lastKey))
    else
      Error(NullRatingFailure)
  }

  /** `map`: builds the list one doctor at a time, in the order of the page; a throw ends it. */
  method Map(item: RawDoctors, round: Rounding) returns (r: Result<Doctors>)
    ensures r == DomainDoctors(item, round)
  {
    var doctors: seq<Doctor> := [];
    for i := 0 to |item.doctors|
      invariant |doctors| == i
      invariant forall j :: 0 <= j < i ==> item.doctors[j].rating.Some?
      invariant forall j :: 0 <= j < i ==> ToDoctor(item.doctors[j], round) == Success(doctors[j])
    {
      var d := ToDoctor(item.doctors[i], round);
      if d.Error? {
        assert !AllRated(item.doctors);
        return Error(d.failure);
      }
      doctors := doctors + [d.data];
    }
    assert AllRated(item.doctors);
    assert doctors == seq(|item.doctors|, i requires 0 <= i < |item.doctors| => ToDoctor(item.doctors[i], round).data);
    r := Success(Doctors(doctors, item.lastKey));
  }
}
