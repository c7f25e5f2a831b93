/** Conversion of a decoded page into the rows of the local table. */
module ViewItemMapper {
  import opened Wrappers
  import opened Model

  /**
   * One raw doctor as a table row.  The row is built with its defaults:
   * `recentVisiting` is the construction time `now`, `isRecent` is false.
   * A null rating makes the rounding throw.
   */
  function ToViewItem(d: RawDoctor, round: Rounding, now: int): (r: Result<DoctorViewItem>)
    ensures r.Error? <==> d.rating.None?
    ensures r.Error? ==> r.failure == NullRatingFailure
    ensures r.Success? ==> r.data.id == d.id && r.data.name == d.name && r.data.photoId == d.photoId
    ensures r.Success? ==> r.data.address == d.address && r.data.phoneNumber == d.phoneNumber
    ensures r.Success? ==> r.data.rating == round(d.rating.value)
    ensures r.Success? ==> r.data.location == Location(d.latitude, d.longitude)
    ensures r.Success? && d.email.None? ==> r.data.email == ""
    ensures r.Success? && d.email.Some? ==> r.data.email == d.email.value
    ensures r.Success? && d.website.None? ==> r.data.website == ""
    ensures r.Success? && d.website.Some? ==> r.data.website == d.website.value
    ensures r.Success? ==> !r.data.isRecent && r.data.recentVisiting == now
  {
    match RoundRating(d.rating, round)
    case Error(e) => Error(e)
    case Success(rating) =>
      Success(DoctorViewItem(
        d.id,
        d.name,
        d.photoId,
        rating,
        d.address,
        Location(d.latitude, d.longitude),
        d.phoneNumber,
        d.email.GetOr(""),
        d.website.GetOr(""),
        now,
        false))
  }

  /** The doctors of a nullable page: none when the page is null. */
  function SourceDoctors(item: Option<RawDoctors>): seq<RawDoctor> {
    if item.Some? then item.value.doctors else []
  }

  /**
   * The rows of a nullable page, element by element, with its key; the first
   * doctor without a rating makes the mapping fail.
   */
  function ViewItems(item: Option<RawDoctors>, round: Rounding, now: int): (r: Result<DoctorsViewItem>)
    ensures r.Success? <==> AllRated(SourceDoctors(item))
    ensures r.Error? ==> r.failure == NullRatingFailure
    ensures r.Success? ==> |r.data.doctors| == |SourceDoctors(item)|
    ensures r.Success? ==> forall i :: 0 <= i < |r.data.doctors| ==>
              ToViewItem(SourceDoctors(item)[i], round, now) == Success(r.data.doctors[i])
    ensures item.None? ==> r == Success(DoctorsViewItem([], None))
    ensures r.Success? && item.Some? ==> r.data.lastKey == item.value.lastKey
  {
    var src := SourceDoctors(item);
    if AllRated(src) then
      Success(DoctorsViewItem(seq(|src|, i requires 0 <= i < |src| => ToViewItem(src[i], round, now).data),
                              if item.Some? then item.value.lastKey else None))
    else
      Error(NullRatingFailure)
  }

  /** `map`: builds the list one doctor at a time, in the order of the page; a throw ends it. */
  method Map(item: Option<RawDoctors>, round: Rounding, now: int) returns (r: Result<DoctorsViewItem>)
    ensures r == ViewItems(item, round, now)
  {
    var doctors: seq<DoctorViewItem> := [];
    var src := SourceDoctors(item);
    for i := 0 to |src|
      invariant |doctors| == i
      invariant forall j :: 0 <= j < i ==> src[j].rating.Some?
      invariant forall j :: 0 <= j < i ==> ToViewItem(src[j], round, now) == Success(doctors[j])
    {
      var v := ToViewItem(src[i], round, now);
      if v.Error? {
        assert !AllRated(src);
        return Error(v.failure);
      }
      doctors := doctors + [v.data];
    }
    assert AllRated(src);
    assert doctors == seq(|src|, i requires 0 <= i < |src| => ToViewItem(src[i], round, now).data);
    r := Success(DoctorsViewItem(doctors, if item.Some? then item.value.lastKey else None));
  }
}
