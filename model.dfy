/**
 * The records of the app: the raw records decoded from the endpoint, the
 * domain records, and the row type of the local `doctors` table.  They carry
 * no behaviour of their own.
 */
module Model {
  import opened Wrappers

  /** A `Throwable`, as far as the app looks at one: its nullable message. */
  datatype Failure = Failure(message: Option<string>)

  /** The app's `Result`: `Success(data)` or `Error(failure)`. */
  datatype Result<+T> = Success(data: T) | Error(failure: Failure)

  /** `Location(Latitude, Longitude)`; the inline classes only wrap a Double. */
  datatype Location = Location(latitude: real, longitude: real)

  /** One doctor as decoded from the endpoint (raw.Doctor). */
  datatype RawDoctor = RawDoctor(
    id: string,
    name: string,
    photoId: Option<string>,
    rating: Option<real>,
    address: string,
    latitude: real,
    longitude: real,
    highlighted: bool,
    reviewCount: Option<int>,
    specialityIds: seq<int>,
    source: string,
    phoneNumber: string,
    email: Option<string>,
    website: Option<string>,
    openingHours: seq<string>,
    integration: Option<string>,
    translation: Option<string>)

  /** One page of the endpoint: the doctors and the key of the next page. */
  datatype RawDoctors = RawDoctors(doctors: seq<RawDoctor>, lastKey: Option<string>)

  /** One doctor of the domain layer (domain.Doctor): nulls replaced by defaults. */
  datatype Doctor = Doctor(
    id: string,
    name: string,
    photoId: Option<string>,
    rating: real,
    address: string,
    location: Location,
    highlighted: bool,
    reviewCount: int,
    specialityIds: seq<int>,
    source: string,
    phoneNumber: string,
    email: string,
    website: string,
    openingHours: seq<string>,
    integration: string,
    translation: string)

  datatype Doctors = Doctors(doctors: seq<Doctor>, lastKey: Option<string>)

  /**
   * A row of the `doctors` table, also the item the list shows.  `id` is the
   * primary key; `recentVisiting` is the visiting time in milliseconds as the
   * table stores it.
   */
  datatype DoctorViewItem = DoctorViewItem(
    id: string,
    name: string,
    photoId: Option<string>,
    rating: real,
    address: string,
    location: Location,
    phoneNumber: string,
    email: string,
    website: string,
    recentVisiting: int,
    isRecent: bool)

  datatype DoctorsViewItem = DoctorsViewItem(doctors: seq<DoctorViewItem>, lastKey: Option<string>)

  /** The rounding of a present rating to one decimal (floating point, left uninterpreted). */
  type Rounding = real -> real

  /** What `DecimalFormat.format` throws when it is handed a null rating. */
  const NullRatingFailure: Failure := Failure(Some("Cannot format given Object as a Number"))

  /** `rating.round()`: a present rating is rounded; formatting a null one throws. */
  function RoundRating(rating: Option<real>, round: Rounding): Result<real> {
    if rating.Some? then Success(round(rating.value)) else Error(NullRatingFailure)
  }

  /** Every doctor of a page has a rating, so mapping the page throws nothing. */
  predicate AllRated(doctors: seq<RawDoctor>) {
    forall i :: 0 <= i < |doctors| ==> doctors[i].rating.Some?
  }
}

/** The state of a paged load as the list footer shows it. */
module LoadStates {

  datatype LoadState = Loading | Done | Error(error: string)
}
