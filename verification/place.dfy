/** The parts of the places API record the application reads. Coordinates and
    ratings are JSON numbers that are only ever copied, so `real` stands in
    for them; hours, minutes and counts are whole numbers.
 */
module PlaceDto {
  import opened Wrappers

  datatype LatLng = LatLng(latitude: real, longitude: real)

  datatype DisplayName = DisplayName(text: string)

  /** A point in the week: `day` 0..6 from Sunday, 24-hour `hour`, `minute`. */
  datatype DayTime = DayTime(day: nat, hour: nat, minute: nat)

  /** One opening interval; `close` is absent for places open around the clock. */
  datatype Period = Period(open: DayTime, close: Option<DayTime>)

  /** The component indexes `periods` with the same remapped weekday it uses
      for `days`, so it assumes the array is Monday-first; a description
      reads like "Monday: 9:00 AM - 5:00 PM". */
  datatype OpeningHours = OpeningHours(
    openNow: bool,
    periods: seq<Period>,
    weekdayDescriptions: seq<string>)

  datatype Place = Place(
    types: seq<string>,
    location: LatLng,
    displayName: DisplayName,
    rating: real,
    userRatingCount: nat,
    regularOpeningHours: Option<OpeningHours>)
}
