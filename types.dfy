/** Values shared by every stage of the LOTTR transform: optional measurements, the
    result of a call that validates its arguments, and the observation row of an
    NPMRDS feed as ingestion leaves it. */
module Types {

  /** A value that may be missing (NaN in the data frame). */
  datatype Option<+T> = None | Some(value: T)

  /** The result of a call that can raise. */
  datatype Result<+R, +E> = Success(value: R) | Failure(error: E)

  /** The hour component of a timestamp. */
  type Hour = h: int | 0 <= h <= 23

  /** The weekday of a timestamp, numbered Monday = 0 ... Sunday = 6. */
  type Weekday = d: int | 0 <= d <= 6

  /** A measurement timestamp (column DATETIME). `instant` identifies the moment, so two
      rows share a timestamp exactly when their DateTime values are equal; `weekday` and
      `hour` are its calendar components in the local time zone. */
  datatype DateTime = DateTime(instant: int, weekday: Weekday, hour: Hour)

  /** A road segment code (column tmc_code). */
  type Tmc = string

  /** One row of a feed: segment, timestamp, speed in mph (MPH) and travel time in
      seconds (TT_SEC); either measurement may be missing. */
  datatype Observation = Observation(tmc: Tmc, datetime: DateTime, mph: Option<real>, ttSec: Option<real>)

  /** The key the feeds are joined on: (tmc_code, DATETIME). */
  datatype Key = Key(tmc: Tmc, datetime: DateTime)

  function KeyOf(o: Observation): Key {
    Key(o.tmc, o.datetime)
  }
}
