/** The `Segment` record the decoder builds and the writer renders. */
module Segments {
  import opened Results

  /** `Range [2]int`: a byte range pair; `(0, 0)` is the "no range" default. */
  type ByteRange = (int, int)

  const NoRange: ByteRange := (0, 0)

  /** Pass-through structures the segment code stores and writes but never
      interprets; their attribute text is carried as it came. */
  datatype Key = Key(attributes: string)
  datatype MediaMap = MediaMap(attributes: string)
  datatype DateRange = DateRange(attributes: string)

  /** A `time.Time` reduced to what the segment code looks at: seconds since
      January 1 of year 1 UTC and the nanoseconds within that second. */
  datatype Time = Time(sec: int, nsec: int) {
    /** `Time.IsZero`: the zero instant, meaning "not set". */
    predicate IsZero() {
      sec == 0 && nsec == 0
    }
  }

  const ZeroTime := Time(0, 0)

  /** One media segment. `duration` is in nanoseconds. Absent optional
      fields are the Go zero values: `None` for nil pointers, `NoRange`,
      `false` and `ZeroTime`. */
  datatype Segment = Segment(
    duration: int,
    uri: string,
    range: ByteRange,
    discontinuity: bool,
    key: Option<Key>,
    mediaMap: Option<MediaMap>,
    dateRange: Option<DateRange>,
    dateTime: Time)

  /** `var seg Segment`: every field at its zero value. */
  const EmptySegment := Segment(0, "", NoRange, false, None, None, None, ZeroTime)
}
