/** Small shared vocabulary: optional values and the time base of the model. */
module Common {

  /** A nullable value, as a database column declared `null=True`. */
  datatype Option<+T> = None | Some(value: T) {
    /** The value, or `default` when the column is null. */
    function GetOr(default: T): T {
      match this
      case Some(v) => v
      case None => default
    }
  }

  /** Instants are integers counting microseconds, the resolution of the source's datetimes. */
  type Timestamp = int

  /** One second, in the model's time unit. */
  const Second: int := 1_000_000
}
