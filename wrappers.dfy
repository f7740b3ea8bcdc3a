/** Small value wrappers shared by every module of the model. */
module Wrappers {

  /** `None` stands for JavaScript's `null`, `undefined` and `NaN` number results. */
  datatype Option<+T> = None | Some(value: T)

  /** A limit that may be absent: `Unbounded` stands for the `Infinity` and
      `-Infinity` defaults of the field options. */
  datatype Bound<+T> = Unbounded | Bounded(limit: T)

  /** The two separator characters a locale uses for numbers. */
  datatype Separators = Separators(group: char, decimal: char)

  /** The separators `Intl.NumberFormat` reports for the fixed locale `en-US`. */
  const EnUs: Separators := Separators(',', '.')
}
