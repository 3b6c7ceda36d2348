/** Outcomes of the despiker: a value, or the reason the call fails. */
module Results {

  /** Every way a call of `despiked` can fail. */
  datatype Error =
    | BadWindow        // the window is even or shorter than 3 (first assertion)
    | BadMethod        // the method is neither "median" nor "mean" (second assertion)
    | DivisionByZero   // a window's first and last argument coincide, so h / b divides by 0
    | IndexOutOfRange  // the median rank count / 2 + 1 lies past the end of the sorted ratios

  datatype Result<+T> = Ok(value: T) | Err(error: Error)
}
