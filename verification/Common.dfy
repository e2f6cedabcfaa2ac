/** Types that several modules share. */
module Common {

  datatype Option<+T> = None | Some(value: T)

  /** A cell as the engines compare it. */
  datatype Value = Null | Num(n: int)
}
