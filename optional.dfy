/** The nullable value a single-row SQL lookup (`fetchone()`) returns. */
module Optional {
  datatype Option<+T> = None | Some(value: T)
}
