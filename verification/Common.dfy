/** What several modules share. */
module Common {
  datatype Option<+T> = None | Some(value: T)

  /** SMALL_PAGE_SIZE */
  const PAGE := 4096
}
