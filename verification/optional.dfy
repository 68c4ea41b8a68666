/** A value that may be absent: JavaScript's `null` / `undefined` in the
    scraper's records, and "no match" for a regular expression. */
module Optional {

  datatype Option<+T> = None | Some(value: T)
}
