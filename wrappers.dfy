/** The optional values the login screen reads: a JavaScript property that may be
    `undefined` (an absent text, an absent locale entry, an unresolved theme token,
    an unparsable date) is `None`. */
module Wrappers {
  datatype Option<+T> = None | Some(value: T)
}
