/** The optional value used for the page's "selected destination", which the
    source keeps as `null` until a search result is clicked. */
module Wrappers {

  datatype Option<+T> = None | Some(value: T)

}
