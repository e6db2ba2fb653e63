/** The optional value used for spreadsheet cells that are blank or could not
    be parsed, and for "no data" results the pages turn into warnings. */
module Wrappers {

  datatype Option<+T> = None | Some(value: T)
}
