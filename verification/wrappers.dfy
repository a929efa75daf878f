/** The Option type shared by the catalog, the aggregator and the recorder. */
module Wrappers {

  /** The conventional Some/None datatype. */
  datatype Option<+T> = None | Some(value: T)
}
