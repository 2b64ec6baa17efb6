/** The conventional optional value: a missing table cell, a failed ontology query. */
module Wrappers {

  datatype Option<+T> = None | Some(value: T)
}
