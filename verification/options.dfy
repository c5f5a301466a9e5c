/** The optional-value wrapper used for components an entity may lack and for lookups that may fail. */
module Options {

  datatype Option<+T> = None | Some(value: T)
}
