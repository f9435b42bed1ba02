/** `Option` plays two parts in this model: a node link that may be null
    (`None` is `nullptr`), and the outcome of an operation that may
    dereference a deleted or null node (`None` is that undefined behaviour). */
module Wrappers {

  datatype Option<+T> = None | Some(value: T)
}
