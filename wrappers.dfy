/** An optional value: the editor's "no element found" and "no drag in
    progress" (JavaScript's null). */
module Wrappers {

  datatype Option<+T> = None | Some(value: T)
}
