/** An optional value: the model's stand-in for Python's "no result" outcomes
    (an IndexError on `[0]`/`[1]`, an aborted search). */
module Wrappers {

  datatype Option<+T> = None | Some(value: T)

}
