/** The one failure-compatible wrapper this model needs: a Go `error` result is
    either nil (None) or an error value (Some). */
module Wrappers {

  datatype Option<+T> = None | Some(value: T)
}
