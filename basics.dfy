/** Small shared vocabulary: an optional value, standing for a form field that
    may be absent (`undefined` in the calculator's value record). */
module Basics {

  datatype Option<+T> = None | Some(value: T)
}
