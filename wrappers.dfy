/** Rust's `Option`, shared by the canvas and the ray tracer. */
module Wrappers {
  datatype Option<+T> = None | Some(value: T)
}
