/** Optional values, used where the program works with a value that may be
    absent (a falsy JavaScript value, or an operation that threw). */
module Wrappers {
  datatype Option<+T> = None | Some(value: T)
}
