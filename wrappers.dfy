/** Option, used for values that may be absent: a BFS that finds no path, a
    Python index that raises IndexError. */
module Wrappers {

  datatype Option<+T> = None | Some(value: T)
}
