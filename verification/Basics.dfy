/** Values shared by both trees. */
module Basics {

  datatype Option<+T> = None | Some(value: T)

  /** An entry: ordered, and compared for equality by the tree, by its key alone. */
  datatype Pair = Pair(key: int, val: int)

  /** The entry of a finite map at a key, if any. */
  function Entry(contents: map<int, int>, key: int): Option<Pair> {
    if key in contents then Some(Pair(key, contents[key])) else None
  }

  /** One end of a range. */
  datatype Bound = Included(at: int) | Excluded(at: int) | Unbounded
}
