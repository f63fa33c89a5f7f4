/** Option: the outcome of an operation that the program can abandon (a panic
    through `unwrap`, an out-of-bounds index or an arithmetic overflow). */
module Wrappers {

  datatype Option<+T> = None | Some(value: T)
}
