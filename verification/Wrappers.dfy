/** What several modules share. */
module Wrappers {
  datatype Option<+T> = None | Some(value: T)

  function Max0(x: int): nat { if x < 0 then 0 else x }
}
