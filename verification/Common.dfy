/** Types and functions that several modules share. */
module Wrappers {

  datatype Option<+T> = None | Some(value: T)
}

module Powers {

  function Pow2(k: nat): nat { if k == 0 then 1 else 2 * Pow2(k - 1) }
}
