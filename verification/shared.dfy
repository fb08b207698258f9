/** What several of the models share. */
module Shared {

  datatype Option<+T> = None | Some(value: T)

  const PAGE_SIZE: nat := 4096

  function Min(a: nat, b: nat): nat { if a <= b then a else b }
}
