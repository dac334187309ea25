/** What several parts of the model share. */
module Common {

  datatype Option<+T> = None | Some(value: T)

  function Min(a: nat, b: nat): nat {
    if a <= b then a else b
  }

  /** Time from `earlier` to `now`, never negative. */
  function Since(now: nat, earlier: nat): nat {
    if now >= earlier then now - earlier else 0
  }
}
