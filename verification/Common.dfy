module Options {
  datatype Option<+T> = None | Some(value: T)
}

/** The two protocol versions, named by their curves: v0 is BN254, v1 is BLS12-381. */
module Versions {
  datatype Version = BN254 | BLS381
}
