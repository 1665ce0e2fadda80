/** Result shapes shared by the day modules.

    The Rust programs never recover from an error: they panic (an `unwrap`,
    an out-of-range index, an explicit `panic!`) or exit with a status.
    `Panic` stands for every such abnormal end.  `OutOfFuel` is only produced
    by the models that bound a recursion the Rust code leaves unbounded
    (rule maps that may be cyclic, a fixpoint loop without a known bound). */
module Outcomes {

  datatype Option<+T> = None | Some(value: T)

  datatype Outcome<+T> = Done(value: T) | Panic | OutOfFuel
}
