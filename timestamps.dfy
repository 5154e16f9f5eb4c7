/** Modification times, as both `execute`s use them (src/target.rs and
    src/builder.rs): a `SystemTime` is a number of time units since the Unix
    epoch, and the epoch is 0. */
module Timestamps {
  /** `inputs.iter().max().unwrap_or(UNIX_EPOCH)`: the newest of the input
      times, or the epoch when there are none. */
  function NewestInput(inputs: seq<nat>): (t: nat)
    ensures forall i | 0 <= i < |inputs| :: inputs[i] <= t
    ensures inputs == [] ==> t == 0
    ensures inputs != [] ==> t in inputs
  {
    if inputs == [] then 0
    else
      var rest := NewestInput(inputs[1..]);
      assert forall i | 1 <= i < |inputs| :: inputs[i] == inputs[1..][i - 1];
      if inputs[0] >= rest then inputs[0] else rest
  }

  /** `std::cmp::max` */
  function Max(a: nat, b: nat): (m: nat)
    ensures m >= a && m >= b && (m == a || m == b)
  {
    if a >= b then a else b
  }
}
