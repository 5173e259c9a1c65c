/** The hand-off of "recalibrate now" from the console's thread to the polling loop. */
module RecalibrationModel {

  datatype Gate = Idle | Requested | Running

  /** What the two threads do to the gate. The loop finishes only what it has taken. */
  datatype Op = Request | Take | Finish

  function Next(g: Gate, op: Op): Gate {
    match op
    case Request => if g.Idle? then Requested else g
    case Take => if g.Requested? then Running else g
    case Finish => Idle
  }

  /** A request was accepted, or a sweep taken. */
  predicate Succeeds(g: Gate, op: Op) {
    (op.Request? && g.Idle?) || (op.Take? && g.Requested?)
  }

  predicate CanHappen(g: Gate, op: Op) {
    op.Finish? ==> g.Running?
  }

  function After(ops: seq<Op>): Gate {
    if ops == [] then Idle else Next(After(ops[..|ops| - 1]), ops[|ops| - 1])
  }

  predicate Possible(ops: seq<Op>) {
    ops == [] || (Possible(ops[..|ops| - 1]) && CanHappen(After(ops[..|ops| - 1]), ops[|ops| - 1]))
  }

  /** How often an operation succeeded. */
  function Successes(ops: seq<Op>, op: Op): nat {
    if ops == [] then 0
    else
      var before, last := ops[..|ops| - 1], ops[|ops| - 1];
      Successes(before, op) + if last == op && Succeeds(After(before), last) then 1 else 0
  }

  function Finishes(ops: seq<Op>): nat {
    if ops == [] then 0 else Finishes(ops[..|ops| - 1]) + if ops[|ops| - 1].Finish? then 1 else 0
  }

  /** In every interleaving each accepted request leads to exactly one sweep, at most one waits, and
      at most one sweep runs. */
  lemma {:induction false} OneSweepPerRequest(ops: seq<Op>)
    requires Possible(ops)
    ensures Successes(ops, Request) == Successes(ops, Take) + if After(ops).Requested? then 1 else 0
    ensures Successes(ops, Take) == Finishes(ops) + if After(ops).Running? then 1 else 0
  {
    if ops != [] {
      OneSweepPerRequest(ops[..|ops| - 1]);
    }
  }
}

module RecalibrationDevice {
  import opened RecalibrationModel

  class RecalibrationGate {
    var state: Gate

    constructor ()
      ensures state == Idle
    {
      state := Idle;
    }

    method Request() returns (accepted: bool)
      modifies this
      ensures state == Next(old(state), Op.Request) && accepted == Succeeds(old(state), Op.Request)
    {
      accepted := state == Idle;
      if accepted {
        state := Requested;
      }
    }

    method Take() returns (taken: bool)
      modifies this
      ensures state == Next(old(state), Op.Take) && taken == Succeeds(old(state), Op.Take)
    {
      taken := state == Requested;
      if taken {
        state := Running;
      }
    }

    method Finish()
      modifies this
      ensures state == Next(old(state), Op.Finish)
    {
      state := Idle;
    }
  }
}
