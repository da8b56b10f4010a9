/**
 The shared Modbus register table: eight coils, eight discrete inputs, eight
 holding registers and eight input registers, all cleared at start-up. Every
 access in the firmware happens inside a critical section, so here each read
 or write is one atomic step on an immutable value.
 */
module Registers {
  import opened NetworkEndian

  const Capacity: nat := 8

  datatype Table = Table(coils: seq<bool>, discreteInputs: seq<bool>,
                         holdings: seq<U16>, inputs: seq<U16>)
  {
    /** Every array has the configured capacity. */
    predicate Valid()
    {
      |coils| == Capacity && |discreteInputs| == Capacity
      && |holdings| == Capacity && |inputs| == Capacity
    }
  }

  /** The table as it is at start-up. */
  function NewTable(): (t: Table)
    ensures t.Valid()
    ensures forall i :: 0 <= i < Capacity ==> !t.coils[i] && !t.discreteInputs[i]
    ensures forall i :: 0 <= i < Capacity ==> t.holdings[i] == 0 && t.inputs[i] == 0
  {
    var off := seq(Capacity, _ => false);
    var zero := seq(Capacity, _ => 0);
    Table(off, off, zero, zero)
  }

  /** `b` differs from `a` at most in coil `coil` and input registers `reg`
      and `reg + 1`. */
  predicate TouchesOnly(a: Table, b: Table, coil: nat, reg: nat)
    requires a.Valid() && b.Valid()
  {
    && (forall i :: 0 <= i < Capacity && i != coil ==> b.coils[i] == a.coils[i])
    && (forall i :: 0 <= i < Capacity && i != reg && i != reg + 1 ==> b.inputs[i] == a.inputs[i])
    && b.discreteInputs == a.discreteInputs
    && b.holdings == a.holdings
  }

  /** `b` differs from `a` at most in input registers `reg` and `reg + 1`; no
      coil is written. */
  predicate TouchesOnlyInputs(a: Table, b: Table, reg: nat)
    requires a.Valid() && b.Valid()
  {
    && b.coils == a.coils
    && (forall i :: 0 <= i < Capacity && i != reg && i != reg + 1 ==> b.inputs[i] == a.inputs[i])
    && b.discreteInputs == a.discreteInputs
    && b.holdings == a.holdings
  }
}
