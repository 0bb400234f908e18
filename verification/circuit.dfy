/**
 * The logic-gate puzzle: gates compute a 0/1 output from their input values,
 * and running the circuit feeds the level's inputs to the first gate and
 * each gate's output to the next, advancing to the next level when the last
 * output is the one the level asks for.
 */
module Circuit {
  import opened Common

  // ---- Gate evaluation ----

  /** A wire value: a number, or `None` for JavaScript's `null` (the output of a gate never computed). */
  type Value = Option<int>

  /** Every value is the number 1 (`every(val => val === 1)`). */
  function AllOne(ins: seq<Value>): (r: bool)
    ensures r <==> forall i :: 0 <= i < |ins| ==> ins[i] == Some(1)
  {
    if ins == [] then true else ins[0] == Some(1) && AllOne(ins[1..])
  }

  /** Some value is the number 1 (`some(val => val === 1)`). */
  function AnyOne(ins: seq<Value>): (r: bool)
    ensures r <==> exists i :: 0 <= i < |ins| && ins[i] == Some(1)
  {
    if ins == [] then false
    else if ins[0] == Some(1) then true
    else
      assert forall i :: 1 <= i < |ins| ==> ins[i] == ins[1..][i - 1];
      AnyOne(ins[1..])
  }

  /**
   * The output `computeOutput` gives a gate of type `kind` with inputs `ins`
   * when its output was `prev`: AND is 1 exactly when every input is 1 (so
   * 1 for no inputs), OR exactly when some input is 1 (so 0 for none), NOT
   * is 0 exactly when the first input is 1 (so 1 for none); any other type
   * keeps `prev`.
   */
  function GateOutput(kind: string, ins: seq<Value>, prev: Value): (r: Value)
    ensures kind == "AND" ==> (r == Some(1) <==> forall i :: 0 <= i < |ins| ==> ins[i] == Some(1))
    ensures kind == "OR" ==> (r == Some(1) <==> exists i :: 0 <= i < |ins| && ins[i] == Some(1))
    ensures kind == "NOT" ==> (r == Some(0) <==> |ins| > 0 && ins[0] == Some(1))
    ensures Known(kind) ==> r == Some(0) || r == Some(1)
    ensures !Known(kind) ==> r == prev
  {
    if kind == "AND" then Some(if AllOne(ins) then 1 else 0)
    else if kind == "OR" then Some(if AnyOne(ins) then 1 else 0)
    else if kind == "NOT" then Some(if |ins| > 0 && ins[0] == Some(1) then 0 else 1)
    else prev
  }

  /** A gate type `computeOutput` knows. */
  predicate Known(kind: string) {
    kind == "AND" || kind == "OR" || kind == "NOT"
  }

  /** A gate on the workspace. */
  class LogicGate {
    /** The number `n` of the id `gate<n>`. */
    const id: nat
    /** `type`: "AND", "OR", "NOT", or whatever the dragged icon carried. */
    const kind: string
    /** The values of the input connections. */
    var inputs: seq<Value>
    var output: Value
    const x: int
    const y: int
    var isOutputGate: bool

    constructor (id: nat, kind: string, x: int, y: int)
      ensures this.id == id && this.kind == kind && this.x == x && this.y == y
      ensures inputs == [] && output == None && !isOutputGate
    {
      this.id := id;
      this.kind := kind;
      inputs := [];
      output := None;
      this.x := x;
      this.y := y;
      isOutputGate := false;
    }

    /** `computeOutput()`: sets the output from the type and the inputs; nothing else changes. */
    method ComputeOutput()
      modifies this`output
      ensures output == GateOutput(kind, inputs, old(output))
    {
      if kind == "AND" {
        output := Some(if AllOne(inputs) then 1 else 0);
      } else if kind == "OR" {
        output := Some(if AnyOne(inputs) then 1 else 0);
      } else if kind == "NOT" {
        output := Some(if |inputs| > 0 && inputs[0] == Some(1) then 0 else 1);
      }
    }
  }

  // ---- The chain ----

  /**
   * The outputs of gates of types `kinds`, with previous outputs `prev`,
   * when the first gate gets `ins` and every later gate gets the single
   * output of the gate before it.
   */
  function ChainOutputs(kinds: seq<string>, ins: seq<Value>, prev: seq<Value>): (outs: seq<Value>)
    requires |kinds| == |prev|
    ensures |outs| == |kinds|
  {
    if kinds == [] then []
    else
      var o := GateOutput(kinds[0], ins, prev[0]);
      [o] + ChainOutputs(kinds[1..], [o], prev[1..])
  }

  /** The inputs gate `i` of the chain sees. */
  function ChainInputs(ins: seq<Value>, outs: seq<Value>, i: nat): seq<Value>
    requires i <= |outs|
  {
    if i == 0 then ins else [outs[i - 1]]
  }

  /** Each gate of the chain computes its output from the inputs the chain gives it. */
  lemma {:induction false} ChainAt(kinds: seq<string>, ins: seq<Value>, prev: seq<Value>, i: nat)
    requires |kinds| == |prev| && i < |kinds|
    ensures var outs := ChainOutputs(kinds, ins, prev);
      outs[i] == GateOutput(kinds[i], ChainInputs(ins, outs, i), prev[i])
  {
    if i > 0 {
      var o := GateOutput(kinds[0], ins, prev[0]);
      ChainAt(kinds[1..], [o], prev[1..], i - 1);
    }
  }

  /** When every gate has a known type, every output of the chain is 0 or 1, whatever the inputs. */
  lemma {:induction false} ChainBinary(kinds: seq<string>, ins: seq<Value>, prev: seq<Value>)
    requires |kinds| == |prev|
    requires forall i :: 0 <= i < |kinds| ==> Known(kinds[i])
    ensures var outs := ChainOutputs(kinds, ins, prev);
      forall i :: 0 <= i < |outs| ==> outs[i] == Some(0) || outs[i] == Some(1)
  {
    if kinds != [] {
      var o := GateOutput(kinds[0], ins, prev[0]);
      ChainBinary(kinds[1..], [o], prev[1..]);
      var outs := ChainOutputs(kinds, ins, prev);
      forall i | 0 <= i < |outs| ensures outs[i] == Some(0) || outs[i] == Some(1) {
        if i > 0 {
          assert outs[i] == ChainOutputs(kinds[1..], [o], prev[1..])[i - 1];
        }
      }
    }
  }

  // ---- Levels and the game ----

  /** A level: its number, its named inputs in declaration order, the output to reach, the gate types offered. */
  datatype Level = Level(levelNumber: nat, inputs: seq<(string, int)>, desiredOutput: int, availableGates: seq<string>)

  const Levels: seq<Level> := [
    Level(1, [("A", 1), ("B", 0)], 1, ["AND", "OR"]),
    Level(2, [("A", 0), ("B", 1)], 1, ["AND", "NOT"])
  ]

  /** `Object.values(inputs).map(val => ({ value: val }))`: the input values in declaration order. */
  function InputValues(named: seq<(string, int)>): (r: seq<Value>)
    ensures |r| == |named|
    ensures forall i :: 0 <= i < |named| ==> r[i] == Some(named[i].1)
  {
    if named == [] then [] else InputValues(named[..|named| - 1]) + [Some(named[|named| - 1].1)]
  }

  function Kinds(gs: seq<LogicGate>): (r: seq<string>)
    ensures |r| == |gs| && forall i :: 0 <= i < |gs| ==> r[i] == gs[i].kind
  {
    seq(|gs|, i requires 0 <= i < |gs| => gs[i].kind)
  }

  function Outputs(gs: seq<LogicGate>): (r: seq<Value>)
    reads set g | g in gs
    ensures |r| == |gs| && forall i :: 0 <= i < |gs| ==> r[i] == gs[i].output
  {
    seq(|gs|, i reads set g | g in gs requires 0 <= i < |gs| => gs[i].output)
  }

  /** The gates hold the outputs `outs` and the inputs the chain gives them. */
  ghost predicate Chained(gs: seq<LogicGate>, ins: seq<Value>, outs: seq<Value>)
    reads set g | g in gs
  {
    |outs| == |gs| && forall i :: 0 <= i < |gs| ==> gs[i].output == outs[i] && gs[i].inputs == ChainInputs(ins, outs, i)
  }

  /**
   * The chain after its first `i` steps: the gates before `i` hold their
   * chained outputs and inputs, gate `i` holds its chained inputs, and the
   * gates from `i` on still hold their previous outputs.
   */
  ghost predicate ChainedUpTo(gs: seq<LogicGate>, ins: seq<Value>, prev: seq<Value>, outs: seq<Value>, i: nat)
    reads set g | g in gs
  {
    && |outs| == |gs| && |prev| == |gs| && i <= |gs|
    && (forall j :: 0 <= j < i ==> gs[j].output == outs[j] && gs[j].inputs == ChainInputs(ins, outs, j))
    && (i < |gs| ==> gs[i].inputs == ChainInputs(ins, outs, i))
    && (forall j :: i <= j < |gs| ==> gs[j].output == prev[j])
  }

  /** The gates other than `gs[i]` are other objects. */
  predicate SoleAt(gs: seq<LogicGate>, i: nat) {
    i < |gs| && forall j :: 0 <= j < |gs| && j != i ==> gs[j] != gs[i]
  }

  /**
   * One turn of the `forEach`: gate `i` computes its output and, when a next
   * gate exists, that output becomes the next gate's only input.
   */
  method ChainStep(gs: seq<LogicGate>, i: nat, ghost ins: seq<Value>, ghost prev: seq<Value>, ghost outs: seq<Value>)
    requires SoleAt(gs, i) && (i + 1 < |gs| ==> SoleAt(gs, i + 1))
    requires |prev| == |gs| && outs == ChainOutputs(Kinds(gs), ins, prev)
    requires ChainedUpTo(gs, ins, prev, outs, i)
    modifies gs[i], if i + 1 < |gs| then {gs[i + 1]} else {}
    ensures ChainedUpTo(gs, ins, prev, outs, i + 1)
    ensures forall j :: 0 <= j < |gs| ==> gs[j].isOutputGate == old(gs[j].isOutputGate)
  {
    ChainAt(Kinds(gs), ins, prev, i);
    gs[i].ComputeOutput();
    assert gs[i].output == outs[i];
    if i + 1 < |gs| {
      gs[i + 1].inputs := [gs[i].output];
    }
  }

  /**
   * The `gates.forEach` of `runCircuit`: each gate in turn computes its
   * output and, when a next gate exists, becomes that gate's only input.
   * Only the gates' inputs and outputs change.
   */
  method EvaluateChain(gs: seq<LogicGate>)
    requires |gs| > 0 && Distinct(gs)
    modifies gs
    ensures Chained(gs, old(gs[0].inputs), ChainOutputs(Kinds(gs), old(gs[0].inputs), old(Outputs(gs))))
    ensures forall j :: 0 <= j < |gs| ==> gs[j].isOutputGate == old(gs[j].isOutputGate)
  {
    var n := |gs|;
    ghost var ins := gs[0].inputs;
    ghost var prev := Outputs(gs);
    ghost var outs := ChainOutputs(Kinds(gs), ins, prev);
    var i := 0;
    while i < n
      invariant 0 <= i <= n
      invariant forall j :: 0 <= j < n ==> gs[j].isOutputGate == old(gs[j].isOutputGate)
      invariant ChainedUpTo(gs, ins, prev, outs, i)
    {
      ChainStep(gs, i, ins, prev, outs);
      i := i + 1;
    }
  }

  /**
   * The gate work of `runCircuit`: the last gate is marked as the output
   * gate, the first gate gets `ins`, and the chain is evaluated. Only the
   * gates' inputs, outputs and the last gate's flag change.
   */
  method RunGates(gs: seq<LogicGate>, ins: seq<Value>)
    requires |gs| > 0 && Distinct(gs)
    modifies gs
    ensures Chained(gs, ins, ChainOutputs(Kinds(gs), ins, old(Outputs(gs))))
    ensures gs[|gs| - 1].isOutputGate
    ensures forall j :: 0 <= j < |gs| - 1 ==> gs[j].isOutputGate == old(gs[j].isOutputGate)
  {
    var n := |gs|;
    gs[n - 1].isOutputGate := true;
    gs[0].inputs := ins;
    assert forall j :: 0 <= j < n - 1 ==> gs[j] != gs[n - 1];
    assert Outputs(gs) == old(Outputs(gs));
    EvaluateChain(gs);
  }

  /** What `runCircuit` reports (the alert it shows). */
  datatype Outcome = NoGates | Incorrect | Solved | Completed

  /** The global game state of the page. */
  class Game {
    var currentLevelIndex: nat
    var gates: seq<LogicGate>
    var inputs: seq<(string, int)>
    var outputGate: LogicGate?

    /** The level index is in range or one past the last level; gates are distinct objects. */
    ghost predicate Valid()
      reads this
    {
      currentLevelIndex <= |Levels| && Distinct(gates)
    }

    /** `initGame()` without the event wiring: loads the first level. */
    constructor ()
      ensures Valid() && currentLevelIndex == 0
      ensures inputs == Levels[0].inputs && gates == [] && outputGate == null
    {
      currentLevelIndex := 0;
      inputs := Levels[0].inputs;
      gates := [];
      outputGate := null;
    }

    /** `loadLevel(levelIndex)`: takes the level's inputs and clears the workspace. */
    method LoadLevel(levelIndex: nat)
      requires levelIndex < |Levels|
      modifies this
      ensures inputs == Levels[levelIndex].inputs && gates == [] && outputGate == null
      ensures currentLevelIndex == old(currentLevelIndex)
    {
      inputs := Levels[levelIndex].inputs;
      gates := [];
      outputGate := null;
    }

    /** `addGate(type, x, y)`: appends a fresh gate numbered by the current gate count. */
    method AddGate(kind: string, x: int, y: int)
      requires Valid()
      modifies this
      ensures Valid()
      ensures |gates| == |old(gates)| + 1 && gates[..|old(gates)|] == old(gates) && fresh(gates[|gates| - 1])
      ensures gates[|gates| - 1].kind == kind && gates[|gates| - 1].id == |old(gates)|
      ensures gates[|gates| - 1].inputs == [] && gates[|gates| - 1].output == None
      ensures currentLevelIndex == old(currentLevelIndex) && inputs == old(inputs) && outputGate == old(outputGate)
    {
      var g := new LogicGate(|gates|, kind, x, y);
      DistinctAppend(gates, [g]);
      gates := gates + [g];
    }

    /**
     * The end of `runCircuit`: when the circuit's output equals the current
     * level's desired output, the level index goes up by one and the next
     * level, if any, is loaded; otherwise nothing changes.
     */
    method CheckOutput(finalOutput: Value) returns (outcome: Outcome)
      requires Valid() && currentLevelIndex < |Levels|
      modifies this
      ensures Valid()
      ensures var solved := finalOutput == Some(Levels[old(currentLevelIndex)].desiredOutput);
        && currentLevelIndex == old(currentLevelIndex) + (if solved then 1 else 0)
        && (outcome == Incorrect <==> !solved)
        && (outcome == Solved <==> solved && currentLevelIndex < |Levels|)
        && (outcome == Completed <==> solved && currentLevelIndex == |Levels|)
      ensures outcome == Solved ==> inputs == Levels[currentLevelIndex].inputs && gates == [] && outputGate == null
      ensures outcome != Solved ==> inputs == old(inputs) && gates == old(gates) && outputGate == old(outputGate)
    {
      if finalOutput == Some(Levels[currentLevelIndex].desiredOutput) {
        currentLevelIndex := currentLevelIndex + 1;
        if currentLevelIndex < |Levels| {
          LoadLevel(currentLevelIndex);
          outcome := Solved;
        } else {
          outcome := Completed;
        }
      } else {
        outcome := Incorrect;
      }
    }

    /**
     * `runCircuit()`. With no gates nothing changes. Otherwise the last gate
     * becomes the output gate, the first gate gets the level's input values,
     * each gate in turn computes its output (see `ChainOutputs`) and hands it
     * to the next gate as its only input. When the last output equals the
     * level's desired output the level index goes up by one and, if a level
     * is left, that level is loaded; otherwise the index stays.
     */
    method RunCircuit() returns (outcome: Outcome)
      requires Valid() && currentLevelIndex < |Levels|
      modifies this, gates
      ensures Valid()
      ensures old(gates) == [] ==> outcome == NoGates && unchanged(this)
      ensures old(gates) != [] ==>
        var gs := old(gates);
        var ins := InputValues(old(inputs));
        var outs := ChainOutputs(Kinds(gs), ins, old(Outputs(gs)));
        var solved := outs[|outs| - 1] == Some(Levels[old(currentLevelIndex)].desiredOutput);
        && Chained(gs, ins, outs)
        && gs[|gs| - 1].isOutputGate
        && (forall j :: 0 <= j < |gs| - 1 ==> gs[j].isOutputGate == old(gs[j].isOutputGate))
        && currentLevelIndex == old(currentLevelIndex) + (if solved then 1 else 0)
        && (outcome == Incorrect <==> !solved)
        && (outcome == Solved <==> solved && currentLevelIndex < |Levels|)
        && (outcome == Completed <==> solved && currentLevelIndex == |Levels|)
        && (outcome == Solved ==> inputs == Levels[currentLevelIndex].inputs && gates == [] && outputGate == null)
        && (outcome != Solved ==> inputs == old(inputs) && gates == gs && outputGate == gs[|gs| - 1])
    {
      if |gates| == 0 {
        return NoGates;
      }
      var gs := gates;
      var n := |gs|;
      outputGate := gs[n - 1];
      var ins := InputValues(inputs);
      ghost var outs := ChainOutputs(Kinds(gs), ins, Outputs(gs));
      assert outs == ChainOutputs(Kinds(gs), ins, old(Outputs(gs)));
      RunGates(gs, ins);
      var finalOutput := gs[n - 1].output;
      assert finalOutput == outs[n - 1];
      assert currentLevelIndex == old(currentLevelIndex) && inputs == old(inputs) && gates == gs;
      outcome := CheckOutput(finalOutput);
      assert Chained(gs, ins, outs);
    }
  }
}
