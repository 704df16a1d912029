/** The two programs end to end, from an already-read circuit description:
    the first declares the inputs and outputs, builds the gates in file order
    and enumerates the rows running the gates in declaration order; the
    second also marks the declared inputs and outputs done, sorts the gates
    by readiness first, and enumerates with the sorted list. */
module Programs {
  import opened Bits
  import opened Gray
  import opened Gates
  import opened Signals
  import opened Scheduling
  import opened Evaluation
  import opened Netlist
  import opened Options

  /** A circuit file once read: the `INPUTVAR` names, the `OUTPUTVAR`
      names, and the gate lines in file order. */
  datatype Description = Description(inputs: seq<string>, outputs: seq<string>, gates: seq<Gate>)

  /** The names a `make*` function inserts, in order: a multiplexer inserts
      its encoding signals, then its selects, then its output; every other
      gate its inputs, then its outputs. */
  function GateNames(g: Gate): (r: seq<string>)
    ensures forall n :: n in r <==> n in Reads(g) || n in g.outputs
  {
    (if g.op == Multiplexer then g.multi else []) + g.inputs + g.outputs
  }

  /** The names the gate lines insert, in file order. */
  function AllGateNames(gs: seq<Gate>): seq<string>
  {
    if gs == [] then [] else AllGateNames(gs[..|gs| - 1]) + GateNames(gs[|gs| - 1])
  }

  /** Every name a gate line inserts is among the names all lines insert. */
  lemma {:induction false} GateNamesIncluded(gs: seq<Gate>, k: nat)
    requires k < |gs|
    ensures forall n :: n in GateNames(gs[k]) ==> n in AllGateNames(gs)
    decreases |gs|
  {
    if k < |gs| - 1 {
      var init := gs[..|gs| - 1];
      assert init[k] == gs[k];
      GateNamesIncluded(init, k);
    }
  }

  /** What the C code needs of a description to neither crash nor shift by a
      negative amount: at least one input (`genGrayCode(0)` shifts by -1), a
      first input that is not a constant (otherwise there is no head node to
      point the slot at), gates with the operand counts of their kind, and
      no gate writing a constant (`setValue` walks off the list for them). */
  predicate Runnable(d: Description)
  {
    |d.inputs| >= 1 && !IsLiteral(d.inputs[0]) &&
    forall k :: 0 <= k < |d.gates| ==> WellFormed(d.gates[k]) && forall n :: n in d.gates[k].outputs ==> !IsLiteral(n)
  }

  /** The last element of a sequence, or d when it is empty. */
  function Last(s: seq<string>, d: string): string
  {
    if s == [] then d else s[|s| - 1]
  }

  /** `inputArray`: the slots of the inputs, declared into an empty table. */
  function InputSlots(d: Description): seq<string>
  {
    Slots(d.inputs, {}, "")
  }

  /** `outputArray`: the slots of the outputs, declared after the inputs. */
  function OutputSlots(d: Description): seq<string>
  {
    Slots(d.outputs, NonLiterals(d.inputs), Last(InputSlots(d), ""))
  }

  /** The values once the file is read: every declared name is 0. */
  function InitialEnv(d: Description): Env
  {
    DeclareAll(DeclareAll(DeclareAll(map[], d.inputs), d.outputs), AllGateNames(d.gates))
  }

  /** The names marked done before sorting: the nodes the input and output
      slots point at. */
  function Seed(d: Description): set<string>
  {
    Elems(InputSlots(d)) + Elems(OutputSlots(d))
  }

  /** Slots only ever point at a known name or a name just declared, as long
      as there is a head node whenever a constant or known name comes. */
  lemma {:induction false} SlotsDeclared(names: seq<string>, known: set<string>, head: string)
    requires head in known || (names != [] && !IsLiteral(names[0]) && names[0] !in known)
    ensures |Slots(names, known, head)| == |names|
    ensures forall s :: s in Slots(names, known, head) ==> s in known + NonLiterals(names)
    decreases |names|
  {
    if names != [] {
      var h := if IsLiteral(names[0]) || names[0] in known then head else names[0];
      var known' := known + (if IsLiteral(names[0]) then {} else {names[0]});
      SlotsDeclared(names[1..], known', h);
      assert forall n :: n in names[1..] ==> n in names;
    }
  }

  /** The names in the table once the file is read. */
  lemma DeclaredNames(d: Description)
    ensures InitialEnv(d).Keys == NonLiterals(d.inputs) + NonLiterals(d.outputs) + NonLiterals(AllGateNames(d.gates))
  {
    var e1 := DeclareAll(map[], d.inputs);
    var e2 := DeclareAll(e1, d.outputs);
    DeclareAllSpec(map[], d.inputs);
    DeclareAllSpec(e1, d.outputs);
    DeclareAllSpec(e2, AllGateNames(d.gates));
  }

  /** Every declared name starts at 0. */
  lemma InitialEnvZero(d: Description)
    ensures forall n :: n in InitialEnv(d) ==> InitialEnv(d)[n] == 0
  {
    var e1 := DeclareAll(map[], d.inputs);
    var e2 := DeclareAll(e1, d.outputs);
    DeclareAllSpec(map[], d.inputs);
    DeclareAllSpec(e1, d.outputs);
    DeclareAllSpec(e2, AllGateNames(d.gates));
  }

  /** A declared port is in the table at 0 once the file is read. */
  lemma PortDeclared(d: Description, n: string)
    requires !IsLiteral(n) && (n in d.inputs || n in d.outputs)
    ensures n in InitialEnv(d) && InitialEnv(d)[n] == 0
  {
    DeclaredNames(d);
    InitialEnvZero(d);
  }

  /** A name of gate line k is in the table at 0 once the file is read. */
  lemma GateNameDeclared(d: Description, k: nat, n: string)
    requires k < |d.gates| && !IsLiteral(n) && n in GateNames(d.gates[k])
    ensures n in InitialEnv(d) && InitialEnv(d)[n] == 0
  {
    DeclaredNames(d);
    InitialEnvZero(d);
    GateNamesIncluded(d.gates, k);
  }

  /** A runnable description has slots and gates the enumeration can use. */
  lemma Layout(d: Description)
    requires Runnable(d)
    ensures |InputSlots(d)| == |d.inputs| && |OutputSlots(d)| == |d.outputs|
    ensures forall s :: s in InputSlots(d) ==> s in InitialEnv(d)
    ensures forall s :: s in OutputSlots(d) ==> s in InitialEnv(d)
    ensures AllEvaluable(d.gates, InitialEnv(d).Keys)
  {
    var keys := InitialEnv(d).Keys;
    DeclaredNames(d);
    SlotsDeclared(d.inputs, {}, "");
    assert InputSlots(d)[|d.inputs| - 1] in InputSlots(d);
    SlotsDeclared(d.outputs, NonLiterals(d.inputs), Last(InputSlots(d), ""));
    forall k | 0 <= k < |d.gates| ensures Evaluable(d.gates[k], keys) {
      GateNamesIncluded(d.gates, k);
    }
  }

  /** Reordering a gate list keeps it runnable. */
  lemma AllEvaluablePermutation(gs: seq<Gate>, o: seq<Gate>, keys: set<string>)
    requires AllEvaluable(gs, keys) && multiset(o) == multiset(gs)
    ensures AllEvaluable(o, keys)
  {
    forall k | 0 <= k < |o| ensures Evaluable(o[k], keys) {
      assert o[k] in multiset(gs);
      var j := IndexOfMember(gs, o[k]);
    }
  }

  /** What the first program prints (and the values it leaves): the gates
      run in declaration order, whatever they read. */
  function FirstRun(d: Description): Run
    requires Runnable(d)
  {
    Layout(d);
    Enumeration(InitialEnv(d), InputSlots(d), OutputSlots(d), d.gates)
  }

  /** The enumeration with the gates sorted from the done names `seed`:
      nothing, because the program never ends, when the sort gets stuck. */
  function SortedRun(d: Description, seed: set<string>): Option<Run>
    requires Runnable(d)
  {
    Layout(d);
    match Schedule(d.gates, seed)
    case None => None
    case Some(o) =>
      SchedulePermutation(d.gates, seed);
      AllEvaluablePermutation(d.gates, o, InitialEnv(d).Keys);
      Some(Enumeration(InitialEnv(d), InputSlots(d), OutputSlots(d), o))
  }

  /** What the second program prints: the sort starts from the nodes the
      input and the output slots point at. */
  function SecondRun(d: Description): Option<Run>
    requires Runnable(d)
  {
    SortedRun(d, Seed(d))
  }

  /** The second program with the sort starting from the input slots alone,
      so that a declared output counts as done only once a gate writes it. */
  function InputSeededRun(d: Description): Option<Run>
    requires Runnable(d)
  {
    SortedRun(d, Elems(InputSlots(d)))
  }

  /** When the sort succeeds, the enumeration runs with the sorted list. */
  lemma SortedRunSome(d: Description, seed: set<string>, o: seq<Gate>)
    requires Runnable(d) && Schedule(d.gates, seed) == Some(o)
    ensures (forall s :: s in InputSlots(d) ==> s in InitialEnv(d)) && (forall s :: s in OutputSlots(d) ==> s in InitialEnv(d))
    ensures AllEvaluable(o, InitialEnv(d).Keys)
    ensures SortedRun(d, seed) == Some(Enumeration(InitialEnv(d), InputSlots(d), OutputSlots(d), o))
  {
    Layout(d);
    SchedulePermutation(d.gates, seed);
    AllEvaluablePermutation(d.gates, o, InitialEnv(d).Keys);
  }

  /** When the sort succeeds, the second program enumerates with the sorted list. */
  lemma SecondRunSome(d: Description, o: seq<Gate>)
    requires Runnable(d) && Schedule(d.gates, Seed(d)) == Some(o)
    ensures (forall s :: s in InputSlots(d) ==> s in InitialEnv(d)) && (forall s :: s in OutputSlots(d) ==> s in InitialEnv(d))
    ensures AllEvaluable(o, InitialEnv(d).Keys)
    ensures SecondRun(d) == Some(Enumeration(InitialEnv(d), InputSlots(d), OutputSlots(d), o))
  {
    SortedRunSome(d, Seed(d), o);
  }

  /** The `make*` call the opcode of a gate line selects, with the names
      already read. */
  method AddGate(c: Circuit, g: Gate)
    requires c.Valid() && WellFormed(g)
    modifies c, c.table
    ensures c.Valid()
    ensures c.lines == old(c.lines) + [g]
    ensures c.table.Env() == DeclareAll(old(c.table.Env()), GateNames(g))
    ensures c.table.Done() == old(c.table.Done())
    ensures c.ordered == old(c.ordered) && c.inputSlots == old(c.inputSlots) && c.outputSlots == old(c.outputSlots)
  {
    match g.op
    case Not =>
      assert g == Gate(Not, [g.inputs[0]], [g.outputs[0]], []);
      assert GateNames(g) == [g.inputs[0], g.outputs[0]];
      c.MakeNot(g.inputs[0], g.outputs[0]);
    case Decoder =>
      assert GateNames(g) == g.inputs + g.outputs;
      c.MakeDecoder(g.inputs, g.outputs);
    case Multiplexer =>
      assert g.outputs == [g.outputs[0]];
      assert GateNames(g) == g.multi + g.inputs + [g.outputs[0]];
      c.MakeMultiplexer(g.multi, g.inputs, g.outputs[0]);
    case _ =>
      assert g == Gate(g.op, [g.inputs[0], g.inputs[1]], [g.outputs[0]], []);
      assert GateNames(g) == [g.inputs[0], g.inputs[1], g.outputs[0]];
      c.MakeBinary(g.op, g.inputs[0], g.inputs[1], g.outputs[0]);
  }

  /** The gate-reading loop: one `make*` call per line, in file order. */
  method AddGates(c: Circuit, gates: seq<Gate>)
    requires c.Valid() && forall k :: 0 <= k < |gates| ==> WellFormed(gates[k])
    modifies c, c.table
    ensures c.Valid()
    ensures c.lines == old(c.lines) + gates
    ensures c.table.Env() == DeclareAll(old(c.table.Env()), AllGateNames(gates))
    ensures c.table.Done() == old(c.table.Done())
    ensures c.ordered == old(c.ordered) && c.inputSlots == old(c.inputSlots) && c.outputSlots == old(c.outputSlots)
  {
    for i := 0 to |gates|
      invariant c.Valid()
      invariant c.lines == old(c.lines) + gates[..i]
      invariant c.table.Env() == DeclareAll(old(c.table.Env()), AllGateNames(gates[..i]))
      invariant c.table.Done() == old(c.table.Done())
      invariant c.ordered == old(c.ordered) && c.inputSlots == old(c.inputSlots) && c.outputSlots == old(c.outputSlots)
    {
      AddGate(c, gates[i]);
      assert gates[..i + 1][..i] == gates[..i];
      DeclareAllConcat(old(c.table.Env()), AllGateNames(gates[..i]), GateNames(gates[i]));
      assert old(c.lines) + gates[..i + 1] == old(c.lines) + gates[..i] + [gates[i]];
    }
    assert gates[..|gates|] == gates;
  }

  /** The `INPUTVAR` and `OUTPUTVAR` loops on an empty table: the inputs,
      then the outputs, each slot taking the node at the head; the second
      program marks each of those nodes done. */
  method DeclarePorts(c: Circuit, d: Description, markDone: bool)
    requires Runnable(d) && c.Valid()
    requires c.table.vars == [] && c.lines == [] && c.ordered == []
    modifies c, c.table
    ensures c.Valid() && c.lines == [] && c.ordered == []
    ensures c.inputSlots == InputSlots(d) && c.outputSlots == OutputSlots(d)
    ensures c.table.Env() == DeclareAll(DeclareAll(map[], d.inputs), d.outputs)
    ensures c.table.Done() == if markDone then Seed(d) else {}
  {
    assert c.table.Names() == {} && HeadName(c.table) == "" && c.table.Env() == map[] && c.table.Done() == {};
    var inSlots := c.Declare(d.inputs, markDone);
    assert inSlots == InputSlots(d) && inSlots != [];
    ghost var inDone := if markDone then Elems(inSlots) else {};
    assert c.table.Done() == inDone;
    assert c.table.Names() == NonLiterals(d.inputs) && HeadName(c.table) == Last(inSlots, "");
    var outSlots := c.Declare(d.outputs, markDone);
    assert outSlots == OutputSlots(d);
    assert c.table.Done() == inDone + if markDone then Elems(outSlots) else {};
    c.SetSlots(inSlots, outSlots);
  }

  /** The reading phase both programs share: declare the inputs and the
      outputs, then build every gate. */
  method Load(d: Description, markDone: bool) returns (c: Circuit)
    requires Runnable(d)
    ensures fresh(c) && fresh(c.table) && c.Valid()
    ensures c.lines == d.gates && c.ordered == []
    ensures c.inputSlots == InputSlots(d) && c.outputSlots == OutputSlots(d)
    ensures c.table.Env() == InitialEnv(d)
    ensures c.table.Done() == if markDone then Seed(d) else {}
  {
    c := new Circuit();
    DeclarePorts(c, d, markDone);
    AddGates(c, d.gates);
  }

  /** `main` of the first program, from the reading on: the rows it prints. */
  method RunFirst(d: Description) returns (rows: seq<Row>)
    requires Runnable(d)
    ensures rows == FirstRun(d).rows
  {
    var c := Load(d, false);
    Layout(d);
    rows := c.Enumerate();
  }

  /** `main` of the second program, from the reading on: None when the
      sorting loop would run forever, otherwise the rows it prints. */
  method RunSecond(d: Description) returns (r: Option<seq<Row>>)
    requires Runnable(d)
    ensures r.None? <==> SecondRun(d).None?
    ensures r.Some? ==> r.value == SecondRun(d).value.rows
  {
    var c := Load(d, true);
    var ok := c.ScheduleGates();
    if !ok {
      return None;
    }
    ghost var o := Schedule(d.gates, Seed(d)).value;
    assert c.lines == o;
    SecondRunSome(d, o);
    var rows := c.Enumerate();
    r := Some(rows);
  }

  /** The ports are plain: the inputs are distinct non-constant names, the
      outputs are non-constant names distinct from each other and from the
      inputs, and no gate writes an input. */
  ghost predicate PlainPorts(d: Description)
  {
    Distinct(d.inputs + d.outputs) &&
    (forall n :: n in d.inputs + d.outputs ==> !IsLiteral(n)) &&
    (forall k, n :: 0 <= k < |d.gates| && n in d.inputs ==> n !in d.gates[k].outputs)
  }

  /** With plain ports every slot points at its own name, so the second
      program marks exactly the declared inputs and outputs done. */
  lemma PlainPortsSlots(d: Description)
    requires PlainPorts(d)
    ensures Distinct(d.inputs)
    ensures InputSlots(d) == d.inputs && OutputSlots(d) == d.outputs
    ensures Seed(d) == Elems(d.inputs) + Elems(d.outputs)
  {
    DistinctParts(d.inputs, d.outputs);
    SlotsOfNewNames(d.inputs, {}, "");
    SlotsOfNewNames(d.outputs, NonLiterals(d.inputs), Last(InputSlots(d), ""));
  }

  /** The two halves of a list without repeats have no repeats and no
      element in common. */
  lemma DistinctParts(a: seq<string>, b: seq<string>)
    requires Distinct(a + b)
    ensures Distinct(a) && Distinct(b)
    ensures forall x :: x in b ==> x !in a
  {
    var ab := a + b;
    forall i, j | 0 <= i < j < |a| ensures a[i] != a[j] {
      assert ab[i] == a[i] && ab[j] == a[j];
    }
    forall i, j | 0 <= i < j < |b| ensures b[i] != b[j] {
      assert ab[|a| + i] == b[i] && ab[|a| + j] == b[j];
    }
    forall x | x in b ensures x !in a {
      var j :| 0 <= j < |b| && b[j] == x;
      forall i | 0 <= i < |a| ensures a[i] != x {
        assert ab[i] == a[i] && ab[|a| + j] == x;
      }
    }
  }

  /** The first program prints 2^m rows when there is a gate and none
      otherwise; with plain ports its input columns run through the Gray
      code, starting from all zeros and changing one input per row. */
  lemma FirstRows(d: Description)
    requires Runnable(d)
    ensures |FirstRun(d).rows| == if d.gates == [] then 0 else Pow2(|d.inputs|)
    ensures PlainPorts(d) && d.gates != [] ==> GrayColumns(FirstRun(d).rows, |d.inputs|)
  {
    Layout(d);
    EnumerationLength(InitialEnv(d), InputSlots(d), OutputSlots(d), d.gates);
    if PlainPorts(d) && d.gates != [] {
      PlainPortsSlots(d);
      EnumerationGrayOrder(InitialEnv(d), d.inputs, d.outputs, d.gates);
    }
  }

  /** Reordering the gates keeps every input unwritten. */
  lemma NoInputWritten(gs: seq<Gate>, o: seq<Gate>, ins: seq<string>)
    requires multiset(o) == multiset(gs)
    requires forall k, n :: 0 <= k < |gs| && n in ins ==> n !in gs[k].outputs
    ensures forall k, n :: 0 <= k < |o| && n in ins ==> n !in o[k].outputs
  {
    forall k, n | 0 <= k < |o| && n in ins ensures n !in o[k].outputs {
      assert o[k] in multiset(gs);
      var j := IndexOfMember(gs, o[k]);
    }
  }

  /** The same holds of the second program whenever its sort succeeds: the
      sorted list holds the same gates, so it too writes no input. */
  lemma SecondRows(d: Description)
    requires Runnable(d) && SecondRun(d).Some?
    ensures |SecondRun(d).value.rows| == if d.gates == [] then 0 else Pow2(|d.inputs|)
    ensures PlainPorts(d) && d.gates != [] ==> GrayColumns(SecondRun(d).value.rows, |d.inputs|)
  {
    var o := Schedule(d.gates, Seed(d)).value;
    SecondRunSome(d, o);
    var env, ins, outs := InitialEnv(d), InputSlots(d), OutputSlots(d);
    assert SecondRun(d).value.rows == Enumeration(env, ins, outs, o).rows;
    SchedulePermutation(d.gates, Seed(d));
    assert |o| == |d.gates| by {
      assert |multiset(o)| == |multiset(d.gates)|;
    }
    EnumerationLength(env, ins, outs, o);
    Layout(d);
    assert |SecondRun(d).value.rows| == if o == [] then 0 else Pow2(|ins|);
    if PlainPorts(d) && d.gates != [] {
      PlainPortsSlots(d);
      NoInputWritten(d.gates, o, d.inputs);
      EnumerationGrayOrder(env, ins, outs, o);
    }
  }

  /** The second program gets stuck exactly when no order of the gates has
      every gate read only constants, the nodes marked done at the start,
      and outputs of earlier gates. */
  lemma SecondStuckIff(d: Description)
    requires Runnable(d)
    ensures SecondRun(d).None? <==> !exists o :: multiset(o) == multiset(d.gates) && ValidOrder(o, Seed(d))
  {
    ScheduleSucceedsIff(d.gates, Seed(d));
  }

  /** When the sorted list o is in dependency order from the inputs alone
      (no gate reads a name before a gate writes it, unless it is an input),
      an output that an input feeds or a gate writes has the same value in
      row i whatever values the table held before, given the same names:
      the rows read no stale values. */
  lemma SortedRowsFresh(d: Description, seed: set<string>, o: seq<Gate>, e: Env, i: nat, k: nat)
    requires Runnable(d) && Schedule(d.gates, seed) == Some(o) && o != []
    requires ValidOrder(o, Elems(InputSlots(d)))
    requires e.Keys == InitialEnv(d).Keys && i < Pow2(|d.inputs|)
    requires k < |OutputSlots(d)| && OutputSlots(d)[k] in Elems(InputSlots(d)) + Written(o)
    ensures (forall s :: s in InputSlots(d) ==> s in e) && (forall s :: s in OutputSlots(d) ==> s in e) && AllEvaluable(o, e.Keys)
    ensures (forall s :: s in InputSlots(d) ==> s in InitialEnv(d)) && (forall s :: s in OutputSlots(d) ==> s in InitialEnv(d))
    ensures SortedRun(d, seed).Some? && i < |SortedRun(d, seed).value.rows|
    ensures SortedRun(d, seed).value.rows[i] == RowAt(InitialEnv(d), InputSlots(d), OutputSlots(d), o, i)
    ensures RowAt(InitialEnv(d), InputSlots(d), OutputSlots(d), o, i).outs[k] == RowAt(e, InputSlots(d), OutputSlots(d), o, i).outs[k]
  {
    SortedRunSome(d, seed, o);
    Layout(d);
    var ins, outs := InputSlots(d), OutputSlots(d);
    var rows := Rows(InitialEnv(d), ins, outs, o, Pow2(|ins|));
    assert SortedRun(d, seed).value.rows == rows;
    assert rows[i] == RowAt(InitialEnv(d), ins, outs, o, i);
    RowsDetermined(InitialEnv(d), e, ins, outs, o, i, k);
  }

  /** The second program reads no stale value when its sorted list happens
      to be in dependency order from the inputs alone; the declared outputs
      it marks done beforehand can break that (see the late-output circuit). */
  lemma SecondRowsFresh(d: Description, o: seq<Gate>, e: Env, i: nat, k: nat)
    requires Runnable(d) && Schedule(d.gates, Seed(d)) == Some(o) && o != []
    requires ValidOrder(o, Elems(InputSlots(d)))
    requires e.Keys == InitialEnv(d).Keys && i < Pow2(|d.inputs|)
    requires k < |OutputSlots(d)| && OutputSlots(d)[k] in Elems(InputSlots(d)) + Written(o)
    ensures SecondRun(d).Some? && i < |SecondRun(d).value.rows|
    ensures (forall s :: s in InputSlots(d) ==> s in e) && (forall s :: s in OutputSlots(d) ==> s in e) && AllEvaluable(o, e.Keys)
    ensures (forall s :: s in InputSlots(d) ==> s in InitialEnv(d)) && (forall s :: s in OutputSlots(d) ==> s in InitialEnv(d))
    ensures SecondRun(d).value.rows[i] == RowAt(InitialEnv(d), InputSlots(d), OutputSlots(d), o, i)
    ensures RowAt(InitialEnv(d), InputSlots(d), OutputSlots(d), o, i).outs[k] == RowAt(e, InputSlots(d), OutputSlots(d), o, i).outs[k]
  {
    SortedRowsFresh(d, Seed(d), o, e, i, k);
  }

  /** With the sort seeded by the input slots alone, every sorted list is in
      dependency order from the inputs, so no row reads a stale value: an
      output that an input feeds or a gate writes does not depend on what
      the table held before. */
  lemma InputSeededRowsFresh(d: Description, o: seq<Gate>, e: Env, i: nat, k: nat)
    requires Runnable(d) && Schedule(d.gates, Elems(InputSlots(d))) == Some(o) && o != []
    requires e.Keys == InitialEnv(d).Keys && i < Pow2(|d.inputs|)
    requires k < |OutputSlots(d)| && OutputSlots(d)[k] in Elems(InputSlots(d)) + Written(o)
    ensures InputSeededRun(d).Some? && i < |InputSeededRun(d).value.rows|
    ensures (forall s :: s in InputSlots(d) ==> s in e) && (forall s :: s in OutputSlots(d) ==> s in e) && AllEvaluable(o, e.Keys)
    ensures (forall s :: s in InputSlots(d) ==> s in InitialEnv(d)) && (forall s :: s in OutputSlots(d) ==> s in InitialEnv(d))
    ensures InputSeededRun(d).value.rows[i] == RowAt(InitialEnv(d), InputSlots(d), OutputSlots(d), o, i)
    ensures RowAt(InitialEnv(d), InputSlots(d), OutputSlots(d), o, i).outs[k] == RowAt(e, InputSlots(d), OutputSlots(d), o, i).outs[k]
  {
    ScheduleRespectsDependencies(d.gates, Elems(InputSlots(d)));
    SortedRowsFresh(d, Elems(InputSlots(d)), o, e, i, k);
  }
}
