/** Two small circuits that show where the programs differ: gates declared
    after the gates that read them, and a declared output read before it is
    written. */
module Scenarios {
  import opened Bits
  import opened Gray
  import opened Gates
  import opened Signals
  import opened Scheduling
  import opened Evaluation
  import opened Netlist
  import opened Options
  import opened Programs

  /** z = NOT w declared before w = NOT a, so z should equal a. */
  function LateWire(): Description
  {
    Description(["a"], ["z"], [Gate(Not, ["w"], ["z"], []), Gate(Not, ["a"], ["w"], [])])
  }

  /** z = NOT y declared before y = NOT a, where y is a declared output; z
      should equal a and y should be NOT a. */
  function LateOutput(): Description
  {
    Description(["a"], ["y", "z"], [Gate(Not, ["y"], ["z"], []), Gate(Not, ["a"], ["y"], [])])
  }

  /** A NOT gate writes the complement of its input to its output. */
  lemma NotStep(g: Gate, env: Env)
    requires Evaluable(g, env.Keys) && g.op == Not
    ensures Step(g, env) == env[g.outputs[0] := MyNot(Read(env, g.inputs[0]))]
  {
    StepOneOutput(g, env);
  }

  /** With one input, row i sets it to the low bit of Gray code i. */
  lemma OneInputRow(env: Env, a: string, i: nat)
    requires a in env
    ensures SetInputs(env, [a], InputRow(1, i)) == env[a := BitAt(Gray.Gray(i), 0)]
  {
    var v := BitAt(Gray.Gray(i), 0);
    var row := InputRow(1, i);
    assert row[0] == v;
    assert Reverse([a]) == [a] && Reverse(row) == [v];
    assert [a][..0] == [] && [v][..0] == [];
    assert WriteAll(env, [a], [v]) == WriteAll(env, [], [])[a := v];
  }

  /** Gray codes 0 and 1 of the two rows with one input. */
  lemma FirstTwoCodes()
    ensures BitAt(Gray.Gray(0), 0) == 0 && BitAt(Gray.Gray(1), 0) == 1
  {
    assert Bits.Xor(0, 0) == 0;
    assert Bits.Xor(1, 0) == 2 * Bits.Xor(0, 0) + 1;
  }

  /** The values printed with one input slot and one output slot. */
  lemma RowOfOne(env: Env, a: string, z: string)
    requires a in env && z in env && !IsLiteral(a) && !IsLiteral(z)
    ensures RowOf(env, [a], [z]) == Row([env[a]], [env[z]])
  {
    assert ReadAll(env, [a]) == [env[a]];
    assert ReadAll(env, [z]) == [env[z]];
  }

  /** The two rows of a circuit with one input. */
  lemma RowsOfTwo(env: Env, ins: seq<string>, outs: seq<string>, gs: seq<Gate>)
    requires (forall s :: s in ins ==> s in env) && (forall s :: s in outs ==> s in env)
    requires AllEvaluable(gs, env.Keys)
    ensures Rows(env, ins, outs, gs, 2) ==
            [RowOf(StateAfter(env, ins, gs, 1), ins, outs), RowOf(StateAfter(env, ins, gs, 2), ins, outs)]
  {
  }

  /** Two gates run one after the other. */
  lemma TwoGates(gs: seq<Gate>, env: Env)
    requires |gs| == 2 && AllEvaluable(gs, env.Keys)
    ensures EvalAll(gs, env) == Step(gs[1], Step(gs[0], env))
  {
    assert gs[..1] == [gs[0]] && gs[..1][..0] == [];
    assert EvalAll(gs[..1], env) == Step(gs[0], EvalAll([], env));
  }

  /** The circuit as the table holds it once the file is read: the input
      slot is a, the output slot is z, and a, z and w are declared with w
      at 0. */
  lemma LateWireLoaded()
    ensures Runnable(LateWire())
    ensures InputSlots(LateWire()) == ["a"] && OutputSlots(LateWire()) == ["z"]
    ensures var e := InitialEnv(LateWire());
            "a" in e && "z" in e && "w" in e && e["w"] == 0
    ensures Seed(LateWire()) == Elems(["a"]) + Elems(["z"])
  {
    var d := LateWire();
    var gs := d.gates;
    assert Runnable(d);
    LateWireEnv();
    assert PlainPorts(d) by {
      assert d.inputs + d.outputs == ["a", "z"];
    }
    PlainPortsSlots(d);
  }

  /** The names of the late-wire circuit, all at 0. */
  lemma LateWireEnv()
    ensures var e := InitialEnv(LateWire());
            "a" in e && "z" in e && "w" in e && e["w"] == 0
  {
    var d := LateWire();
    assert d.inputs[0] == "a" && d.outputs[0] == "z" && d.gates[1].outputs[0] == "w";
    PortDeclared(d, "a");
    PortDeclared(d, "z");
    GateNameDeclared(d, 1, "w");
  }

  /** One row of a circuit with one input a and two NOT gates: a gets the
      row's bit, then the first gate writes, then the second, each reading
      the values as they are at that point. */
  lemma TwoNotsRow(env: Env, a: string, gs: seq<Gate>, i: nat)
    requires a in env && |gs| == 2 && AllEvaluable(gs, env.Keys) && gs[0].op == Not && gs[1].op == Not
    ensures var s0 := env[a := BitAt(Gray.Gray(i), 0)];
            var s1 := s0[gs[0].outputs[0] := MyNot(Read(s0, gs[0].inputs[0]))];
            RowEnv(env, [a], gs, i) == s1[gs[1].outputs[0] := MyNot(Read(s1, gs[1].inputs[0]))]
  {
    var s0 := env[a := BitAt(Gray.Gray(i), 0)];
    OneInputRow(env, a, i);
    TwoGates(gs, s0);
    NotStep(gs[0], s0);
    NotStep(gs[1], Step(gs[0], s0));
  }

  /** The values after the two rows of the late-wire circuit, from values
      where w is 0. */
  lemma LateWireStates(e: Env)
    requires "a" in e && "z" in e && "w" in e && e["w"] == 0
    ensures AllEvaluable(LateWire().gates, e.Keys)
    ensures var t0 := StateAfter(e, ["a"], LateWire().gates, 1);
            t0["a"] == 0 && t0["z"] == 1
    ensures var t1 := StateAfter(e, ["a"], LateWire().gates, 2);
            t1["a"] == 1 && t1["z"] == 0
  {
    var gs := LateWire().gates;
    assert AllEvaluable(gs, e.Keys);
    FirstTwoCodes();
    TwoNotsRow(e, "a", gs, 0);
    var t0 := StateAfter(e, ["a"], gs, 1);
    assert t0 == RowEnv(e, ["a"], gs, 0);
    TwoNotsRow(t0, "a", gs, 1);
  }

  /** The first program runs z = NOT w with the w of the previous row (0 in
      row 0), so z comes out as NOT a instead of a. */
  lemma FirstReadsStaleValues()
    ensures Runnable(LateWire())
    ensures FirstRun(LateWire()).rows == [Row([0], [1]), Row([1], [0])]
  {
    var d := LateWire();
    var gs := d.gates;
    LateWireLoaded();
    var e := InitialEnv(d);
    LateWireStates(e);
    assert Pow2(1) == 2;
    assert FirstRun(d).rows == Rows(e, ["a"], ["z"], gs, 2);
    RowsOfTwo(e, ["a"], ["z"], gs);
    RowOfOne(StateAfter(e, ["a"], gs, 1), "a", "z");
    RowOfOne(StateAfter(e, ["a"], gs, 2), "a", "z");
  }

  /** A single ready gate is sorted as it is. */
  lemma ScheduleOne(g: Gate, done: set<string>)
    requires Ready(g, done)
    ensures Schedule([g], done) == Some([g])
  {
    assert FirstReady([g], done) == Some(0);
    var rest := [g][..0] + [g][1..];
    assert rest == [];
    assert Schedule(rest, done + Writes(g)) == Some([]);
    assert [g] + [] == [g];
  }

  /** Of two gates where only the second is ready, and the first becomes
      ready once the second is done, the second is sorted first. */
  lemma ScheduleSecondFirst(gs: seq<Gate>, done: set<string>)
    requires |gs| == 2 && !Ready(gs[0], done) && Ready(gs[1], done) && Ready(gs[0], done + Writes(gs[1]))
    ensures Schedule(gs, done) == Some([gs[1], gs[0]])
  {
    assert FirstReady(gs[1..], done) == Some(0);
    assert FirstReady(gs, done) == Some(1);
    assert gs[..1] + gs[2..] == [gs[0]];
    ScheduleOne(gs[0], done + Writes(gs[1]));
    assert [gs[1]] + [gs[0]] == [gs[1], gs[0]];
  }

  /** The second program marks a and z done, finds z = NOT w not ready
      (w is not done) and w = NOT a ready, so it sorts w = NOT a first. */
  lemma LateWireSorted()
    ensures Runnable(LateWire())
    ensures Schedule(LateWire().gates, Seed(LateWire())) == Some([LateWire().gates[1], LateWire().gates[0]])
  {
    var gs := LateWire().gates;
    LateWireLoaded();
    var done := Seed(LateWire());
    assert "a" in done && "w" !in done;
    assert Reads(gs[0]) == ["w"] && Reads(gs[1]) == ["a"];
    assert !Ready(gs[0], done) by {
      assert "w" in Reads(gs[0]) && !IsLiteral("w");
    }
    assert "w" in Writes(gs[1]);
    ScheduleSecondFirst(gs, done);
  }

  /** The values after the two rows of the sorted late-wire circuit. */
  lemma SortedLateWireStates(e: Env)
    requires "a" in e && "z" in e && "w" in e
    ensures var o := [LateWire().gates[1], LateWire().gates[0]];
            AllEvaluable(o, e.Keys) &&
            StateAfter(e, ["a"], o, 1)["a"] == 0 && StateAfter(e, ["a"], o, 1)["z"] == 0 &&
            StateAfter(e, ["a"], o, 2)["a"] == 1 && StateAfter(e, ["a"], o, 2)["z"] == 1
  {
    var o := [LateWire().gates[1], LateWire().gates[0]];
    assert AllEvaluable(o, e.Keys);
    FirstTwoCodes();
    TwoNotsRow(e, "a", o, 0);
    var t0 := StateAfter(e, ["a"], o, 1);
    assert t0 == RowEnv(e, ["a"], o, 0);
    TwoNotsRow(t0, "a", o, 1);
  }

  /** The second program runs w = NOT a before z = NOT w, so z equals a. */
  lemma SecondSortsLateWire()
    ensures Runnable(LateWire()) && SecondRun(LateWire()).Some?
    ensures SecondRun(LateWire()).value.rows == [Row([0], [0]), Row([1], [1])]
  {
    var d := LateWire();
    LateWireLoaded();
    LateWireSorted();
    var o := [d.gates[1], d.gates[0]];
    var e := InitialEnv(d);
    SecondRunSome(d, o);
    SortedLateWireStates(e);
    assert Pow2(1) == 2;
    assert SecondRun(d).value.rows == Rows(e, ["a"], ["z"], o, 2);
    RowsOfTwo(e, ["a"], ["z"], o);
    RowOfOne(StateAfter(e, ["a"], o, 1), "a", "z");
    RowOfOne(StateAfter(e, ["a"], o, 2), "a", "z");
  }

  /** The values printed with one input slot and two output slots. */
  lemma RowOfTwoOutputs(env: Env, a: string, y: string, z: string)
    requires a in env && y in env && z in env && !IsLiteral(a) && !IsLiteral(y) && !IsLiteral(z)
    ensures RowOf(env, [a], [y, z]) == Row([env[a]], [env[y], env[z]])
  {
    assert ReadAll(env, [a]) == [env[a]];
    assert ReadAll(env, [y, z]) == [env[y], env[z]];
  }

  /** Two gates already in a ready order are sorted as they are. */
  lemma ScheduleInOrder(gs: seq<Gate>, done: set<string>)
    requires |gs| == 2 && Ready(gs[0], done) && Ready(gs[1], done + Writes(gs[0]))
    ensures Schedule(gs, done) == Some(gs)
  {
    assert FirstReady(gs, done) == Some(0);
    assert gs[..0] + gs[1..] == [gs[1]];
    ScheduleOne(gs[1], done + Writes(gs[0]));
    assert [gs[0]] + [gs[1]] == gs;
  }

  /** The late-output circuit once the file is read: the input slot is a,
      the output slots are y and z, the names a, y and z are declared with
      y at 0, and the second program marks all three done. */
  lemma LateOutputLoaded()
    ensures Runnable(LateOutput())
    ensures InputSlots(LateOutput()) == ["a"] && OutputSlots(LateOutput()) == ["y", "z"]
    ensures var e := InitialEnv(LateOutput());
            "a" in e && "y" in e && "z" in e && e["y"] == 0
    ensures Seed(LateOutput()) == Elems(["a"]) + Elems(["y", "z"])
  {
    var d := LateOutput();
    assert Runnable(d);
    LateOutputEnv();
    assert PlainPorts(d) by {
      assert d.inputs + d.outputs == ["a", "y", "z"];
    }
    PlainPortsSlots(d);
  }

  /** The names of the late-output circuit, all at 0. */
  lemma LateOutputEnv()
    ensures var e := InitialEnv(LateOutput());
            "a" in e && "y" in e && "z" in e && e["y"] == 0
  {
    var d := LateOutput();
    assert d.inputs[0] == "a" && d.outputs[0] == "y" && d.outputs[1] == "z";
    PortDeclared(d, "a");
    PortDeclared(d, "y");
    PortDeclared(d, "z");
  }

  /** Since y is marked done from the start, z = NOT y counts as ready at
      once and the declared order stands. */
  lemma LateOutputSorted()
    ensures Runnable(LateOutput())
    ensures Schedule(LateOutput().gates, Seed(LateOutput())) == Some(LateOutput().gates)
  {
    var gs := LateOutput().gates;
    LateOutputLoaded();
    var done := Seed(LateOutput());
    assert "a" in done && "y" in done;
    assert Reads(gs[0]) == ["y"] && Reads(gs[1]) == ["a"];
    ScheduleInOrder(gs, done);
  }

  /** The values after the two rows of the late-output circuit. */
  lemma LateOutputStates(e: Env)
    requires "a" in e && "y" in e && "z" in e && e["y"] == 0
    ensures var gs := LateOutput().gates;
            AllEvaluable(gs, e.Keys) &&
            StateAfter(e, ["a"], gs, 1)["a"] == 0 && StateAfter(e, ["a"], gs, 1)["y"] == 1 &&
            StateAfter(e, ["a"], gs, 1)["z"] == 1 &&
            StateAfter(e, ["a"], gs, 2)["a"] == 1 && StateAfter(e, ["a"], gs, 2)["y"] == 0 &&
            StateAfter(e, ["a"], gs, 2)["z"] == 0
  {
    var gs := LateOutput().gates;
    assert AllEvaluable(gs, e.Keys);
    FirstTwoCodes();
    TwoNotsRow(e, "a", gs, 0);
    var t0 := StateAfter(e, ["a"], gs, 1);
    assert t0 == RowEnv(e, ["a"], gs, 0);
    TwoNotsRow(t0, "a", gs, 1);
  }

  /** Marking the declared outputs done before sorting lets z = NOT y run
      before y = NOT a: the second program prints z from the y of the
      previous row, so z is never equal to a. */
  lemma SecondReadsStaleOutput()
    ensures Runnable(LateOutput()) && SecondRun(LateOutput()).Some?
    ensures SecondRun(LateOutput()).value.rows == [Row([0], [1, 1]), Row([1], [0, 0])]
  {
    var d := LateOutput();
    var gs := d.gates;
    LateOutputLoaded();
    LateOutputSorted();
    var e := InitialEnv(d);
    SecondRunSome(d, gs);
    LateOutputStates(e);
    assert Pow2(1) == 2;
    assert SecondRun(d).value.rows == Rows(e, ["a"], ["y", "z"], gs, 2);
    RowsOfTwo(e, ["a"], ["y", "z"], gs);
    RowOfTwoOutputs(StateAfter(e, ["a"], gs, 1), "a", "y", "z");
    RowOfTwoOutputs(StateAfter(e, ["a"], gs, 2), "a", "y", "z");
  }

  /** Seeded by the input a alone, the sort finds z = NOT y not ready and
      sorts y = NOT a first. */
  lemma LateOutputInputSeeded()
    ensures Runnable(LateOutput())
    ensures Schedule(LateOutput().gates, Elems(InputSlots(LateOutput()))) ==
            Some([LateOutput().gates[1], LateOutput().gates[0]])
  {
    var gs := LateOutput().gates;
    LateOutputLoaded();
    var done := Elems(InputSlots(LateOutput()));
    assert "a" in done && "y" !in done;
    assert Reads(gs[0]) == ["y"] && Reads(gs[1]) == ["a"];
    assert !Ready(gs[0], done) by {
      assert "y" in Reads(gs[0]) && !IsLiteral("y");
    }
    assert "y" in Writes(gs[1]);
    ScheduleSecondFirst(gs, done);
  }

  /** The values after the two rows of the late-output circuit sorted from the input. */
  lemma InputSeededLateOutputStates(e: Env)
    requires "a" in e && "y" in e && "z" in e
    ensures var o := [LateOutput().gates[1], LateOutput().gates[0]];
            AllEvaluable(o, e.Keys) &&
            StateAfter(e, ["a"], o, 1)["a"] == 0 && StateAfter(e, ["a"], o, 1)["y"] == 1 &&
            StateAfter(e, ["a"], o, 1)["z"] == 0 &&
            StateAfter(e, ["a"], o, 2)["a"] == 1 && StateAfter(e, ["a"], o, 2)["y"] == 0 &&
            StateAfter(e, ["a"], o, 2)["z"] == 1
  {
    var o := [LateOutput().gates[1], LateOutput().gates[0]];
    assert AllEvaluable(o, e.Keys);
    FirstTwoCodes();
    TwoNotsRow(e, "a", o, 0);
    var t0 := StateAfter(e, ["a"], o, 1);
    assert t0 == RowEnv(e, ["a"], o, 0);
    TwoNotsRow(t0, "a", o, 1);
  }

  /** Seeding the sort with the inputs alone runs y = NOT a before z = NOT y,
      so y is NOT a and z equals a in every row. */
  lemma InputSeededLateOutput()
    ensures Runnable(LateOutput()) && InputSeededRun(LateOutput()).Some?
    ensures InputSeededRun(LateOutput()).value.rows == [Row([0], [1, 0]), Row([1], [0, 1])]
  {
    var d := LateOutput();
    LateOutputLoaded();
    LateOutputInputSeeded();
    var o := [d.gates[1], d.gates[0]];
    var e := InitialEnv(d);
    SortedRunSome(d, Elems(InputSlots(d)), o);
    InputSeededLateOutputStates(e);
    assert Pow2(1) == 2;
    assert InputSeededRun(d).value.rows == Rows(e, ["a"], ["y", "z"], o, 2);
    RowsOfTwo(e, ["a"], ["y", "z"], o);
    RowOfTwoOutputs(StateAfter(e, ["a"], o, 1), "a", "y", "z");
    RowOfTwoOutputs(StateAfter(e, ["a"], o, 2), "a", "y", "z");
  }
}
