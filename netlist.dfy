/** The circuit as the two programs hold it: the signal table, the declared
    gate list `linehead` (appended at the tail by `insertLine`), the ordered
    list `orderhead` of the second program, and the arrays `inputArray` and
    `outputArray` of pointers into the table, modelled by the name of the node
    each points at (names are unique in the table, so a name identifies its
    node). */
module Netlist {
  import opened Bits
  import opened Gray
  import opened Gates
  import opened Signals
  import opened Scheduling
  import opened Evaluation
  import opened Options

  /** Every name the gate uses is a constant or declared. */
  predicate Declared(g: Gate, names: set<string>)
  {
    WellFormed(g) &&
    (forall n :: n in Reads(g) ==> IsLiteral(n) || n in names) &&
    (forall n :: n in g.outputs ==> IsLiteral(n) || n in names)
  }

  /** Every gate of both lists is declared, and every slot names a declared signal. */
  predicate Consistent(lines: seq<Gate>, ordered: seq<Gate>, ins: seq<string>, outs: seq<string>, names: set<string>)
  {
    (forall g :: g in lines ==> Declared(g, names)) &&
    (forall g :: g in ordered ==> Declared(g, names)) &&
    (forall s :: s in ins ==> s in names) &&
    (forall s :: s in outs ==> s in names)
  }

  /** Declaring more names keeps the circuit consistent. */
  lemma ConsistentGrows(lines: seq<Gate>, ordered: seq<Gate>, ins: seq<string>, outs: seq<string>,
                        names: set<string>, names': set<string>)
    requires Consistent(lines, ordered, ins, outs, names) && names <= names'
    ensures Consistent(lines, ordered, ins, outs, names')
  {
  }

  /** The names of a list that `insert` adds: all but the constants. */
  function NonLiterals(names: seq<string>): (r: set<string>)
    ensures forall n :: n in r <==> n in names && !IsLiteral(n)
  {
    set n | n in names && !IsLiteral(n)
  }

  lemma NonLiteralsSnoc(names: seq<string>, n: string)
    ensures NonLiterals(names + [n]) == NonLiterals(names) + (if IsLiteral(n) then {} else {n})
  {
  }

  /** The values after `insert(name, 0)` of each name in turn: a constant or
      a declared name changes nothing, a new name starts at 0. */
  function DeclareAll(env: Env, names: seq<string>): Env
    decreases |names|
  {
    if names == [] then env
    else DeclareAll(if IsLiteral(names[0]) || names[0] in env then env else env[names[0] := 0], names[1..])
  }

  /** Declaring keeps every value already there, adds exactly the new
      non-constant names, and gives each of them 0. */
  lemma {:induction false} DeclareAllSpec(env: Env, names: seq<string>)
    ensures DeclareAll(env, names).Keys == env.Keys + set n | n in names && !IsLiteral(n)
    ensures forall n :: n in env ==> DeclareAll(env, names)[n] == env[n]
    ensures forall n :: n in DeclareAll(env, names) && n !in env ==> DeclareAll(env, names)[n] == 0
    decreases |names|
  {
    if names != [] {
      var e := if IsLiteral(names[0]) || names[0] in env then env else env[names[0] := 0];
      DeclareAllSpec(e, names[1..]);
      assert forall n :: n in names <==> n == names[0] || n in names[1..];
    }
  }

  lemma {:induction false} DeclareAllConcat(env: Env, a: seq<string>, b: seq<string>)
    ensures DeclareAll(env, a + b) == DeclareAll(DeclareAll(env, a), b)
    decreases |a|
  {
    if a == [] {
      assert a + b == b;
    } else {
      var e := if IsLiteral(a[0]) || a[0] in env then env else env[a[0] := 0];
      assert (a + b)[0] == a[0] && (a + b)[1..] == a[1..] + b;
      assert DeclareAll(env, a + b) == DeclareAll(e, a[1..] + b);
      assert DeclareAll(env, a) == DeclareAll(e, a[1..]);
      DeclareAllConcat(e, a[1..], b);
    }
  }

  /** The node `inputArray[i]` (or `outputArray[i]`) points at: the head of
      the list right after `insert(names[i], 0)`. That is the name itself when
      it is new; for a constant or a name declared earlier `insert` does
      nothing and the slot points at whatever node is at the head. */
  function Slots(names: seq<string>, known: set<string>, head: string): seq<string>
    decreases |names|
  {
    if names == [] then []
    else
      var h := if IsLiteral(names[0]) || names[0] in known then head else names[0];
      [h] + Slots(names[1..], known + (if IsLiteral(names[0]) then {} else {names[0]}), h)
  }

  /** Declaring the first name moves the table from (known, head, env) to
      (known', head', env'); the slots and values of the rest follow on. */
  lemma DeclareStep(names: seq<string>, known: set<string>, head: string, env: Env,
                    known': set<string>, head': string, env': Env)
    requires names != [] && env.Keys == known
    requires head' == if IsLiteral(names[0]) || names[0] in known then head else names[0]
    requires known' == known + (if IsLiteral(names[0]) then {} else {names[0]})
    requires env' == if IsLiteral(names[0]) || names[0] in known then env else env[names[0] := 0]
    ensures Slots(names, known, head) == [head'] + Slots(names[1..], known', head')
    ensures DeclareAll(env, names) == DeclareAll(env', names[1..])
  {
  }

  /** With distinct new non-constant names every slot points at its own name. */
  lemma {:induction false} SlotsOfNewNames(names: seq<string>, known: set<string>, head: string)
    requires Distinct(names)
    requires forall n :: n in names ==> !IsLiteral(n) && n !in known
    ensures Slots(names, known, head) == names
    decreases |names|
  {
    if names != [] {
      var rest := names[1..];
      forall n | n in rest ensures !IsLiteral(n) && n !in known + {names[0]} {
        var j :| 0 <= j < |rest| && rest[j] == n;
        assert names[j + 1] == n;
      }
      assert Distinct(rest) by {
        forall i, j | 0 <= i < j < |rest| ensures rest[i] != rest[j] {
          assert rest[i] == names[i + 1] && rest[j] == names[j + 1];
        }
      }
      SlotsOfNewNames(rest, known + {names[0]}, names[0]);
    }
  }

  /** A repeated name makes its slot alias the head node at that moment. */
  lemma RepeatedNameAliases()
    ensures Slots(["a", "b", "a"], {}, "") == ["a", "b", "b"]
  {
    var names := ["a", "b", "a"];
    assert !IsLiteral("a") && !IsLiteral("b");
    assert names[1..] == ["b", "a"] && names[1..][1..] == ["a"] && names[1..][1..][1..] == [];
    assert "a" in {"a"} + {"b"};
  }

  /** What the sorting loop knows once the gates `placed` have been moved,
      starting from the ordered list ordered0 and the done names done0:
      they were appended in that order, their outputs are done, and target,
      the outcome of the whole loop, is `placed` followed by the outcome for
      the gates that remain. */
  ghost predicate Progress(lines: seq<Gate>, ordered: seq<Gate>, done: set<string>,
                           ordered0: seq<Gate>, done0: set<string>, placed: seq<Gate>, target: Option<seq<Gate>>)
  {
    ordered == ordered0 + placed &&
    done == done0 + Written(placed) &&
    (target.Some? <==> Schedule(lines, done).Some?) &&
    (target.Some? ==> target.value == placed + Schedule(lines, done).value)
  }

  /** Once no gate remains, the loop has succeeded with the gates it placed. */
  lemma ProgressDone(ordered: seq<Gate>, done: set<string>,
                     ordered0: seq<Gate>, done0: set<string>, placed: seq<Gate>, target: Option<seq<Gate>>)
    requires Progress([], ordered, done, ordered0, done0, placed, target)
    ensures target == Some(placed)
  {
    assert Schedule([], done) == Some([]);
    assert placed + [] == placed;
  }

  /** Moving the first ready gate keeps that knowledge. */
  lemma ProgressAdvance(lines: seq<Gate>, ordered: seq<Gate>, done: set<string>, k: nat,
                        ordered0: seq<Gate>, done0: set<string>, placed: seq<Gate>, target: Option<seq<Gate>>)
    requires Progress(lines, ordered, done, ordered0, done0, placed, target)
    requires k < |lines| && FirstReady(lines, done) == Some(k)
    ensures Progress(lines[..k] + lines[k + 1..], ordered + [lines[k]], done + Writes(lines[k]),
                     ordered0, done0, placed + [lines[k]], target)
  {
    var g := lines[k];
    ScheduleAdvance(lines, done, k, placed, target);
    WrittenSnoc(placed, g);
    assert ordered + [g] == ordered0 + (placed + [g]);
  }

  /** The outcome of the sorting loop, known after gates `placed` have been
      moved, is kept when the first ready gate of the rest moves next. */
  lemma ScheduleAdvance(lines: seq<Gate>, done: set<string>, k: nat, placed: seq<Gate>, target: Option<seq<Gate>>)
    requires k < |lines| && FirstReady(lines, done) == Some(k)
    requires target.Some? <==> Schedule(lines, done).Some?
    requires target.Some? ==> target.value == placed + Schedule(lines, done).value
    ensures var rest := lines[..k] + lines[k + 1..];
            var done' := done + Writes(lines[k]);
            (target.Some? <==> Schedule(rest, done').Some?) &&
            (target.Some? ==> target.value == (placed + [lines[k]]) + Schedule(rest, done').value)
  {
    var rest := lines[..k] + lines[k + 1..];
    var done' := done + Writes(lines[k]);
    if Schedule(rest, done').Some? {
      ScheduleSomeStep(lines, done, k);
    }
  }

  /** Setting the inputs of row i one slot at a time, from the last slot
      back: step j writes bit j of the row's Gray code. */
  lemma SetInputsPrefix(env: Env, ins: seq<string>, i: nat, j: nat, cur: Env, next: Env)
    requires j < |ins|
    requires cur == WriteAll(env, Reverse(ins)[..j], Reverse(InputRow(|ins|, i))[..j])
    requires next == cur[ins[|ins| - j - 1] := BitAt(Gray.Gray(i), j)]
    ensures next == WriteAll(env, Reverse(ins)[..j + 1], Reverse(InputRow(|ins|, i))[..j + 1])
  {
    var m := |ins|;
    var names, full := Reverse(ins), InputRow(m, i);
    var row := Reverse(full);
    assert names[j] == ins[m - j - 1];
    assert row[j] == full[m - 1 - j] == BitAt(Gray.Gray(i), j);
    WriteAllStep(env, names, row, j, cur, next);
  }

  /** The name of the node at the head of the table, if there is one. */
  function HeadName(t: SignalTable): string
    reads t
  {
    if t.vars == [] then "" else t.vars[0].name
  }

  class Circuit {
    const table: SignalTable
    /** `linehead`: the gates in declaration order, later the ordered list. */
    var lines: seq<Gate>
    /** `orderhead`: the gates moved so far by the scheduler. */
    var ordered: seq<Gate>
    /** `inputArray`. */
    var inputSlots: seq<string>
    /** `outputArray`. */
    var outputSlots: seq<string>

    ghost predicate Valid()
      reads this, table
    {
      table.Valid() && Consistent(lines, ordered, inputSlots, outputSlots, table.Names())
    }

    constructor ()
      ensures Valid() && fresh(table)
      ensures table.vars == [] && lines == [] && ordered == [] && inputSlots == [] && outputSlots == []
    {
      table := new SignalTable();
      lines := [];
      ordered := [];
      inputSlots := [];
      outputSlots := [];
    }

    /** `insert(name, 0)` for each name in turn. */
    method InsertNames(names: seq<string>)
      requires table.Valid()
      modifies table
      ensures table.Valid()
      ensures table.Env() == DeclareAll(old(table.Env()), names)
      ensures table.Names() == old(table.Names()) + NonLiterals(names)
      ensures table.Done() == old(table.Done())
      ensures old(table.vars) != [] ==> table.vars != []
    {
      ghost var e0, names0, done0 := table.Env(), table.Names(), table.Done();
      for i := 0 to |names|
        invariant table.Valid()
        invariant DeclareAll(table.Env(), names[i..]) == DeclareAll(e0, names)
        invariant table.Names() == names0 + NonLiterals(names[..i])
        invariant table.Done() == done0
        invariant old(table.vars) != [] ==> table.vars != []
      {
        table.Insert(names[i], 0);
        assert names[i..][1..] == names[i + 1..];
        assert names[..i + 1] == names[..i] + [names[i]];
        NonLiteralsSnoc(names[..i], names[i]);
      }
      assert names[..|names|] == names;
    }

    /** `insertLine`: the gate goes at the tail of the declared list. */
    method InsertLine(g: Gate)
      requires Valid() && Declared(g, table.Names())
      modifies this
      ensures Valid()
      ensures lines == old(lines) + [g]
      ensures ordered == old(ordered) && inputSlots == old(inputSlots) && outputSlots == old(outputSlots)
    {
      lines := lines + [g];
    }

    /** `makeNot` without the reading: declares the input, then the output,
        and appends the gate. */
    method MakeNot(input: string, output: string)
      requires Valid()
      modifies this, table
      ensures Valid()
      ensures lines == old(lines) + [Gate(Not, [input], [output], [])]
      ensures table.Env() == DeclareAll(old(table.Env()), [input, output])
      ensures table.Done() == old(table.Done())
      ensures ordered == old(ordered) && inputSlots == old(inputSlots) && outputSlots == old(outputSlots)
    {
      InsertNames([input, output]);
      ConsistentGrows(lines, ordered, inputSlots, outputSlots, old(table.Names()), table.Names());
      InsertLine(Gate(Not, [input], [output], []));
    }

    /** `makeAnd`, `makeOr`, `makeNand`, `makeNor`, `makeXor` and `makeXnor`
        without the reading: they differ only in the opcode. */
    method MakeBinary(op: Op, a: string, b: string, output: string)
      requires Valid() && op.IsBinary()
      modifies this, table
      ensures Valid()
      ensures lines == old(lines) + [Gate(op, [a, b], [output], [])]
      ensures table.Env() == DeclareAll(old(table.Env()), [a, b, output])
      ensures table.Done() == old(table.Done())
      ensures ordered == old(ordered) && inputSlots == old(inputSlots) && outputSlots == old(outputSlots)
    {
      InsertNames([a, b, output]);
      ConsistentGrows(lines, ordered, inputSlots, outputSlots, old(table.Names()), table.Names());
      InsertLine(Gate(op, [a, b], [output], []));
    }

    /** `makeDecoder` without the reading: n selects, then 2^n outputs. */
    method MakeDecoder(inputs: seq<string>, outputs: seq<string>)
      requires Valid() && |outputs| == Pow2(|inputs|)
      modifies this, table
      ensures Valid()
      ensures lines == old(lines) + [Gate(Decoder, inputs, outputs, [])]
      ensures table.Env() == DeclareAll(old(table.Env()), inputs + outputs)
      ensures table.Done() == old(table.Done())
      ensures ordered == old(ordered) && inputSlots == old(inputSlots) && outputSlots == old(outputSlots)
    {
      InsertNames(inputs);
      InsertNames(outputs);
      DeclareAllConcat(old(table.Env()), inputs, outputs);
      ConsistentGrows(lines, ordered, inputSlots, outputSlots, old(table.Names()), table.Names());
      InsertLine(Gate(Decoder, inputs, outputs, []));
    }

    /** `makeMultiplexer` without the reading: the count read from the file is
        the number of encoding signals, the number of selects is its `log_2`;
        the encoding signals are declared first, then the selects, then the
        output. A count that is not a power of two makes `log_2` return -1 or
        -2, which the C code then passes to `malloc`; that is excluded. */
    method MakeMultiplexer(multi: seq<string>, selects: seq<string>, output: string)
      requires Valid() && |multi| == Pow2(|selects|)
      modifies this, table
      ensures Valid()
      ensures lines == old(lines) + [Gate(Multiplexer, selects, [output], multi)]
      ensures table.Env() == DeclareAll(old(table.Env()), multi + selects + [output])
      ensures table.Done() == old(table.Done())
      ensures ordered == old(ordered) && inputSlots == old(inputSlots) && outputSlots == old(outputSlots)
    {
      var numInputs := Log2(|multi|);
      assert numInputs == |selects|;
      InsertNames(multi);
      InsertNames(selects[..numInputs]);
      InsertNames([output]);
      assert selects[..numInputs] == selects;
      DeclareAllConcat(old(table.Env()), multi, selects);
      DeclareAllConcat(old(table.Env()), multi + selects, [output]);
      ConsistentGrows(lines, ordered, inputSlots, outputSlots, old(table.Names()), table.Names());
      InsertLine(Gate(Multiplexer, selects[..numInputs], [output], multi));
    }

    /** One name of the `INPUTVAR` / `OUTPUTVAR` loop: `insert(name, 0)`,
        the slot takes the node at the head, and the second program marks
        that node done. */
    method DeclareOne(name: string, markDone: bool) returns (h: string)
      requires table.Valid()
      requires IsLiteral(name) ==> table.vars != []
      modifies table
      ensures table.Valid() && table.vars != [] && h == HeadName(table)
      ensures h == if IsLiteral(name) || name in old(table.Names()) then old(HeadName(table)) else name
      ensures table.Names() == old(table.Names()) + (if IsLiteral(name) then {} else {name})
      ensures table.Env() == if IsLiteral(name) || name in old(table.Names()) then old(table.Env()) else old(table.Env())[name := 0]
      ensures table.Done() == old(table.Done()) + (if markDone then {h} else {})
    {
      table.Insert(name, 0);
      h := table.vars[0].name;
      if markDone {
        table.SetDone(h);
      }
    }

    /** The state of the `INPUTVAR` / `OUTPUTVAR` loop after i names, from
        values e0, names names0 and done names done0 at the start, where
        slots0 are the slots of all names. */
    ghost predicate DeclaredSoFar(names: seq<string>, i: nat, markDone: bool, slots: seq<string>,
                                  e0: Env, slots0: seq<string>, names0: set<string>, done0: set<string>)
      reads this, table
    {
      i <= |names| &&
      table.Valid() &&
      slots + Slots(names[i..], table.Names(), HeadName(table)) == slots0 &&
      DeclareAll(table.Env(), names[i..]) == DeclareAll(e0, names) &&
      names0 <= table.Names() &&
      (forall s :: s in slots ==> s in table.Names()) &&
      table.Done() == done0 + (if markDone then Elems(slots) else {}) &&
      |slots| == i && (i > 0 ==> table.vars != [] && HeadName(table) == slots[i - 1])
    }

    /** One turn of the `INPUTVAR` / `OUTPUTVAR` loop. */
    method DeclareNext(names: seq<string>, i: nat, markDone: bool, slots: seq<string>,
                       ghost e0: Env, ghost slots0: seq<string>, ghost names0: set<string>, ghost done0: set<string>)
      returns (slots': seq<string>)
      requires i < |names| && DeclaredSoFar(names, i, markDone, slots, e0, slots0, names0, done0)
      requires IsLiteral(names[i]) ==> table.vars != []
      modifies table
      ensures DeclaredSoFar(names, i + 1, markDone, slots', e0, slots0, names0, done0)
    {
      ghost var known, head, env := table.Names(), HeadName(table), table.Env();
      var h := DeclareOne(names[i], markDone);
      DeclareStep(names[i..], known, head, env, table.Names(), h, table.Env());
      assert names[i..][1..] == names[i + 1..];
      ghost var tail := Slots(names[i + 1..], table.Names(), h);
      assert (slots + [h]) + tail == slots + ([h] + tail);
      ElemsSnoc(slots, h);
      slots' := slots + [h];
    }

    /** The `INPUTVAR` / `OUTPUTVAR` loop without the reading: each name is
        inserted with value 0 and the slot takes the node at the head; the
        second program also marks that node done. When the first name is a
        constant and the table is empty there is no head node and the C code
        dereferences NULL; that is excluded. */
    method Declare(names: seq<string>, markDone: bool) returns (slots: seq<string>)
      requires table.Valid()
      requires names != [] && IsLiteral(names[0]) ==> table.vars != []
      modifies table
      ensures table.Valid()
      ensures slots == Slots(names, old(table.Names()), old(HeadName(table)))
      ensures table.Env() == DeclareAll(old(table.Env()), names)
      ensures table.Names() == old(table.Names()) + set n | n in names && !IsLiteral(n)
      ensures forall s :: s in slots ==> s in table.Names()
      ensures table.Done() == old(table.Done()) + if markDone then Elems(slots) else {}
      ensures names != [] ==> table.vars != [] && HeadName(table) == slots[|slots| - 1]
    {
      slots := [];
      ghost var e0, slots0 := table.Env(), Slots(names, table.Names(), HeadName(table));
      ghost var names0, done0, vars0 := table.Names(), table.Done(), table.vars;
      for i := 0 to |names|
        invariant DeclaredSoFar(names, i, markDone, slots, e0, slots0, names0, done0)
        invariant i == 0 ==> table.vars == vars0
      {
        slots := DeclareNext(names, i, markDone, slots, e0, slots0, names0, done0);
      }
      DeclareAllSpec(e0, names);
    }

    /** Filling `inputArray` and `outputArray` with the slots the
        declaration loops produced. */
    method SetSlots(ins: seq<string>, outs: seq<string>)
      requires table.Valid() && lines == [] && ordered == []
      requires (forall s :: s in ins ==> s in table.Names()) && (forall s :: s in outs ==> s in table.Names())
      modifies this
      ensures Valid() && lines == [] && ordered == [] && inputSlots == ins && outputSlots == outs
    {
      inputSlots, outputSlots := ins, outs;
    }

    /** The scanner's readiness test: `getDone` of every input and, for a
        multiplexer, of every encoding signal. */
    method IsReady(g: Gate) returns (ready: bool)
      requires table.Valid() && Declared(g, table.Names())
      ensures ready <==> Ready(g, table.Done())
    {
      ready := true;
      for a := 0 to |g.inputs|
        invariant ready <==> forall j :: 0 <= j < a ==> IsLiteral(g.inputs[j]) || g.inputs[j] in table.Done()
      {
        assert g.inputs[a] in Reads(g);
        var d := table.GetDone(g.inputs[a]);
        if !d {
          ready := false;
        }
      }
      if g.op == Multiplexer {
        for c := 0 to Pow2(|g.inputs|)
          invariant ready <==> (forall j :: 0 <= j < |g.inputs| ==> IsLiteral(g.inputs[j]) || g.inputs[j] in table.Done()) &&
                               (forall j :: 0 <= j < c ==> IsLiteral(g.multi[j]) || g.multi[j] in table.Done())
        {
          assert g.multi[c] in Reads(g);
          var d := table.GetDone(g.multi[c]);
          if !d {
            ready := false;
          }
        }
      }
      assert forall n :: n in Reads(g) ==> n in g.inputs || (g.op == Multiplexer && n in g.multi);
    }

    /** `setDone` of each output of a scheduled gate. */
    method MarkOutputsDone(g: Gate)
      requires table.Valid() && Declared(g, table.Names())
      modifies table
      ensures table.Valid()
      ensures table.Done() == old(table.Done()) + Writes(g)
      ensures table.Env() == old(table.Env()) && table.Names() == old(table.Names())
    {
      for b := 0 to |g.outputs|
        invariant table.Valid()
        invariant table.Done() == old(table.Done()) + NonLiterals(g.outputs[..b])
        invariant table.Env() == old(table.Env()) && table.Names() == old(table.Names())
      {
        table.SetDone(g.outputs[b]);
        assert g.outputs[..b + 1] == g.outputs[..b] + [g.outputs[b]];
        NonLiteralsSnoc(g.outputs[..b], g.outputs[b]);
      }
      assert g.outputs[..|g.outputs|] == g.outputs;
    }

    /** One scan of the sorting loop: from the head of the gate list to the
        first gate whose read signals are all done. */
    method ScanReady() returns (k: nat)
      requires Valid()
      ensures k <= |lines|
      ensures k == |lines| <==> FirstReady(lines, table.Done()).None?
      ensures k < |lines| ==> FirstReady(lines, table.Done()) == Some(k)
    {
      k := 0;
      while k < |lines|
        invariant k <= |lines|
        invariant forall j :: 0 <= j < k ==> !Ready(lines[j], table.Done())
      {
        assert lines[k] in lines;
        var ready := IsReady(lines[k]);
        if ready {
          assert FirstReady(lines, table.Done()).Some?;
          return;
        }
        k := k + 1;
      }
    }

    /** One move of the sorting loop: the gate at position k is unlinked from
        the gate list, its outputs are marked done, and it is appended to the
        ordered list. */
    method MoveGate(k: nat)
      requires Valid() && k < |lines|
      modifies this, table
      ensures Valid()
      ensures lines == old(lines[..k] + lines[k + 1..]) && ordered == old(ordered) + [old(lines[k])]
      ensures table.Done() == old(table.Done()) + Writes(old(lines[k]))
      ensures table.Env() == old(table.Env()) && table.Names() == old(table.Names())
      ensures inputSlots == old(inputSlots) && outputSlots == old(outputSlots)
    {
      var g := lines[k];
      assert g in lines;
      MarkOutputsDone(g);
      ghost var before := lines;
      lines := lines[..k] + lines[k + 1..];
      assert forall h :: h in lines ==> h in before;
      ordered := ordered + [g];
    }

    /** The state of the sorting loop once the gates `placed` have been moved,
        from the ordered list ordered0, the done names done0, the values env0,
        the names names0 and the slots ins0 and outs0 at the start; target is
        the outcome the loop reaches. */
    ghost predicate Scheduling(ordered0: seq<Gate>, done0: set<string>, env0: Env, names0: set<string>,
                               ins0: seq<string>, outs0: seq<string>,
                               placed: seq<Gate>, target: Option<seq<Gate>>)
      reads this, table
    {
      Valid() &&
      Progress(lines, ordered, table.Done(), ordered0, done0, placed, target) &&
      table.Env() == env0 && table.Names() == names0 &&
      inputSlots == ins0 && outputSlots == outs0
    }

    /** One pass of the outer sorting loop: scan for the first ready gate and
        move it, or report that there is none. */
    method MoveFirstReady(ghost ordered0: seq<Gate>, ghost done0: set<string>, ghost env0: Env, ghost names0: set<string>,
                          ghost ins0: seq<string>, ghost outs0: seq<string>,
                          ghost placed: seq<Gate>, ghost target: Option<seq<Gate>>)
      returns (moved: bool, ghost g: Gate)
      requires lines != [] && Scheduling(ordered0, done0, env0, names0, ins0, outs0, placed, target)
      modifies this, table
      ensures moved ==> |lines| < old(|lines|) && Scheduling(ordered0, done0, env0, names0, ins0, outs0, placed + [g], target)
      ensures !moved ==> target.None? && Scheduling(ordered0, done0, env0, names0, ins0, outs0, placed, target)
    {
      var k := ScanReady();
      g := lines[0];
      if k == |lines| {
        moved := false;
        return;
      }
      g := lines[k];
      ProgressAdvance(lines, ordered, table.Done(), k, ordered0, done0, placed, target);
      MoveGate(k);
      moved := true;
    }

    /** The sorting loop of the second program: while gates remain, scan from
        the head for the first ready gate, mark its outputs done, unlink it and
        append it to the ordered list; finally the ordered list becomes the gate
        list. When a scan finds no ready gate the C loop never ends; here the
        method returns false at that point. */
    method ScheduleGates() returns (ok: bool)
      requires Valid()
      modifies this, table
      ensures Valid()
      ensures ok <==> Schedule(old(lines), old(table.Done())).Some?
      ensures ok ==> ordered == old(ordered) + Schedule(old(lines), old(table.Done())).value && lines == ordered
      ensures ok ==> table.Done() == old(table.Done()) + Written(Schedule(old(lines), old(table.Done())).value)
      ensures table.Env() == old(table.Env()) && table.Names() == old(table.Names())
      ensures inputSlots == old(inputSlots) && outputSlots == old(outputSlots)
    {
      ghost var target := Schedule(lines, table.Done());
      ghost var placed: seq<Gate> := [];
      ghost var ordered0, done0, env0, names0 := ordered, table.Done(), table.Env(), table.Names();
      ghost var ins0, outs0 := inputSlots, outputSlots;
      assert [] + lines == lines;
      while lines != []
        invariant Scheduling(ordered0, done0, env0, names0, ins0, outs0, placed, target)
        decreases |lines|
      {
        var moved, g := MoveFirstReady(ordered0, done0, env0, names0, ins0, outs0, placed, target);
        if !moved {
          return false;
        }
        placed := placed + [g];
      }
      ProgressDone(ordered, table.Done(), ordered0, done0, placed, target);
      lines := ordered;
      return true;
    }

    /** `getValue` of each name in turn, into a fresh array in the C code. */
    method ReadValues(names: seq<string>) returns (vals: seq<Bit>)
      requires table.Valid() && forall n :: n in names ==> IsLiteral(n) || n in table.Names()
      ensures vals == ReadAll(table.Env(), names)
    {
      vals := [];
      for k := 0 to |names|
        invariant vals == ReadAll(table.Env(), names[..k])
      {
        var v := table.GetValue(names[k]);
        vals := vals + [v];
      }
      assert names[..|names|] == names;
    }

    /** The NOT case and the six two-input cases of the evaluation `switch`:
        read the inputs with `getValue`, write the output with `setValue`. */
    method EvalSimple(g: Gate)
      requires table.Valid() && Evaluable(g, table.Names()) && (g.op == Not || g.op.IsBinary())
      modifies table
      ensures table.Valid()
      ensures table.Env() == Step(g, old(table.Env()))
      ensures table.Names() == old(table.Names()) && table.Done() == old(table.Done())
    {
      assert g.inputs[0] in Reads(g) && g.outputs[0] in g.outputs;
      var x := table.GetValue(g.inputs[0]);
      var v: Bit;
      if g.op == Not {
        v := MyNot(x);
      } else {
        assert g.inputs[1] in Reads(g);
        var y := table.GetValue(g.inputs[1]);
        v := Binary(g.op, x, y);
      }
      StepOneOutput(g, table.Env());
      table.SetValue(g.outputs[0], v);
    }

    /** The output loop of the decoder case: output l gets 1 when l is the
        decoded index and 0 otherwise. */
    method WriteOneHot(outs: seq<string>, idx: nat)
      requires table.Valid() && forall n :: n in outs ==> n in table.Names()
      modifies table
      ensures table.Valid()
      ensures table.Env() == WriteAll(old(table.Env()), outs, OneHot(|outs|, idx))
      ensures table.Names() == old(table.Names()) && table.Done() == old(table.Done())
    {
      ghost var e0 := table.Env();
      ghost var vals := OneHot(|outs|, idx);
      for l := 0 to |outs|
        invariant table.Valid()
        invariant table.Env() == WriteAll(e0, outs[..l], vals[..l])
        invariant table.Names() == old(table.Names()) && table.Done() == old(table.Done())
      {
        assert outs[l] in outs;
        ghost var cur := table.Env();
        table.SetValue(outs[l], if l == idx then 1 else 0);
        WriteAllStep(e0, outs, vals, l, cur, table.Env());
      }
      assert outs[..|outs|] == outs && vals[..|vals|] == vals;
    }

    /** The decoder case: the select values are read, `myDecoder` gives the
        index, and the outputs are written one-hot. */
    method EvalDecoder(g: Gate)
      requires table.Valid() && Evaluable(g, table.Names()) && g.op == Decoder
      modifies table
      ensures table.Valid()
      ensures table.Env() == Step(g, old(table.Env()))
      ensures table.Names() == old(table.Names()) && table.Done() == old(table.Done())
    {
      assert forall n :: n in g.inputs ==> n in Reads(g);
      var ins := ReadValues(g.inputs);
      var idx := MyDecoder(ins);
      DecoderOutputs(g, table.Env());
      WriteOneHot(g.outputs, idx);
    }

    /** The multiplexer case: the encoding values and the select values are
        read, and the output gets the value `myMultiplexer` selects. */
    method EvalMultiplexer(g: Gate)
      requires table.Valid() && Evaluable(g, table.Names()) && g.op == Multiplexer
      modifies table
      ensures table.Valid()
      ensures table.Env() == Step(g, old(table.Env()))
      ensures table.Names() == old(table.Names()) && table.Done() == old(table.Done())
    {
      assert forall n :: n in g.inputs ==> n in Reads(g);
      assert forall n :: n in g.multi ==> n in Reads(g);
      assert g.outputs[0] in g.outputs;
      var encoding := ReadValues(g.multi);
      var ins := ReadValues(g.inputs);
      var r := MyMultiplexer(encoding, ins);
      StepOneOutput(g, table.Env());
      table.SetValue(g.outputs[0], r);
    }

    /** One case of the evaluation `switch`: the gate's values are read with
        `getValue`, computed, and written with `setValue`. */
    method EvalGate(g: Gate)
      requires table.Valid() && Evaluable(g, table.Names())
      modifies table
      ensures table.Valid()
      ensures table.Env() == Step(g, old(table.Env()))
      ensures table.Names() == old(table.Names()) && table.Done() == old(table.Done())
    {
      if g.op == Decoder {
        EvalDecoder(g);
      } else if g.op == Multiplexer {
        EvalMultiplexer(g);
      } else {
        EvalSimple(g);
      }
    }

    /** The `while(ptr != NULL)` pass: every gate of the list, in list order. */
    method RunGates()
      requires table.Valid() && AllEvaluable(lines, table.Names())
      modifies table
      ensures table.Valid()
      ensures table.Env() == EvalAll(lines, old(table.Env()))
      ensures table.Names() == old(table.Names()) && table.Done() == old(table.Done())
    {
      for p := 0 to |lines|
        invariant table.Valid()
        invariant table.Env() == EvalAll(lines[..p], old(table.Env()))
        invariant table.Names() == old(table.Names()) && table.Done() == old(table.Done())
      {
        EvalGate(lines[p]);
        assert lines[..p + 1][..p] == lines[..p];
      }
      assert lines[..|lines|] == lines;
    }

    /** Setting the inputs of row i: for j from 0 up, the slot at m-1-j gets
        bit j of the row's Gray code (written straight into the node). */
    method SetRowInputs(code: nat, ghost i: nat)
      requires table.Valid() && (forall s :: s in inputSlots ==> s in table.Names())
      requires |inputSlots| >= 1 && code == Gray.Gray(i)
      modifies table
      ensures table.Valid()
      ensures table.Env() == SetInputs(old(table.Env()), inputSlots, InputRow(|inputSlots|, i))
      ensures table.Names() == old(table.Names()) && table.Done() == old(table.Done())
    {
      var m := |inputSlots|;
      ghost var e0 := table.Env();
      ghost var names, row := Reverse(inputSlots), Reverse(InputRow(m, i));
      for j := 0 to m
        invariant table.Valid()
        invariant table.Env() == WriteAll(e0, names[..j], row[..j])
        invariant table.Names() == old(table.Names()) && table.Done() == old(table.Done())
      {
        assert inputSlots[m - j - 1] in inputSlots;
        ghost var cur := table.Env();
        table.SetValue(inputSlots[m - j - 1], BitAt(code, j));
        SetInputsPrefix(e0, inputSlots, i, j, cur, table.Env());
      }
      assert names[..m] == names && row[..m] == row;
    }

    /** One row of the enumeration loop with at least one gate: set the
        inputs from the row's Gray code, run every gate, and read the values
        at the input and output slots. */
    method RunRow(code: nat, ghost i: nat) returns (row: Row)
      requires table.Valid() && AllEvaluable(lines, table.Names())
      requires (forall s :: s in inputSlots ==> s in table.Names()) && (forall s :: s in outputSlots ==> s in table.Names())
      requires |inputSlots| >= 1 && code == Gray.Gray(i)
      modifies table
      ensures table.Valid()
      ensures table.Env() == RowEnv(old(table.Env()), inputSlots, lines, i)
      ensures row == RowOf(table.Env(), inputSlots, outputSlots)
      ensures table.Names() == old(table.Names()) && table.Done() == old(table.Done())
    {
      SetRowInputs(code, i);
      RunGates();
      var ins := ReadValues(inputSlots);
      var outs := ReadValues(outputSlots);
      row := Row(ins, outs);
    }

    /** The state of the enumeration loop after i rows, from values e0 and
        done names done0 at the start. */
    ghost predicate RowsSoFar(e0: Env, done0: set<string>, i: nat, rows: seq<Row>)
      reads this, table
    {
      table.Valid() && table.Names() == e0.Keys && table.Done() == done0 &&
      (forall s :: s in inputSlots ==> s in e0) && (forall s :: s in outputSlots ==> s in e0) &&
      AllEvaluable(lines, e0.Keys) &&
      rows == Rows(e0, inputSlots, outputSlots, lines, i) &&
      table.Env() == StateAfter(e0, inputSlots, lines, i)
    }

    /** One turn of the enumeration loop. */
    method NextRow(code: nat, ghost e0: Env, ghost done0: set<string>, ghost i: nat, rows: seq<Row>)
      returns (rows': seq<Row>)
      requires RowsSoFar(e0, done0, i, rows) && |inputSlots| >= 1 && code == Gray.Gray(i)
      modifies table
      ensures RowsSoFar(e0, done0, i + 1, rows')
    {
      var row := RunRow(code, i);
      RowsSnoc(e0, inputSlots, outputSlots, lines, i);
      rows' := rows + [row];
    }

    /** The rows of the enumeration loop when there is at least one gate,
        driven by the table of Gray codes. */
    method EnumerateRows(codes: array<nat>) returns (rows: seq<Row>)
      requires table.Valid() && AllEvaluable(lines, table.Names()) && lines != []
      requires (forall s :: s in inputSlots ==> s in table.Names()) && (forall s :: s in outputSlots ==> s in table.Names())
      requires |inputSlots| >= 1 && codes.Length == Pow2(|inputSlots|)
      requires forall i :: 0 <= i < codes.Length ==> codes[i] == Gray.Gray(i)
      modifies table
      ensures table.Valid()
      ensures rows == Rows(old(table.Env()), inputSlots, outputSlots, lines, Pow2(|inputSlots|))
      ensures table.Env() == StateAfter(old(table.Env()), inputSlots, lines, Pow2(|inputSlots|))
      ensures table.Names() == old(table.Names()) && table.Done() == old(table.Done())
    {
      ghost var e0, done0 := table.Env(), table.Done();
      rows := [];
      for i := 0 to codes.Length
        invariant RowsSoFar(e0, done0, i, rows)
      {
        rows := NextRow(codes[i], e0, done0, i, rows);
      }
    }

    /** The enumeration loop: 2^m rows; each sets its inputs, exits the
        program if there are no gates, runs every gate, and yields the values
        at the input and output slots. Nothing is reset between rows.
        `genGrayCode(0)` shifts by -1, so at least one input is required. */
    method Enumerate() returns (rows: seq<Row>)
      requires table.Valid() && AllEvaluable(lines, table.Names())
      requires (forall s :: s in inputSlots ==> s in table.Names()) && (forall s :: s in outputSlots ==> s in table.Names())
      requires |inputSlots| >= 1
      modifies table
      ensures table.Valid()
      ensures Run(rows, table.Env()) == Enumeration(old(table.Env()), inputSlots, outputSlots, lines)
      ensures table.Names() == old(table.Names()) && table.Done() == old(table.Done())
    {
      var grayArray := GenGrayCode(|inputSlots|);
      if lines == [] {
        SetRowInputs(grayArray[0], 0);
        rows := [];
      } else {
        rows := EnumerateRows(grayArray);
      }
    }
  }
}
