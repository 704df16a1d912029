/** What one case of the evaluation `switch(ptr->oper)` does to the values of
    the signal table, what running a gate list in order does, and what the
    enumeration loop produces row after row. Values are a map from declared
    names to bits; the table class in Signals exposes its values as such a map. */
module Evaluation {
  import opened Bits
  import opened Gray
  import opened Gates
  import opened Signals
  import opened Scheduling

  predicate Distinct(s: seq<string>)
  {
    forall i, j :: 0 <= i < j < |s| ==> s[i] != s[j]
  }

  /** The gate can run against a table holding `keys`: it has the operand
      counts of its kind, every name it reads is a constant or declared, and
      every name it writes is declared (`setValue` has no case for the
      constants and walks off the list for a missing name). */
  predicate Evaluable(g: Gate, keys: set<string>)
  {
    WellFormed(g) &&
    (forall n :: n in Reads(g) ==> IsLiteral(n) || n in keys) &&
    (forall n :: n in g.outputs ==> n in keys)
  }

  predicate AllEvaluable(gs: seq<Gate>, keys: set<string>)
  {
    forall k :: 0 <= k < |gs| ==> Evaluable(gs[k], keys)
  }

  /** `getValue` of each name in turn. */
  function ReadAll(env: Env, names: seq<string>): (vals: seq<Bit>)
    requires forall n :: n in names ==> IsLiteral(n) || n in env
    ensures |vals| == |names|
  {
    seq(|names|, p requires 0 <= p < |names| => Read(env, names[p]))
  }

  /** `setValue` of each name in turn; a later write to the same name wins. */
  function WriteAll(env: Env, names: seq<string>, vals: seq<Bit>): (r: Env)
    requires |names| == |vals|
    ensures forall n :: n in r <==> n in env || n in names
    decreases |names|
  {
    if names == [] then env
    else WriteAll(env, names[..|names| - 1], vals[..|vals| - 1])[names[|names| - 1] := vals[|vals| - 1]]
  }

  /** Writing one more name of a list. */
  lemma WriteAllStep(env: Env, names: seq<string>, vals: seq<Bit>, l: nat, cur: Env, next: Env)
    requires |names| == |vals| && l < |names|
    requires cur == WriteAll(env, names[..l], vals[..l]) && next == cur[names[l] := vals[l]]
    ensures next == WriteAll(env, names[..l + 1], vals[..l + 1])
  {
    assert names[..l + 1][..l] == names[..l] && vals[..l + 1][..l] == vals[..l];
  }

  /** A name that is not written keeps its value. */
  lemma {:induction false} WriteAllOther(env: Env, names: seq<string>, vals: seq<Bit>, n: string)
    requires |names| == |vals| && n in env && n !in names
    ensures WriteAll(env, names, vals)[n] == env[n]
    decreases |names|
  {
    if names != [] {
      WriteAllOther(env, names[..|names| - 1], vals[..|vals| - 1], n);
    }
  }

  /** With distinct names, every name ends up with its own value. */
  lemma {:induction false} WriteAllAt(env: Env, names: seq<string>, vals: seq<Bit>, p: nat)
    requires |names| == |vals| && p < |names| && Distinct(names)
    ensures WriteAll(env, names, vals)[names[p]] == vals[p]
    decreases |names|
  {
    if p < |names| - 1 {
      WriteAllAt(env, names[..|names| - 1], vals[..|vals| - 1], p);
    }
  }

  /** The final value of a written name does not depend on the values before. */
  lemma {:induction false} WriteAllSame(e1: Env, e2: Env, names: seq<string>, vals: seq<Bit>, n: string)
    requires |names| == |vals| && n in names
    ensures WriteAll(e1, names, vals)[n] == WriteAll(e2, names, vals)[n]
    decreases |names|
  {
    if n != names[|names| - 1] {
      assert n in names[..|names| - 1] by {
        var p :| 0 <= p < |names| && names[p] == n;
        assert names[..|names| - 1][p] == n;
      }
      WriteAllSame(e1, e2, names[..|names| - 1], vals[..|vals| - 1], n);
    }
  }

  /** The decoder's output values: 1 at position `idx`, 0 elsewhere. */
  function OneHot(n: nat, idx: nat): (r: seq<Bit>)
    ensures |r| == n
  {
    seq(n, l => if l == idx then 1 else 0)
  }

  /** The values a gate writes to its outputs, all computed from the values
      before the gate runs. */
  function Outputs(g: Gate, env: Env): (vals: seq<Bit>)
    requires Evaluable(g, env.Keys)
    ensures |vals| == |g.outputs|
  {
    assert forall n :: n in g.inputs ==> n in Reads(g);
    var sel := SelectCode(ReadAll(env, g.inputs));
    match g.op
    case Not => [MyNot(Read(env, g.inputs[0]))]
    case Decoder => OneHot(Pow2(|g.inputs|), GrayToBinary(sel))
    case Multiplexer =>
      assert forall n :: n in g.multi ==> n in Reads(g);
      GrayToBinaryBound(sel, |g.inputs|);
      [ReadAll(env, g.multi)[GrayToBinary(sel)]]
    case _ => [Binary(g.op, Read(env, g.inputs[0]), Read(env, g.inputs[1]))]
  }

  /** One gate run: its outputs get the values it computes. */
  function Step(g: Gate, env: Env): (r: Env)
    requires Evaluable(g, env.Keys)
    ensures r.Keys == env.Keys
  {
    WriteAll(env, g.outputs, Outputs(g, env))
  }

  /** The gates run one after another in list order. */
  function EvalAll(gs: seq<Gate>, env: Env): (r: Env)
    requires AllEvaluable(gs, env.Keys)
    ensures r.Keys == env.Keys
    decreases |gs|
  {
    if gs == [] then env
    else Step(gs[|gs| - 1], EvalAll(gs[..|gs| - 1], env))
  }

  /** A gate changes the value of no name but its outputs. */
  lemma StepFrame(g: Gate, env: Env, n: string)
    requires Evaluable(g, env.Keys) && n in env && n !in g.outputs
    ensures Step(g, env)[n] == env[n]
  {
    WriteAllOther(env, g.outputs, Outputs(g, env), n);
  }

  /** A decoder writes the one-hot word of its Gray-decoded select word. */
  lemma DecoderOutputs(g: Gate, env: Env)
    requires Evaluable(g, env.Keys) && g.op == Decoder
    ensures Outputs(g, env) == OneHot(Pow2(|g.inputs|), GrayToBinary(SelectCode(ReadAll(env, g.inputs))))
  {
  }

  /** A gate with one output writes just that output. */
  lemma StepOneOutput(g: Gate, env: Env)
    requires Evaluable(g, env.Keys) && |g.outputs| == 1
    ensures Step(g, env) == env[g.outputs[0] := Outputs(g, env)[0]]
  {
    var vals := Outputs(g, env);
    assert g.outputs[..0] == [] && vals[..0] == [];
    assert WriteAll(env, g.outputs[..0], vals[..0]) == env;
    assert Step(g, env) == WriteAll(env, g.outputs[..0], vals[..0])[g.outputs[0] := vals[0]];
  }

  /** NOT and the two-input gates write their one output with the gate function
      of the values they read. */
  lemma StepSimple(g: Gate, env: Env)
    requires Evaluable(g, env.Keys) && (g.op == Not || g.op.IsBinary())
    ensures g.op == Not ==> Step(g, env)[g.outputs[0]] == MyNot(Read(env, g.inputs[0]))
    ensures g.op.IsBinary() ==>
              Step(g, env)[g.outputs[0]] == Binary(g.op, Read(env, g.inputs[0]), Read(env, g.inputs[1]))
  {
    assert g.outputs[..0] == [];
  }

  /** A decoder with distinct outputs sets exactly one of its 2^n outputs to
      1: the one at the Gray-decoded select word. */
  lemma DecoderOneHot(g: Gate, env: Env)
    requires Evaluable(g, env.Keys) && g.op == Decoder && Distinct(g.outputs)
    ensures GrayToBinary(SelectCode(ReadAll(env, g.inputs))) < |g.outputs|
    ensures forall l :: 0 <= l < |g.outputs| ==>
              (Step(g, env)[g.outputs[l]] == 1 <==> l == GrayToBinary(SelectCode(ReadAll(env, g.inputs))))
  {
    assert forall n :: n in g.inputs ==> n in Reads(g);
    GrayToBinaryBound(SelectCode(ReadAll(env, g.inputs)), |g.inputs|);
    forall l | 0 <= l < |g.outputs|
      ensures Step(g, env)[g.outputs[l]] == 1 <==> l == GrayToBinary(SelectCode(ReadAll(env, g.inputs)))
    {
      WriteAllAt(env, g.outputs, Outputs(g, env), l);
    }
  }

  /** A multiplexer writes the value of the encoding signal at the
      Gray-decoded select word. */
  lemma MultiplexerSelects(g: Gate, env: Env)
    requires Evaluable(g, env.Keys) && g.op == Multiplexer
    ensures GrayToBinary(SelectCode(ReadAll(env, g.inputs))) < |g.multi|
    ensures Step(g, env)[g.outputs[0]] == Read(env, g.multi[GrayToBinary(SelectCode(ReadAll(env, g.inputs)))])
  {
    assert forall n :: n in g.inputs ==> n in Reads(g);
    assert forall n :: n in g.multi ==> n in Reads(g);
    GrayToBinaryBound(SelectCode(ReadAll(env, g.inputs)), |g.inputs|);
    assert g.outputs[..0] == [];
  }

  /** A name no gate writes keeps its value through the whole list. */
  lemma {:induction false} EvalAllFrame(gs: seq<Gate>, env: Env, n: string)
    requires AllEvaluable(gs, env.Keys) && n in env
    requires forall k :: 0 <= k < |gs| ==> n !in gs[k].outputs
    ensures EvalAll(gs, env)[n] == env[n]
    decreases |gs|
  {
    if gs != [] {
      EvalAllFrame(gs[..|gs| - 1], env, n);
      StepFrame(gs[|gs| - 1], EvalAll(gs[..|gs| - 1], env), n);
    }
  }

  /** The two value maps hold the same value for every name of `d`. */
  ghost predicate Agree(e1: Env, e2: Env, d: set<string>)
  {
    forall n :: n in d ==> n in e1 && n in e2 && e1[n] == e2[n]
  }

  /** A gate reading only names on which two value maps agree computes the same values on both. */
  lemma OutputsAgree(g: Gate, e1: Env, e2: Env, d: set<string>)
    requires Evaluable(g, e1.Keys) && Evaluable(g, e2.Keys)
    requires Ready(g, d) && Agree(e1, e2, d)
    ensures Outputs(g, e1) == Outputs(g, e2)
  {
    assert forall n :: n in g.inputs ==> n in Reads(g);
    assert forall n :: n in g.multi && g.op == Multiplexer ==> n in Reads(g);
    assert ReadAll(e1, g.inputs) == ReadAll(e2, g.inputs);
    if g.op == Multiplexer {
      assert ReadAll(e1, g.multi) == ReadAll(e2, g.multi);
    }
  }

  lemma ValidOrderPrefix(gs: seq<Gate>, d: set<string>)
    requires gs != [] && ValidOrder(gs, d)
    ensures ValidOrder(gs[..|gs| - 1], d)
    ensures Ready(gs[|gs| - 1], d + Written(gs[..|gs| - 1]))
  {
    var p := gs[..|gs| - 1];
    forall k | 0 <= k < |p| ensures Ready(p[k], d + Written(p[..k])) {
      assert p[..k] == gs[..k];
    }
  }

  /** Along an order in which every gate reads only constants, names of `d`
      and names written before it, the values written are determined by the
      values of `d`: two runs that agree on `d` agree on `d` and everything
      written. */
  lemma {:induction false} EvalAllDetermined(gs: seq<Gate>, e1: Env, e2: Env, d: set<string>)
    requires AllEvaluable(gs, e1.Keys) && AllEvaluable(gs, e2.Keys)
    requires ValidOrder(gs, d) && Agree(e1, e2, d)
    ensures Agree(EvalAll(gs, e1), EvalAll(gs, e2), d + Written(gs))
    decreases |gs|
  {
    if gs != [] {
      var p, g := gs[..|gs| - 1], gs[|gs| - 1];
      ValidOrderPrefix(gs, d);
      EvalAllDetermined(p, e1, e2, d);
      var f1, f2 := EvalAll(p, e1), EvalAll(p, e2);
      OutputsAgree(g, f1, f2, d + Written(p));
      forall n | n in d + Written(gs)
        ensures n in Step(g, f1) && n in Step(g, f2) && Step(g, f1)[n] == Step(g, f2)[n]
      {
        if n in g.outputs {
          WriteAllSame(f1, f2, g.outputs, Outputs(g, f1), n);
        } else {
          assert n in d + Written(p);
          StepFrame(g, f1, n);
          StepFrame(g, f2, n);
        }
      }
    }
  }

  function Reverse<T>(s: seq<T>): (r: seq<T>)
    ensures |r| == |s| && forall i :: 0 <= i < |s| ==> r[i] == s[|s| - 1 - i]
  {
    seq(|s|, i requires 0 <= i < |s| => s[|s| - 1 - i])
  }

  lemma ReverseDistinct(s: seq<string>)
    requires Distinct(s)
    ensures Distinct(Reverse(s))
  {
  }

  /** Setting the inputs of a row: for j from 0 up, the input slot at m-1-j
      gets bit j of the row's Gray code, i.e. slot p gets `row[p]`, the slots
      written from the last to the first. */
  function SetInputs(env: Env, ins: seq<string>, row: seq<Bit>): (r: Env)
    requires |ins| == |row| && forall n :: n in ins ==> n in env
    ensures r.Keys == env.Keys
  {
    assert forall n :: n in Reverse(ins) ==> n in ins;
    WriteAll(env, Reverse(ins), Reverse(row))
  }

  /** With distinct input slots, slot p holds `row[p]`. */
  lemma SetInputsAt(env: Env, ins: seq<string>, row: seq<Bit>, p: nat)
    requires |ins| == |row| && (forall n :: n in ins ==> n in env) && Distinct(ins) && p < |ins|
    ensures SetInputs(env, ins, row)[ins[p]] == row[p]
  {
    ReverseDistinct(ins);
    var q := |ins| - 1 - p;
    WriteAllAt(env, Reverse(ins), Reverse(row), q);
  }

  /** Row i of the enumeration: the inputs are set from `i ^ (i >> 1)`, the
      first slot most significant, then every gate runs in list order. */
  function RowEnv(env: Env, ins: seq<string>, gs: seq<Gate>, i: nat): (r: Env)
    requires (forall n :: n in ins ==> n in env) && AllEvaluable(gs, env.Keys)
    ensures r.Keys == env.Keys
  {
    EvalAll(gs, SetInputs(env, ins, InputRow(|ins|, i)))
  }

  /** A row as printed: the values at the input slots, then at the output slots. */
  datatype Row = Row(ins: seq<Bit>, outs: seq<Bit>)

  /** The values left after the first n rows; nothing is reset between rows. */
  function StateAfter(env: Env, ins: seq<string>, gs: seq<Gate>, n: nat): (r: Env)
    requires (forall s :: s in ins ==> s in env) && AllEvaluable(gs, env.Keys)
    ensures r.Keys == env.Keys
    decreases n
  {
    if n == 0 then env else RowEnv(StateAfter(env, ins, gs, n - 1), ins, gs, n - 1)
  }

  /** What a row prints: the values at the input slots, then at the output slots. */
  function RowOf(env: Env, ins: seq<string>, outs: seq<string>): (r: Row)
    requires (forall s :: s in ins ==> s in env) && (forall s :: s in outs ==> s in env)
    ensures |r.ins| == |ins| && |r.outs| == |outs|
  {
    Row(ReadAll(env, ins), ReadAll(env, outs))
  }

  /** The first n rows: row i is printed from the values after running it. */
  function Rows(env: Env, ins: seq<string>, outs: seq<string>, gs: seq<Gate>, n: nat): (rows: seq<Row>)
    requires (forall s :: s in ins ==> s in env) && (forall s :: s in outs ==> s in env)
    requires AllEvaluable(gs, env.Keys)
    ensures |rows| == n
  {
    seq(n, i requires 0 <= i < n => RowAt(env, ins, outs, gs, i))
  }

  /** Row i as printed, from the values after running it. */
  function RowAt(env: Env, ins: seq<string>, outs: seq<string>, gs: seq<Gate>, i: nat): (r: Row)
    requires (forall s :: s in ins ==> s in env) && (forall s :: s in outs ==> s in env)
    requires AllEvaluable(gs, env.Keys)
    ensures |r.ins| == |ins| && |r.outs| == |outs|
  {
    RowOf(StateAfter(env, ins, gs, i + 1), ins, outs)
  }

  /** Row i is printed from the values left by the rows before it, after
      running row i. */
  lemma RowPrinted(env: Env, ins: seq<string>, outs: seq<string>, gs: seq<Gate>, n: nat, i: nat)
    requires (forall s :: s in ins ==> s in env) && (forall s :: s in outs ==> s in env)
    requires AllEvaluable(gs, env.Keys) && i < n
    ensures Rows(env, ins, outs, gs, n)[i] == RowOf(RowEnv(StateAfter(env, ins, gs, i), ins, gs, i), ins, outs)
  {
  }

  /** The rows so far, then the next row. */
  lemma RowsSnoc(env: Env, ins: seq<string>, outs: seq<string>, gs: seq<Gate>, n: nat)
    requires (forall s :: s in ins ==> s in env) && (forall s :: s in outs ==> s in env)
    requires AllEvaluable(gs, env.Keys)
    ensures Rows(env, ins, outs, gs, n + 1) ==
            Rows(env, ins, outs, gs, n) + [RowOf(StateAfter(env, ins, gs, n + 1), ins, outs)]
  {
  }

  /** Rows printed and the values of the table afterwards. */
  datatype Run = Run(rows: seq<Row>, env: Env)

  /** The whole enumeration loop: the rows printed and the values left behind.
      With no gates the program exits inside the first row, after setting its
      inputs and before printing it. */
  function Enumeration(env: Env, ins: seq<string>, outs: seq<string>, gs: seq<Gate>): (r: Run)
    requires (forall s :: s in ins ==> s in env) && (forall s :: s in outs ==> s in env)
    requires AllEvaluable(gs, env.Keys)
  {
    if gs == [] then Run([], SetInputs(env, ins, InputRow(|ins|, 0)))
    else Run(Rows(env, ins, outs, gs, Pow2(|ins|)), StateAfter(env, ins, gs, Pow2(|ins|)))
  }

  /** 2^m rows are printed when there is a gate, none otherwise. */
  lemma EnumerationLength(env: Env, ins: seq<string>, outs: seq<string>, gs: seq<Gate>)
    requires (forall s :: s in ins ==> s in env) && (forall s :: s in outs ==> s in env)
    requires AllEvaluable(gs, env.Keys)
    ensures |Enumeration(env, ins, outs, gs).rows| == if gs == [] then 0 else Pow2(|ins|)
  {
  }

  /** When the input slots are distinct and no gate writes one, input slot p
      holds bit p of row i's input pattern after the row has run. */
  lemma RowInputAt(env: Env, ins: seq<string>, gs: seq<Gate>, i: nat, p: nat)
    requires (forall s :: s in ins ==> s in env) && AllEvaluable(gs, env.Keys)
    requires Distinct(ins) && p < |ins|
    requires forall k :: 0 <= k < |gs| ==> ins[p] !in gs[k].outputs
    ensures RowEnv(env, ins, gs, i)[ins[p]] == InputRow(|ins|, i)[p]
  {
    var row := InputRow(|ins|, i);
    SetInputsAt(env, ins, row, p);
    EvalAllFrame(gs, SetInputs(env, ins, row), ins[p]);
  }

  /** So row i prints the input pattern of Gray code i, first slot most significant. */
  lemma RowInputs(env: Env, ins: seq<string>, gs: seq<Gate>, i: nat)
    requires (forall s :: s in ins ==> s in env && !IsLiteral(s)) && AllEvaluable(gs, env.Keys)
    requires Distinct(ins)
    requires forall k, s :: 0 <= k < |gs| && s in ins ==> s !in gs[k].outputs
    ensures ReadAll(RowEnv(env, ins, gs, i), ins) == InputRow(|ins|, i)
  {
    var f := RowEnv(env, ins, gs, i);
    forall p | 0 <= p < |ins| ensures ReadAll(f, ins)[p] == InputRow(|ins|, i)[p] {
      RowInputAt(env, ins, gs, i, p);
    }
  }

  /** Two equally long rows that differ at exactly one position. */
  ghost predicate DifferInOne(a: seq<Bit>, b: seq<Bit>)
  {
    |a| == |b| &&
    exists p :: 0 <= p < |a| && a[p] != b[p] && forall q :: 0 <= q < |a| && q != p ==> a[q] == b[q]
  }

  /** The printed input columns run through the reflected Gray code on m
      bits: row i holds the pattern of Gray code i, row 0 is all zeros, each
      row differs from the next in exactly one input, and no two rows repeat. */
  ghost predicate GrayColumns(rows: seq<Row>, m: nat)
  {
    (forall i :: 0 <= i < |rows| ==> rows[i].ins == InputRow(m, i)) &&
    (|rows| > 0 ==> forall p :: 0 <= p < |rows[0].ins| ==> rows[0].ins[p] == 0) &&
    (forall i :: 0 <= i < |rows| - 1 ==> DifferInOne(rows[i].ins, rows[i + 1].ins)) &&
    (forall i, j :: 0 <= i < j < |rows| ==> rows[i].ins != rows[j].ins)
  }

  /** When the input slots are distinct, not constants and written by no
      gate, the enumeration's rows have Gray-code input columns. */
  lemma EnumerationGrayOrder(env: Env, ins: seq<string>, outs: seq<string>, gs: seq<Gate>)
    requires (forall s :: s in ins ==> s in env && !IsLiteral(s)) && (forall s :: s in outs ==> s in env)
    requires AllEvaluable(gs, env.Keys) && gs != []
    requires Distinct(ins)
    requires forall k, s :: 0 <= k < |gs| && s in ins ==> s !in gs[k].outputs
    ensures |Enumeration(env, ins, outs, gs).rows| == Pow2(|ins|)
    ensures GrayColumns(Enumeration(env, ins, outs, gs).rows, |ins|)
  {
    var m := |ins|;
    var n := Pow2(m);
    var rows := Enumeration(env, ins, outs, gs).rows;
    forall i | 0 <= i < n ensures rows[i].ins == InputRow(m, i) {
      RowPrinted(env, ins, outs, gs, n, i);
      RowInputs(StateAfter(env, ins, gs, i), ins, gs, i);
    }
    FirstRowZero(m);
    forall i | 0 <= i < n - 1 ensures DifferInOne(rows[i].ins, rows[i + 1].ins) {
      AdjacentRowsDifferOnce(m, i);
    }
    forall i, j | 0 <= i < j < n ensures rows[i].ins != rows[j].ins {
      InputRowsDistinct(m, i, j);
    }
  }

  /** The names in a sequence, as a set. */
  function Elems(s: seq<string>): (r: set<string>)
    ensures forall x :: x in r <==> x in s
  {
    set x | x in s
  }

  lemma ElemsSnoc(s: seq<string>, x: string)
    ensures Elems(s + [x]) == Elems(s) + {x}
  {
  }

  /** Along an order valid from the input slots alone, row i's values at the
      inputs and at every gate-written name are the same whatever values the
      table held before the row: nothing stale from earlier rows is read. */
  lemma RowDetermined(e1: Env, e2: Env, ins: seq<string>, gs: seq<Gate>, i: nat)
    requires (forall s :: s in ins ==> s in e1 && s in e2)
    requires AllEvaluable(gs, e1.Keys) && AllEvaluable(gs, e2.Keys)
    requires ValidOrder(gs, Elems(ins))
    ensures Agree(RowEnv(e1, ins, gs, i), RowEnv(e2, ins, gs, i), Elems(ins) + Written(gs))
  {
    var row := InputRow(|ins|, i);
    var d := Elems(ins);
    var s1, s2 := SetInputs(e1, ins, row), SetInputs(e2, ins, row);
    forall n | n in d ensures n in s1 && n in s2 && s1[n] == s2[n] {
      assert n in Reverse(ins) by {
        var p :| 0 <= p < |ins| && ins[p] == n;
        assert Reverse(ins)[|ins| - 1 - p] == n;
      }
      WriteAllSame(e1, e2, Reverse(ins), Reverse(row), n);
    }
    EvalAllDetermined(gs, s1, s2, d);
  }

  /** So in the rows of the enumeration, every output column that is an input
      or written by a gate is the same whatever values the table started with. */
  lemma RowsDetermined(e1: Env, e2: Env, ins: seq<string>, outs: seq<string>, gs: seq<Gate>, i: nat, k: nat)
    requires (forall s :: s in ins ==> s in e1) && (forall s :: s in outs ==> s in e1)
    requires (forall s :: s in ins ==> s in e2) && (forall s :: s in outs ==> s in e2)
    requires AllEvaluable(gs, e1.Keys) && AllEvaluable(gs, e2.Keys)
    requires ValidOrder(gs, Elems(ins))
    requires k < |outs| && outs[k] in Elems(ins) + Written(gs)
    ensures RowAt(e1, ins, outs, gs, i).outs[k] == RowAt(e2, ins, outs, gs, i).outs[k]
  {
    var a, b := StateAfter(e1, ins, gs, i), StateAfter(e2, ins, gs, i);
    RowDetermined(a, b, ins, gs, i);
  }
}
