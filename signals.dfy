/** The signal table: the global linked list `head` of `struct var` nodes
    (name, value, done) and its counter `num_vars`. New variables are put at
    the head; lookups walk from the head to the first node with the name. The
    names "0" and "1" are constants and never stored. */
module Signals {
  import opened Bits

  predicate IsLiteral(name: string)
  {
    name == "0" || name == "1"
  }

  /** The value of every declared signal. */
  type Env = map<string, Bit>

  /** What `getValue` returns: the constant for "0" and "1", the stored value otherwise. */
  function Read(env: Env, name: string): Bit
    requires IsLiteral(name) || name in env
  {
    if name == "0" then 0 else if name == "1" then 1 else env[name]
  }

  /** One `struct var`. */
  datatype Var = Var(name: string, value: Bit, done: bool)

  /** The value a lookup from the head finds for each name in a list of nodes. */
  function EnvOf(vs: seq<Var>): Env
  {
    if vs == [] then map[] else EnvOf(vs[1..])[vs[0].name := vs[0].value]
  }

  /** The names in a list of nodes. */
  function NamesOf(vs: seq<Var>): set<string>
  {
    if vs == [] then {} else {vs[0].name} + NamesOf(vs[1..])
  }

  /** The names whose node has its done flag set. */
  function DoneOf(vs: seq<Var>): set<string>
  {
    if vs == [] then {} else (if vs[0].done then {vs[0].name} else {}) + DoneOf(vs[1..])
  }

  lemma {:induction false} EnvOfKeys(vs: seq<Var>)
    ensures EnvOf(vs).Keys == NamesOf(vs)
  {
    if vs != [] {
      EnvOfKeys(vs[1..]);
    }
  }

  /** A name is in the list exactly when some node carries it. */
  lemma {:induction false} NamesOfMember(vs: seq<Var>, n: string)
    ensures n in NamesOf(vs) <==> exists i :: 0 <= i < |vs| && vs[i].name == n
  {
    if vs != [] {
      NamesOfMember(vs[1..], n);
      if n in NamesOf(vs[1..]) {
        var i :| 0 <= i < |vs| - 1 && vs[1..][i].name == n;
        assert vs[i + 1].name == n;
      }
      if exists i :: 0 <= i < |vs| && vs[i].name == n {
        var i :| 0 <= i < |vs| && vs[i].name == n;
        if i > 0 {
          assert vs[1..][i - 1].name == n;
        }
      }
    }
  }

  /** With unique names, a node's name is done exactly when its flag is set. */
  lemma {:induction false} DoneOfAt(vs: seq<Var>, k: nat)
    requires k < |vs|
    requires forall j :: 0 <= j < |vs| && j != k ==> vs[j].name != vs[k].name
    ensures vs[k].name in DoneOf(vs) <==> vs[k].done
  {
    if k == 0 {
      DoneOfExcludes(vs[1..], vs[0].name);
    } else {
      DoneOfAt(vs[1..], k - 1);
    }
  }

  /** A name no node carries is not done. */
  lemma {:induction false} DoneOfExcludes(vs: seq<Var>, n: string)
    requires forall j :: 0 <= j < |vs| ==> vs[j].name != n
    ensures n !in DoneOf(vs)
  {
    if vs != [] {
      DoneOfExcludes(vs[1..], n);
    }
  }

  /** Changing only values keeps the names and the done names. */
  lemma {:induction false} SameShape(vs: seq<Var>, ws: seq<Var>)
    requires |vs| == |ws|
    requires forall i :: 0 <= i < |vs| ==> vs[i].name == ws[i].name && vs[i].done == ws[i].done
    ensures NamesOf(vs) == NamesOf(ws) && DoneOf(vs) == DoneOf(ws)
  {
    if vs != [] {
      SameShape(vs[1..], ws[1..]);
    }
  }

  /** Setting the done flag of node k adds its name to the done names. */
  lemma {:induction false} DoneOfSet(vs: seq<Var>, k: nat)
    requires k < |vs|
    ensures NamesOf(vs[k := vs[k].(done := true)]) == NamesOf(vs)
    ensures DoneOf(vs[k := vs[k].(done := true)]) == DoneOf(vs) + {vs[k].name}
  {
    var ws := vs[k := vs[k].(done := true)];
    if k == 0 {
      assert ws[1..] == vs[1..];
    } else {
      assert ws[1..] == vs[1..][k - 1 := vs[k].(done := true)];
      DoneOfSet(vs[1..], k - 1);
    }
  }

  /** The lookup finds the first node with the name. */
  lemma {:induction false} EnvOfAt(vs: seq<Var>, k: nat)
    requires k < |vs|
    requires forall j :: 0 <= j < k ==> vs[j].name != vs[k].name
    ensures vs[k].name in EnvOf(vs) && EnvOf(vs)[vs[k].name] == vs[k].value
  {
    if k > 0 {
      EnvOfAt(vs[1..], k - 1);
    }
  }

  /** Only names and values matter to the lookup. */
  lemma {:induction false} EnvOfNamesValues(vs: seq<Var>, ws: seq<Var>)
    requires |vs| == |ws|
    requires forall i :: 0 <= i < |vs| ==> vs[i].name == ws[i].name && vs[i].value == ws[i].value
    ensures EnvOf(vs) == EnvOf(ws)
  {
    if vs != [] {
      EnvOfNamesValues(vs[1..], ws[1..]);
    }
  }

  /** Overwriting the value of the first node with a name updates the lookup at that name only. */
  lemma {:induction false} EnvOfUpdate(vs: seq<Var>, k: nat, value: Bit)
    requires k < |vs|
    requires forall j :: 0 <= j < k ==> vs[j].name != vs[k].name
    ensures EnvOf(vs[k := vs[k].(value := value)]) == EnvOf(vs)[vs[k].name := value]
  {
    var ws := vs[k := vs[k].(value := value)];
    if k == 0 {
      assert ws[1..] == vs[1..];
    } else {
      assert ws[1..] == vs[1..][k - 1 := vs[k].(value := value)];
      EnvOfUpdate(vs[1..], k - 1, value);
    }
  }

  class SignalTable {
    /** The list from `head` on. */
    var vars: seq<Var>
    /** `num_vars`. */
    var numVars: int

    /** Names are unique, never a constant, and `num_vars` counts the nodes. */
    ghost predicate Valid()
      reads this
    {
      numVars == |vars| &&
      (forall i, j :: 0 <= i < j < |vars| ==> vars[i].name != vars[j].name) &&
      (forall i :: 0 <= i < |vars| ==> !IsLiteral(vars[i].name))
    }

    function Names(): set<string>
      reads this
    {
      NamesOf(vars)
    }

    function Env(): (env: Env)
      reads this
      ensures env.Keys == Names()
    {
      EnvOfKeys(vars);
      EnvOf(vars)
    }

    /** The names whose `done` flag is set. */
    function Done(): set<string>
      reads this
    {
      DoneOf(vars)
    }

    constructor ()
      ensures Valid() && vars == [] && numVars == 0
    {
      vars := [];
      numVars := 0;
    }

    /** The index of a declared name. */
    ghost function IndexOf(name: string): (k: nat)
      reads this
      requires Valid() && name in Names()
      ensures k < |vars| && vars[k].name == name
    {
      NamesOfMember(vars, name);
      var k :| 0 <= k < |vars| && vars[k].name == name; k
    }

    /** The environment records the value of the node with each name. */
    lemma EnvAt(k: nat)
      requires Valid() && k < |vars|
      ensures vars[k].name in Env() && Env()[vars[k].name] == vars[k].value
    {
      EnvOfAt(vars, k);
    }


    /** `exists`: a constant or a name in the list. */
    method Exists(name: string) returns (b: bool)
      requires Valid()
      ensures b <==> IsLiteral(name) || name in Names()
    {
      if name == "0" || name == "1" {
        return true;
      }
      if vars == [] {
        return false;
      }
      NamesOfMember(vars, name);
      var i := 0;
      while i < |vars|
        invariant 0 <= i <= |vars|
        invariant forall j :: 0 <= j < i ==> vars[j].name != name
      {
        if vars[i].name == name {
          return true;
        }
        i := i + 1;
      }
      return false;
    }

    /** `insert`: a constant or a declared name changes nothing; a new name is
        put at the head with the given value, not done, and counted. */
    method Insert(name: string, value: Bit)
      requires Valid()
      modifies this
      ensures Valid()
      ensures IsLiteral(name) || name in old(Names()) ==>
                vars == old(vars) && numVars == old(numVars)
      ensures !(IsLiteral(name) || name in old(Names())) ==>
                vars == [Var(name, value, false)] + old(vars) && numVars == old(numVars) + 1
      ensures Names() == old(Names()) + (if IsLiteral(name) then {} else {name})
      ensures Env() == if IsLiteral(name) || name in old(Names()) then old(Env()) else old(Env())[name := value]
      ensures Done() == old(Done())
    {
      var present := Exists(name);
      if present {
        return;
      }
      vars := [Var(name, value, false)] + vars;
      numVars := numVars + 1;
      assert vars[1..] == old(vars);
      NamesOfMember(old(vars), name);
    }

    /** `setValue`: walks from the head to the node with the name (which must
        exist) and overwrites its value; no other node or field changes. */
    method SetValue(name: string, value: Bit)
      requires Valid() && name in Names()
      modifies this
      ensures Valid() && numVars == old(numVars) && |vars| == |old(vars)|
      ensures forall i :: 0 <= i < |vars| ==>
                vars[i] == if old(vars)[i].name == name then old(vars)[i].(value := value) else old(vars)[i]
      ensures Names() == old(Names()) && Done() == old(Done())
      ensures Env() == old(Env())[name := value]
    {
      ghost var k := IndexOf(name);
      var i := 0;
      while vars[i].name != name
        invariant 0 <= i <= k
        decreases k - i
      {
        i := i + 1;
      }
      ghost var before := vars;
      vars := vars[i := vars[i].(value := value)];
      SameShape(before, vars);
      EnvOfUpdate(before, i, value);
    }

    /** `getValue`: the constant for "0" and "1", otherwise the value of the
        node with the name, which must exist. */
    method GetValue(name: string) returns (v: Bit)
      requires Valid() && (IsLiteral(name) || name in Names())
      ensures v == Read(Env(), name)
    {
      if name == "0" {
        return 0;
      }
      if name == "1" {
        return 1;
      }
      ghost var k := IndexOf(name);
      var i := 0;
      while vars[i].name != name
        invariant 0 <= i <= k
        decreases k - i
      {
        i := i + 1;
      }
      EnvAt(i);
      v := vars[i].value;
    }

    /** `setDone`: nothing for "0" and "1"; otherwise sets the done flag of
        the node with the name, which must exist. No value changes. */
    method SetDone(name: string)
      requires Valid() && (IsLiteral(name) || name in Names())
      modifies this
      ensures Valid() && numVars == old(numVars) && |vars| == |old(vars)|
      ensures forall i :: 0 <= i < |vars| ==>
                vars[i] == if old(vars)[i].name == name then old(vars)[i].(done := true) else old(vars)[i]
      ensures Names() == old(Names()) && Env() == old(Env())
      ensures Done() == old(Done()) + (if IsLiteral(name) then {} else {name})
    {
      if name == "0" || name == "1" {
        return;
      }
      ghost var k := IndexOf(name);
      var i := 0;
      while vars[i].name != name
        invariant 0 <= i <= k
        decreases k - i
      {
        i := i + 1;
      }
      ghost var before := vars;
      vars := vars[i := vars[i].(done := true)];
      DoneOfSet(before, i);
      EnvOfNamesValues(before, vars);
    }

    /** `getDone`: true for "0" and "1", otherwise the done flag of the node
        with the name, which must exist. */
    method GetDone(name: string) returns (d: bool)
      requires Valid() && (IsLiteral(name) || name in Names())
      ensures d <==> IsLiteral(name) || name in Done()
    {
      if name == "0" || name == "1" {
        return true;
      }
      ghost var k := IndexOf(name);
      var i := 0;
      while vars[i].name != name
        invariant 0 <= i <= k
        decreases k - i
      {
        i := i + 1;
      }
      DoneOfAt(vars, i);
      d := vars[i].done;
    }
  }
}
