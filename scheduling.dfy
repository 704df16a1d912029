/** The ordering pass of the second program: gates move one at a time from
    the declared list to the ordered list, each time the first gate (in the
    remaining declared order) whose read signals are all done; its outputs
    then become done. This module states that pass as a function on values
    and proves what it guarantees. */
module Scheduling {
  import opened Options
  import opened Gates
  import opened Signals

  /** `getDone` is true for every name the gate reads. */
  predicate Ready(g: Gate, done: set<string>)
  {
    forall n :: n in Reads(g) ==> IsLiteral(n) || n in done
  }

  /** The names a gate marks done when it is scheduled (`setDone` ignores the constants). */
  function Writes(g: Gate): set<string>
  {
    set n | n in g.outputs && !IsLiteral(n)
  }

  /** The names written by a sequence of gates. */
  function Written(gs: seq<Gate>): set<string>
  {
    if gs == [] then {} else Written(gs[..|gs| - 1]) + Writes(gs[|gs| - 1])
  }

  lemma {:induction false} WrittenConcat(a: seq<Gate>, b: seq<Gate>)
    ensures Written(a + b) == Written(a) + Written(b)
    decreases |b|
  {
    if b == [] {
      assert a + b == a;
    } else {
      assert (a + b)[..|a + b| - 1] == a + b[..|b| - 1];
      WrittenConcat(a, b[..|b| - 1]);
    }
  }

  lemma WrittenOne(g: Gate)
    ensures Written([g]) == Writes(g)
  {
    assert [g][..0] == [];
  }

  lemma WrittenSnoc(gs: seq<Gate>, g: Gate)
    ensures Written(gs + [g]) == Written(gs) + Writes(g)
  {
    assert (gs + [g])[..|gs|] == gs;
  }

  /** Every gate reads only constants, seed names and names written by gates before it. */
  ghost predicate ValidOrder(o: seq<Gate>, seed: set<string>)
  {
    forall k :: 0 <= k < |o| ==> Ready(o[k], seed + Written(o[..k]))
  }

  /** The position of the first ready gate, if any. */
  function FirstReady(pending: seq<Gate>, done: set<string>): (r: Option<nat>)
    ensures r.Some? ==> r.value < |pending| && Ready(pending[r.value], done) &&
                        forall j :: 0 <= j < r.value ==> !Ready(pending[j], done)
    ensures r.None? ==> forall j :: 0 <= j < |pending| ==> !Ready(pending[j], done)
  {
    if pending == [] then None
    else if Ready(pending[0], done) then Some(0)
    else match FirstReady(pending[1..], done)
      case None => None
      case Some(k) => Some(k + 1)
  }

  /** The order the pass produces from the declared gates and the names done
      beforehand, or None when some scan finds no ready gate (the C loop then
      never ends). */
  function Schedule(pending: seq<Gate>, done: set<string>): Option<seq<Gate>>
    decreases |pending|
  {
    if pending == [] then Some([])
    else match FirstReady(pending, done)
      case None => None
      case Some(k) =>
        match Schedule(pending[..k] + pending[k + 1..], done + Writes(pending[k]))
        case None => None
        case Some(rest) => Some([pending[k]] + rest)
  }

  /** Every declared gate is moved to the ordered list exactly once. */
  lemma {:induction false} SchedulePermutation(pending: seq<Gate>, done: set<string>)
    requires Schedule(pending, done).Some?
    ensures multiset(Schedule(pending, done).value) == multiset(pending)
    decreases |pending|
  {
    if pending != [] {
      var k := ScheduleStep(pending, done);
      var rest := pending[..k] + pending[k + 1..];
      SchedulePermutation(rest, done + Writes(pending[k]));
      RemoveAt(pending, k);
      assert pending[k] in multiset(pending);
    }
  }

  /** One step of the pass: the first ready gate goes first, the rest is
      scheduled with its outputs done. */
  lemma ScheduleStep(pending: seq<Gate>, done: set<string>) returns (k: nat)
    requires pending != [] && Schedule(pending, done).Some?
    ensures FirstReady(pending, done) == Some(k) && k < |pending|
    ensures Schedule(pending[..k] + pending[k + 1..], done + Writes(pending[k])).Some?
    ensures Schedule(pending, done).value ==
            [pending[k]] + Schedule(pending[..k] + pending[k + 1..], done + Writes(pending[k])).value
  {
    k := FirstReady(pending, done).value;
  }

  /** A ready gate followed by an order valid once its outputs are done is a valid order. */
  lemma ValidOrderCons(g: Gate, tail: seq<Gate>, done: set<string>)
    requires Ready(g, done) && ValidOrder(tail, done + Writes(g))
    ensures ValidOrder([g] + tail, done)
  {
    var o := [g] + tail;
    forall j | 0 <= j < |o| ensures Ready(o[j], done + Written(o[..j])) {
      if j == 0 {
        assert o[..0] == [];
        assert Written(o[..0]) == {};
      } else {
        assert o[..j] == [g] + tail[..j - 1];
        WrittenConcat([g], tail[..j - 1]);
        WrittenOne(g);
        assert o[j] == tail[j - 1];
        assert Ready(tail[j - 1], done + Writes(g) + Written(tail[..j - 1]));
        assert done + Written(o[..j]) == done + Writes(g) + Written(tail[..j - 1]);
      }
    }
  }

  /** The ordered list respects the dependencies: each gate reads only constants,
      names done beforehand and names written by gates placed before it. */
  lemma {:induction false} ScheduleRespectsDependencies(pending: seq<Gate>, done: set<string>)
    requires Schedule(pending, done).Some?
    ensures ValidOrder(Schedule(pending, done).value, done)
    decreases |pending|
  {
    if pending == [] {
      assert Schedule(pending, done).value == [];
    } else {
      var k := ScheduleStep(pending, done);
      var g := pending[k];
      var rest := pending[..k] + pending[k + 1..];
      ScheduleRespectsDependencies(rest, done + Writes(g));
      ValidOrderCons(g, Schedule(rest, done + Writes(g)).value, done);
    }
  }

  lemma ReadyMonotone(g: Gate, s: set<string>, t: set<string>)
    requires Ready(g, s) && s <= t
    ensures Ready(g, t)
  {
  }

  /** What the gates before position k + 1 write, split around position i <= k. */
  lemma WrittenAround(o: seq<Gate>, i: nat, k: nat)
    requires i <= k < |o| - 1
    ensures Written(o[..k + 1]) == Written(o[..i]) + Writes(o[i]) + Written(o[i + 1..k + 1])
    ensures (o[..i] + o[i + 1..])[..k] == o[..i] + o[i + 1..k + 1]
  {
    var before, after := o[..i], o[i + 1..k + 1];
    assert o[..k + 1] == (before + [o[i]]) + after;
    WrittenConcat(before + [o[i]], after);
    WrittenConcat(before, [o[i]]);
    WrittenOne(o[i]);
  }

  /** Removing a placed gate from a valid order, and treating its outputs as
      done beforehand, leaves a valid order. */
  lemma RemoveFromValidOrder(o: seq<Gate>, seed: set<string>, i: nat)
    requires i < |o| && ValidOrder(o, seed)
    ensures ValidOrder(o[..i] + o[i + 1..], seed + Writes(o[i]))
  {
    var o' := o[..i] + o[i + 1..];
    var seed' := seed + Writes(o[i]);
    forall k | 0 <= k < |o'| ensures Ready(o'[k], seed' + Written(o'[..k])) {
      if k < i {
        assert o'[..k] == o[..k];
        assert o'[k] == o[k];
        ReadyMonotone(o[k], seed + Written(o[..k]), seed' + Written(o'[..k]));
      } else {
        assert o'[k] == o[k + 1];
        WrittenAround(o, i, k);
        WrittenConcat(o[..i], o[i + 1..k + 1]);
        ReadyMonotone(o[k + 1], seed + Written(o[..k + 1]), seed' + Written(o'[..k]));
      }
    }
  }

  /** Removing one element removes exactly that element from the multiset. */
  lemma RemoveAt<T>(s: seq<T>, i: nat)
    requires i < |s|
    ensures multiset(s[..i] + s[i + 1..]) == multiset(s) - multiset{s[i]}
  {
    assert s == s[..i] + [s[i]] + s[i + 1..];
  }

  /** An element of a sequence's multiset sits at some index. */
  lemma IndexOfMember<T>(s: seq<T>, x: T) returns (i: nat)
    requires x in multiset(s)
    ensures i < |s| && s[i] == x
  {
    assert x in s;
    i :| 0 <= i < |s| && s[i] == x;
  }

  /** The pass succeeds when its first step finds a gate and the remainder succeeds. */
  lemma ScheduleSomeStep(pending: seq<Gate>, done: set<string>, k: nat)
    requires pending != [] && FirstReady(pending, done) == Some(k)
    requires Schedule(pending[..k] + pending[k + 1..], done + Writes(pending[k])).Some?
    ensures Schedule(pending, done).Some?
  {
  }

  /** The pass never gets stuck when some order of the declared gates respects
      the dependencies. */
  lemma {:induction false} ScheduleComplete(pending: seq<Gate>, done: set<string>, o: seq<Gate>)
    requires multiset(o) == multiset(pending) && ValidOrder(o, done)
    ensures Schedule(pending, done).Some?
    decreases |pending|
  {
    if pending != [] {
      assert |o| == |pending| by {
        assert |multiset(o)| == |multiset(pending)|;
      }
      assert o[..0] == [];
      assert Written(o[..0]) == {};
      assert Ready(o[0], done);
      var j := IndexOfMember(pending, o[0]);
      assert Ready(pending[j], done);
      var k := FirstReady(pending, done).value;
      var g := pending[k];
      assert g in multiset(pending);
      var i := IndexOfMember(o, g);
      var rest := pending[..k] + pending[k + 1..];
      var o' := o[..i] + o[i + 1..];
      RemoveAt(o, i);
      RemoveAt(pending, k);
      RemoveFromValidOrder(o, done, i);
      ScheduleComplete(rest, done + Writes(g), o');
      ScheduleSomeStep(pending, done, k);
    }
  }

  /** The pass fails exactly when no order of the declared gates respects the
      dependencies: a cycle, or a read of a name that is never written and was
      not done beforehand. */
  lemma ScheduleSucceedsIff(pending: seq<Gate>, done: set<string>)
    ensures Schedule(pending, done).Some? <==>
            exists o :: multiset(o) == multiset(pending) && ValidOrder(o, done)
  {
    if Schedule(pending, done).Some? {
      SchedulePermutation(pending, done);
      ScheduleRespectsDependencies(pending, done);
    }
    if exists o :: multiset(o) == multiset(pending) && ValidOrder(o, done) {
      var o :| multiset(o) == multiset(pending) && ValidOrder(o, done);
      ScheduleComplete(pending, done, o);
    }
  }

  /** Two inverters feeding each other never become ready. */
  lemma CycleIsStuck()
    ensures Schedule([Gate(Not, ["a"], ["b"], []), Gate(Not, ["b"], ["a"], [])], {}).None?
  {
    var p := [Gate(Not, ["a"], ["b"], []), Gate(Not, ["b"], ["a"], [])];
    assert Reads(p[0]) == ["a"] && Reads(p[1]) == ["b"];
    assert "a" in Reads(p[0]) && !IsLiteral("a");
    assert "b" in Reads(p[1]) && !IsLiteral("b");
    assert FirstReady(p, {}) == None;
  }
}
