/** The decision logic of the strategy-game module: the finite-state
    machine and the behaviour-tree nodes.  The callbacks of a state and the
    conditions and actions of the tree are closures in the code; here a
    state records which callbacks it has and the calls appear as an event
    list, and a condition or action is an identifier whose outcome is an
    argument. */
module SlgAi {

  // ------------------------------------------------------------ state machine

  /** Which of `enter`, `update`, `exit` a state's configuration has. */
  datatype Config = Config(hasEnter: bool, hasUpdate: bool, hasExit: bool)

  /** One entry of a state's transition map: the target and its condition. */
  datatype Edge = Edge(target: string, cond: nat)

  /** A call made by the machine. */
  datatype Event = Enter(state: string) | Exit(state: string) | Update(state: string, dt: real) | Test(cond: nat)

  /** `FiniteStateMachine`: the current state, the configurations, and per
      state the transitions in insertion order (a JavaScript `Map`). */
  datatype Fsm = Fsm(current: string, states: map<string, Config>, transitions: map<string, seq<Edge>>)

  /** Some transition of the list goes to `t`. */
  predicate HasTarget(es: seq<Edge>, t: string) {
    exists i :: 0 <= i < |es| && es[i].target == t
  }

  /** No target occurs twice, as in a `Map`. */
  predicate UniqueTargets(es: seq<Edge>) {
    forall i, j :: 0 <= i < j < |es| ==> es[i].target != es[j].target
  }

  /** The constructor. */
  function NewFsm(initial: string): (f: Fsm)
    ensures f.current == initial && f.states == map[] && f.transitions == map[]
  {
    Fsm(initial, map[], map[])
  }

  /** `addState`: stores the configuration and gives the state a fresh,
      empty transition map, dropping any it had. */
  function AddState(f: Fsm, name: string, config: Config): (f': Fsm)
    ensures f'.current == f.current
    ensures f'.states.Keys == f.states.Keys + {name} && f'.states[name] == config
    ensures f'.transitions.Keys == f.transitions.Keys + {name} && f'.transitions[name] == []
    ensures forall s :: s in f.states && s != name ==> f'.states[s] == f.states[s]
    ensures forall s :: s in f.transitions && s != name ==> f'.transitions[s] == f.transitions[s]
  {
    f.(states := f.states[name := config], transitions := f.transitions[name := []])
  }

  /** `Map.set` on a transition list: an existing target keeps its place
      and takes the new condition; a new target goes at the end. */
  function SetEdge(es: seq<Edge>, target: string, cond: nat): (r: seq<Edge>)
    requires UniqueTargets(es)
    ensures UniqueTargets(r) && HasTarget(r, target)
    ensures HasTarget(es, target) ==> |r| == |es|
    ensures !HasTarget(es, target) ==> r == es + [Edge(target, cond)]
    ensures forall i :: 0 <= i < |es| ==> r[i] == (if es[i].target == target then Edge(target, cond) else es[i])
  {
    if es == [] then
      var r := [Edge(target, cond)];
      assert r[0].target == target;
      r
    else if es[0].target == target then
      var r := [Edge(target, cond)] + es[1..];
      assert r[0].target == target;
      r
    else
      var rest := SetEdge(es[1..], target, cond);
      SetEdgeCons(es, rest, target, cond);
      [es[0]] + rest
  }

  /** The step of `SetEdge` past an edge with another target. */
  lemma SetEdgeCons(es: seq<Edge>, rest: seq<Edge>, target: string, cond: nat)
    requires es != [] && es[0].target != target && UniqueTargets(es)
    requires UniqueTargets(rest) && HasTarget(rest, target)
    requires HasTarget(es[1..], target) ==> |rest| == |es| - 1
    requires !HasTarget(es[1..], target) ==> rest == es[1..] + [Edge(target, cond)]
    requires forall i :: 0 <= i < |es| - 1 ==> rest[i] == (if es[i + 1].target == target then Edge(target, cond) else es[i + 1])
    ensures UniqueTargets([es[0]] + rest) && HasTarget([es[0]] + rest, target)
    ensures HasTarget(es, target) ==> |[es[0]] + rest| == |es|
    ensures !HasTarget(es, target) ==> [es[0]] + rest == es + [Edge(target, cond)]
    ensures forall i :: 0 <= i < |es| ==> ([es[0]] + rest)[i] == (if es[i].target == target then Edge(target, cond) else es[i])
  {
    var r := [es[0]] + rest;
    assert forall i :: 0 < i < |r| ==> r[i] == rest[i - 1];
    assert forall i :: 0 < i < |es| ==> es[i] == es[1..][i - 1];
    HasTargetCons(es[0], es[1..], target);
    HasTargetCons(es[0], rest, target);
    assert es == [es[0]] + es[1..];
  }

  /** A transition list with one more edge in front has the target iff
      the edge or the rest does. */
  lemma HasTargetCons(e: Edge, es: seq<Edge>, t: string)
    ensures HasTarget([e] + es, t) <==> e.target == t || HasTarget(es, t)
  {
    var r := [e] + es;
    if e.target == t {
      assert r[0].target == t;
    }
    if HasTarget(es, t) {
      var i :| 0 <= i < |es| && es[i].target == t;
      assert r[i + 1] == es[i];
    }
    if HasTarget(r, t) && e.target != t {
      var i :| 0 <= i < |r| && r[i].target == t;
      assert es[i - 1] == r[i];
    }
  }

  /** `addTransition`: records the transition when the source state has
      been added, and is ignored otherwise. */
  function AddTransition(f: Fsm, from: string, to: string, cond: nat): (f': Fsm)
    requires from in f.transitions ==> UniqueTargets(f.transitions[from])
    ensures from !in f.transitions ==> f' == f
    ensures from in f.transitions ==>
      f'.transitions == f.transitions[from := SetEdge(f.transitions[from], to, cond)] &&
      f'.current == f.current && f'.states == f.states
  {
    if from in f.transitions then
      f.(transitions := f.transitions[from := SetEdge(f.transitions[from], to, cond)])
    else
      f
  }

  /** `changeState`: to the current state nothing happens; otherwise the
      old state's `exit` and the new state's `enter`, where they exist,
      run in that order and the new state becomes current. */
  function ChangeState(f: Fsm, next: string): (res: (Fsm, seq<Event>))
    ensures res.0.states == f.states && res.0.transitions == f.transitions
    ensures res.0.current == next
    ensures f.current == next ==> res == (f, [])
    ensures f.current != next ==>
      (forall e :: e in res.1 <==>
        (e == Exit(f.current) && f.current in f.states && f.states[f.current].hasExit) ||
        (e == Enter(next) && next in f.states && f.states[next].hasEnter)) &&
      (|res.1| == 2 ==> res.1[0].Exit?)
  {
    if f.current == next then
      (f, [])
    else
      var exits := if f.current in f.states && f.states[f.current].hasExit then [Exit(f.current)] else [];
      var enters := if next in f.states && f.states[next].hasEnter then [Enter(next)] else [];
      (f.(current := next), exits + enters)
  }

  /** The scan of the current state's transitions: conditions are tested
      in insertion order, and the first that holds gives the target. */
  function FirstFiring(es: seq<Edge>, holds: nat -> bool): (res: (int, seq<Event>))
    ensures -1 <= res.0 < |es|
    ensures res.0 == -1 <==> forall i :: 0 <= i < |es| ==> !holds(es[i].cond)
    ensures res.0 >= 0 ==> holds(es[res.0].cond) && forall i :: 0 <= i < res.0 ==> !holds(es[i].cond)
    ensures |res.1| == (if res.0 == -1 then |es| else res.0 + 1)
    ensures forall i :: 0 <= i < |res.1| ==> res.1[i] == Test(es[i].cond)
  {
    if es == [] then
      (-1, [])
    else if holds(es[0].cond) then
      (0, [Test(es[0].cond)])
    else
      var rest := FirstFiring(es[1..], holds);
      assert forall i :: 0 < i < |es| ==> es[i] == es[1..][i - 1];
      (if rest.0 == -1 then -1 else rest.0 + 1, [Test(es[0].cond)] + rest.1)
  }

  /** The transitions of the current state, none when it has no entry. */
  function Outgoing(f: Fsm): seq<Edge> {
    if f.current in f.transitions then f.transitions[f.current] else []
  }

  /** `update`: at most one transition fires, the first in insertion order
      whose condition holds, and then the (possibly new) current state's
      `update` runs with `deltaTime`. */
  function UpdateFsm(f: Fsm, dt: real, holds: nat -> bool): (res: (Fsm, seq<Event>))
    ensures res.0.states == f.states && res.0.transitions == f.transitions
    ensures |res.1| > 0 && res.0.current in f.states && f.states[res.0.current].hasUpdate ==>
      res.1[|res.1| - 1] == Update(res.0.current, dt)
    ensures forall s :: (Enter(s) in res.1 ==> s == res.0.current) && (Exit(s) in res.1 ==> s == f.current)
  {
    var es := Outgoing(f);
    var scan := FirstFiring(es, holds);
    var changed := if scan.0 >= 0 then ChangeState(f, es[scan.0].target) else (f, []);
    var f' := changed.0;
    var updates := if f'.current in f'.states && f'.states[f'.current].hasUpdate then [Update(f'.current, dt)] else [];
    assert forall e :: e in scan.1 ==> e.Test?;
    (f', scan.1 + changed.1 + updates)
  }

  /** The state after `update`: unchanged when no condition of the current
      state holds, otherwise the target of the first transition whose
      condition holds. */
  lemma UpdateTarget(f: Fsm, dt: real, holds: nat -> bool)
    ensures var es := Outgoing(f);
      ((forall i :: 0 <= i < |es| ==> !holds(es[i].cond)) ==> UpdateFsm(f, dt, holds).0.current == f.current) &&
      (forall i :: 0 <= i < |es| && holds(es[i].cond) && (forall j :: 0 <= j < i ==> !holds(es[j].cond)) ==>
         UpdateFsm(f, dt, holds).0.current == es[i].target)
  {
    var es := Outgoing(f);
    var scan := FirstFiring(es, holds);
    forall i | 0 <= i < |es| && holds(es[i].cond) && (forall j :: 0 <= j < i ==> !holds(es[j].cond))
      ensures scan.0 == i
    {
      assert scan.0 != -1;
    }
  }

  /** A state whose only transition has a holding condition moves to its
      target on the next update; with no holding condition it stays. */
  lemma SingleTransition(f: Fsm, name: string, config: Config, to: string, cond: nat, dt: real, holds: nat -> bool)
    requires f.current == name
    ensures var g := AddTransition(AddState(f, name, config), name, to, cond);
      UpdateFsm(g, dt, holds).0.current == (if holds(cond) then to else name)
  {
    var g := AddTransition(AddState(f, name, config), name, to, cond);
    assert g.transitions[name] == [Edge(to, cond)];
  }

  // ------------------------------------------------------------ behaviour tree

  datatype Status = Success | Failure | Running

  /** A node of a behaviour tree: `SequenceNode`, `SelectorNode`,
      `ActionNode`, `ConditionNode`. */
  datatype BNode =
    | Sequence(children: seq<BNode>)
    | Selector(children: seq<BNode>)
    | Action(id: nat)
    | Condition(id: nat)

  /** `execute`: the status and the actions and conditions called, in
      order.  `act` gives each action's status and `test` each condition's
      value. */
  function Execute(n: BNode, act: nat -> Status, test: nat -> bool): (res: (Status, seq<nat>))
    ensures n.Condition? ==> res == (if test(n.id) then Success else Failure, [n.id])
    ensures n.Action? ==> res == (act(n.id), [n.id])
    decreases n, 1
  {
    match n
    case Sequence(ch) => Run(ch, Success, act, test)
    case Selector(ch) => Run(ch, Failure, act, test)
    case Action(id) => (act(id), [id])
    case Condition(id) => (if test(id) then Success else Failure, [id])
  }

  /** The calls of the first `k` children, in order. */
  function Calls(ch: seq<BNode>, k: nat, act: nat -> Status, test: nat -> bool): seq<nat>
    requires k <= |ch|
    decreases ch, 0
  {
    if k == 0 then [] else Execute(ch[0], act, test).1 + Calls(ch[1..], k - 1, act, test)
  }

  /** How many children run: up to and including the first whose status is
      not `pass`, or all of them. */
  function Ran(ch: seq<BNode>, pass: Status, act: nat -> Status, test: nat -> bool): (k: nat)
    ensures k <= |ch|
    decreases ch, 0
  {
    if ch == [] then 0
    else if Execute(ch[0], act, test).0 != pass then 1
    else Ran(ch[1..], pass, act, test) + 1
  }

  /** The children before the last one run all returned `pass`, and the
      last one run returned something else unless every child ran. */
  lemma RanStops(ch: seq<BNode>, pass: Status, act: nat -> Status, test: nat -> bool)
    ensures var k := Ran(ch, pass, act, test);
      (forall i :: 0 <= i < k - 1 ==> Execute(ch[i], act, test).0 == pass) &&
      (k < |ch| ==> k > 0 && Execute(ch[k - 1], act, test).0 != pass)
  {
    forall i | 0 <= i < Ran(ch, pass, act, test) - 1
      ensures Execute(ch[i], act, test).0 == pass
    {
      RanPassAt(ch, pass, act, test, i);
    }
    RanStopAt(ch, pass, act, test);
  }

  /** A child before the last one run returned `pass`. */
  lemma {:induction false} RanPassAt(ch: seq<BNode>, pass: Status, act: nat -> Status, test: nat -> bool, i: nat)
    requires i < Ran(ch, pass, act, test) - 1
    ensures Execute(ch[i], act, test).0 == pass
  {
    if i > 0 {
      RanPassAt(ch[1..], pass, act, test, i - 1);
      ExecuteShift(ch, i, act, test);
    }
  }

  /** The last child run returned other than `pass` unless every child ran. */
  lemma {:induction false} RanStopAt(ch: seq<BNode>, pass: Status, act: nat -> Status, test: nat -> bool)
    ensures var k := Ran(ch, pass, act, test);
      k < |ch| ==> k > 0 && Execute(ch[k - 1], act, test).0 != pass
  {
    if ch != [] && Execute(ch[0], act, test).0 == pass {
      var k := Ran(ch[1..], pass, act, test);
      RanStopAt(ch[1..], pass, act, test);
      if k + 1 < |ch| {
        ExecuteShift(ch, k, act, test);
      }
    }
  }

  /** Child `i` of a list is child `i - 1` of its tail. */
  lemma ExecuteShift(ch: seq<BNode>, i: nat, act: nat -> Status, test: nat -> bool)
    requires 0 < i < |ch|
    ensures Execute(ch[i], act, test) == Execute(ch[1..][i - 1], act, test)
  {
    assert ch[i] == ch[1..][i - 1];
  }

  /** The loop of `SequenceNode.execute` (`pass` is `Success`) and of
      `SelectorNode.execute` (`pass` is `Failure`): children run in order
      until one returns other than `pass`, whose status is returned; when
      all return `pass`, so does the node.  The calls are those of the
      children that ran. */
  function Run(ch: seq<BNode>, pass: Status, act: nat -> Status, test: nat -> bool): (res: (Status, seq<nat>))
    ensures res.1 == Calls(ch, Ran(ch, pass, act, test), act, test)
    decreases ch, 1
  {
    if ch == [] then
      (pass, [])
    else
      var first := Execute(ch[0], act, test);
      if first.0 != pass then
        assert Ran(ch, pass, act, test) == 1;
        (first.0, first.1)
      else
        var rest := Run(ch[1..], pass, act, test);
        var k := Ran(ch[1..], pass, act, test);
        assert Ran(ch, pass, act, test) == k + 1;
        (rest.0, first.1 + rest.1)
  }

  /** The loop returns `pass` exactly when every child does. */
  lemma {:induction false} RunPasses(ch: seq<BNode>, pass: Status, act: nat -> Status, test: nat -> bool)
    ensures Run(ch, pass, act, test).0 == pass <==> forall i :: 0 <= i < |ch| ==> Execute(ch[i], act, test).0 == pass
  {
    if ch != [] && Execute(ch[0], act, test).0 == pass {
      RunPasses(ch[1..], pass, act, test);
      forall i | 1 <= i < |ch|
        ensures Execute(ch[i], act, test) == Execute(ch[1..][i - 1], act, test)
      {
        ExecuteShift(ch, i, act, test);
      }
    }
  }

  /** When the loop returns other than `pass`, it returns the status of the
      last child that ran. */
  lemma {:induction false} RunStops(ch: seq<BNode>, pass: Status, act: nat -> Status, test: nat -> bool)
    ensures Run(ch, pass, act, test).0 != pass ==>
      0 < Ran(ch, pass, act, test) && Execute(ch[Ran(ch, pass, act, test) - 1], act, test).0 == Run(ch, pass, act, test).0
  {
    if ch != [] && Execute(ch[0], act, test).0 == pass {
      RunStops(ch[1..], pass, act, test);
      RunStopsCons(ch, pass, act, test);
    }
  }

  /** `RunStops` for a first child returning `pass`, from `RunStops` for
      the others. */
  lemma RunStopsCons(ch: seq<BNode>, pass: Status, act: nat -> Status, test: nat -> bool)
    requires ch != [] && Execute(ch[0], act, test).0 == pass
    requires Run(ch[1..], pass, act, test).0 != pass ==>
      0 < Ran(ch[1..], pass, act, test) &&
      Execute(ch[1..][Ran(ch[1..], pass, act, test) - 1], act, test).0 == Run(ch[1..], pass, act, test).0
    ensures Run(ch, pass, act, test).0 != pass ==>
      0 < Ran(ch, pass, act, test) && Execute(ch[Ran(ch, pass, act, test) - 1], act, test).0 == Run(ch, pass, act, test).0
  {
    var k := Ran(ch[1..], pass, act, test);
    assert Ran(ch, pass, act, test) == k + 1;
    assert Run(ch, pass, act, test).0 == Run(ch[1..], pass, act, test).0;
    if Run(ch, pass, act, test).0 != pass {
      assert ch[k] == ch[1..][k - 1];
    }
  }

  /** `addChild`: a sequence or selector gets the child at the end; an
      action or condition stores it in a list its `execute` never reads. */
  function AddChild(n: BNode, c: BNode): (n': BNode)
    ensures n.Sequence? == n'.Sequence? && n.Selector? == n'.Selector?
    ensures (n.Sequence? || n.Selector?) ==> n'.children == n.children + [c]
    ensures n.Action? || n.Condition? ==> n' == n
  {
    match n
    case Sequence(ch) => Sequence(ch + [c])
    case Selector(ch) => Selector(ch + [c])
    case _ => n
  }

  /** A child added at the end runs only when every earlier child returned
      `pass`, and then decides the status and adds its calls. */
  predicate Appended(ch: seq<BNode>, c: BNode, pass: Status, act: nat -> Status, test: nat -> bool) {
    var before, after := Run(ch, pass, act, test), Run(ch + [c], pass, act, test);
    after == (if before.0 != pass then before else (Execute(c, act, test).0, before.1 + Execute(c, act, test).1))
  }

  lemma {:induction false} RunAppend(ch: seq<BNode>, c: BNode, pass: Status, act: nat -> Status, test: nat -> bool)
    ensures Appended(ch, c, pass, act, test)
  {
    if ch == [] {
      AppendedNil(c, pass, act, test);
    } else if Execute(ch[0], act, test).0 != pass {
      AppendedStop(ch, c, pass, act, test);
    } else {
      RunAppend(ch[1..], c, pass, act, test);
      AppendedStep(ch, c, pass, act, test);
    }
  }

  lemma AppendedNil(c: BNode, pass: Status, act: nat -> Status, test: nat -> bool)
    ensures Appended([], c, pass, act, test)
  {
    var e := Execute(c, act, test);
    assert [] + [c] == [c] && [c][1..] == [];
    assert [] + e.1 == e.1 + [] == e.1;
    assert Run([c], pass, act, test) == (e.0, e.1);
  }

  lemma AppendedStop(ch: seq<BNode>, c: BNode, pass: Status, act: nat -> Status, test: nat -> bool)
    requires ch != [] && Execute(ch[0], act, test).0 != pass
    ensures Appended(ch, c, pass, act, test)
  {
    var d := ch + [c];
    assert d[0] == ch[0];
    assert Run(d, pass, act, test) == Execute(ch[0], act, test) == Run(ch, pass, act, test);
  }

  lemma AppendedStep(ch: seq<BNode>, c: BNode, pass: Status, act: nat -> Status, test: nat -> bool)
    requires ch != [] && Execute(ch[0], act, test).0 == pass
    requires Appended(ch[1..], c, pass, act, test)
    ensures Appended(ch, c, pass, act, test)
  {
    var d := ch + [c];
    assert d[0] == ch[0] && d[1..] == ch[1..] + [c];
    var first := Execute(ch[0], act, test);
    var rest, rest' := Run(ch[1..], pass, act, test), Run(d[1..], pass, act, test);
    assert Run(ch, pass, act, test) == (rest.0, first.1 + rest.1);
    assert Run(d, pass, act, test) == (rest'.0, first.1 + rest'.1);
    Assoc(first.1, rest.1, Execute(c, act, test).1);
  }

  lemma Assoc(a: seq<nat>, b: seq<nat>, c: seq<nat>)
    ensures a + (b + c) == (a + b) + c
  {
  }

  /** Adding a child changes nothing for a node whose run stopped early or
      for a leaf; otherwise the new child runs last and decides. */
  lemma AddChildExecute(n: BNode, c: BNode, act: nat -> Status, test: nat -> bool)
    ensures var before, after := Execute(n, act, test), Execute(AddChild(n, c), act, test);
      (n.Action? || n.Condition? ==> after == before) &&
      (n.Sequence? ==> after == (if before.0 != Success then before else (Execute(c, act, test).0, before.1 + Execute(c, act, test).1))) &&
      (n.Selector? ==> after == (if before.0 != Failure then before else (Execute(c, act, test).0, before.1 + Execute(c, act, test).1)))
  {
    match n
    case Sequence(ch) =>
      RunAppend(ch, c, Success, act, test);
      assert Appended(ch, c, Success, act, test);
    case Selector(ch) =>
      RunAppend(ch, c, Failure, act, test);
      assert Appended(ch, c, Failure, act, test);
    case _ =>
  }

  /** Success and failure exchanged; running stays running. */
  function Swap(s: Status): Status {
    match s
    case Success => Failure
    case Failure => Success
    case Running => Running
  }

  /** The tree with sequences and selectors exchanged. */
  function Dual(n: BNode): (d: BNode)
    ensures d.Action? == n.Action? && d.Condition? == n.Condition?
    decreases n, 1
  {
    match n
    case Sequence(ch) => Selector(DualAll(ch))
    case Selector(ch) => Sequence(DualAll(ch))
    case Action(id) => Action(id)
    case Condition(id) => Condition(id)
  }

  function DualAll(ch: seq<BNode>): (r: seq<BNode>)
    ensures |r| == |ch|
    decreases ch, 0
  {
    if ch == [] then [] else [Dual(ch[0])] + DualAll(ch[1..])
  }

  /** Actions with success and failure exchanged. */
  function SwapActions(act: nat -> Status): nat -> Status {
    (id: nat) => Swap(act(id))
  }

  /** Conditions negated. */
  function Negate(test: nat -> bool): nat -> bool {
    (id: nat) => !test(id)
  }

  /** A sequence is the conjunction and a selector the disjunction of its
      children: exchanging the two node kinds and negating every action and
      condition exchanges success and failure of the whole tree and makes
      exactly the same calls. */
  lemma {:induction false} Duality(n: BNode, act: nat -> Status, test: nat -> bool)
    ensures Execute(Dual(n), SwapActions(act), Negate(test)) == (Swap(Execute(n, act, test).0), Execute(n, act, test).1)
    decreases n, 1
  {
    match n
    case Sequence(ch) => DualityRun(ch, Success, act, test);
    case Selector(ch) => DualityRun(ch, Failure, act, test);
    case Action(id) =>
    case Condition(id) =>
  }

  lemma {:induction false} DualityRun(ch: seq<BNode>, pass: Status, act: nat -> Status, test: nat -> bool)
    requires pass != Running
    ensures Run(DualAll(ch), Swap(pass), SwapActions(act), Negate(test)) == (Swap(Run(ch, pass, act, test).0), Run(ch, pass, act, test).1)
    decreases ch, 0
  {
    if ch != [] {
      Duality(ch[0], act, test);
      DualityRun(ch[1..], pass, act, test);
      assert DualAll(ch)[0] == Dual(ch[0]) && DualAll(ch)[1..] == DualAll(ch[1..]);
    }
  }
}
