/**
 Gate wiring: a capacitor's ports are the replay of its wire log, and it is stable when every input
 port has been wired.
 */
module FluxCapacitors {
  import opened Results
  import opened Keyed

  datatype GateKind = Nand | Nor | Add | Wait | Tx | Rx | Cap

  function ArityIn(kind: GateKind): nat {
    match kind
    case Nand => 2
    case Nor => 2
    case Add => 2
    case Wait => 1
    case Tx => 1
    case Rx => 0
    case Cap => 0
  }

  function ArityOut(kind: GateKind): nat {
    match kind
    case Nand => 1
    case Nor => 1
    case Add => 1
    case Wait => 1
    case Tx => 0
    case Rx => 1
    case Cap => 0
  }

  datatype Wire = Wire(fromGate: nat, fromPort: nat, toGate: nat, toPort: nat)

  datatype Gate = Gate(id: nat, kind: GateKind, inputPorts: seq<Option<Wire>>, outputWire: Option<Wire>)

  datatype WireError =
    | NoFromGate(gate: nat)
    | NoToGate(gate: nat)
    | NoOutputPort(gate: nat, port: nat)
    | NoInputPort(gate: nat, port: nat)

  datatype Unfilled = Unfilled(gate: nat, filled: nat, required: nat)

  // ---------------------------------------------------------------------------------------------
  // Replaying the log
  // ---------------------------------------------------------------------------------------------

  /** The last wire of the log into a port. */
  function LastInto(wires: seq<Wire>, gate: nat, port: nat): Option<Wire> {
    if wires == [] then None
    else
      var last := wires[|wires| - 1];
      if last.toGate == gate && last.toPort == port then Some(last) else LastInto(wires[..|wires| - 1], gate, port)
  }

  /** The last wire of the log out of a gate. */
  function LastOutOf(wires: seq<Wire>, gate: nat): Option<Wire> {
    if wires == [] then None
    else
      var last := wires[|wires| - 1];
      if last.fromGate == gate then Some(last) else LastOutOf(wires[..|wires| - 1], gate)
  }

  function Replay(wires: seq<Wire>, id: nat, kind: GateKind): Gate {
    Gate(id, kind, seq(ArityIn(kind), port requires 0 <= port < ArityIn(kind) => LastInto(wires, id, port)),
         LastOutOf(wires, id))
  }

  /** What is wrong with a wire between gates of the given kinds, checked in this order. */
  function WireCheck(kinds: seq<GateKind>, w: Wire): Option<WireError> {
    if w.fromGate >= |kinds| then Some(NoFromGate(w.fromGate))
    else if w.toGate >= |kinds| then Some(NoToGate(w.toGate))
    else if w.fromPort >= ArityOut(kinds[w.fromGate]) then Some(NoOutputPort(w.fromGate, w.fromPort))
    else if w.toPort >= ArityIn(kinds[w.toGate]) then Some(NoInputPort(w.toGate, w.toPort))
    else None
  }

  lemma {:induction false} LastIntoIff(wires: seq<Wire>, gate: nat, port: nat)
    ensures LastInto(wires, gate, port).Some? <==> exists w :: w in wires && w.toGate == gate && w.toPort == port
  {
    if wires != [] {
      LastIntoIff(wires[..|wires| - 1], gate, port);
      assert wires == wires[..|wires| - 1] + [wires[|wires| - 1]];
    }
  }

  lemma {:induction false} LastOutOfIff(wires: seq<Wire>, gate: nat)
    ensures LastOutOf(wires, gate).Some? <==> exists w :: w in wires && w.fromGate == gate
  {
    if wires != [] {
      LastOutOfIff(wires[..|wires| - 1], gate);
      assert wires == wires[..|wires| - 1] + [wires[|wires| - 1]];
    }
  }

  /** Which wires are legal: from the one output of a gate that has one, to one of the inputs of its target. */
  lemma LegalWires(kinds: seq<GateKind>, w: Wire)
    ensures WireCheck(kinds, w).None?
       <==> && w.fromGate < |kinds| && kinds[w.fromGate] in {Nand, Nor, Add, Wait, Rx} && w.fromPort == 0
            && w.toGate < |kinds|
            && ((kinds[w.toGate] in {Nand, Nor, Add} && w.toPort < 2) || (kinds[w.toGate] in {Wait,
                                                                          Tx} && w.toPort < 1))
  {
  }

  ghost predicate GateWired(wires: seq<Wire>, gate: nat, ports: nat) {
    forall p | 0 <= p < ports :: LastInto(wires, gate, p).Some?
  }

  /** Every input port of every gate has a wire into it. */
  ghost predicate AllWired(kinds: seq<GateKind>, wires: seq<Wire>) {
    forall g | 0 <= g < |kinds| :: GateWired(wires, g, ArityIn(kinds[g]))
  }

  /** Further wires never unfill a port. */
  lemma WiringKeepsWired(kinds: seq<GateKind>, wires: seq<Wire>, w: Wire)
    requires AllWired(kinds, wires)
    ensures AllWired(kinds, wires + [w])
  {
    assert (wires + [w])[..|wires|] == wires;
    forall g | 0 <= g < |kinds|
      ensures GateWired(wires + [w], g, ArityIn(kinds[g]))
    {
      assert GateWired(wires, g, ArityIn(kinds[g]));
    }
  }

  /** A new gate keeps everything wired exactly when it takes no input. */
  lemma NewGateWired(kinds: seq<GateKind>, wires: seq<Wire>, kind: GateKind)
    requires forall w | w in wires :: WireCheck(kinds, w).None?
    requires AllWired(kinds, wires)
    ensures AllWired(kinds + [kind], wires) <==> kind == Rx || kind == Cap
  {
    var n := |kinds|;
    LastIntoIff(wires, n, 0);
    if ArityIn(kind) > 0 {
      assert (kinds + [kind])[n] == kind;
      assert LastInto(wires, n, 0).None?;
      assert !GateWired(wires, n, ArityIn(kind));
    } else {
      forall g | 0 <= g < |kinds + [kind]|
        ensures GateWired(wires, g, ArityIn((kinds + [kind])[g]))
      {
        assert g < n ==> (kinds + [kind])[g] == kinds[g];
      }
    }
  }

  // ---------------------------------------------------------------------------------------------
  // Runs
  // ---------------------------------------------------------------------------------------------

  /** The capacitor as a value; its ports are the replay of the rest. */
  datatype Circuit = Circuit(kinds: seq<GateKind>, wires: seq<Wire>, stable: bool, transitions: nat)

  datatype Call = AddGateCall(kind: GateKind) | ConnectCall(wire: Wire) | EvaluateCall

  ghost predicate Fires(c: Circuit) { AllWired(c.kinds, c.wires) && c.wires != [] }

  ghost function Apply(c: Circuit, call: Call): Circuit {
    match call
    case AddGateCall(kind) => c.(kinds := c.kinds + [kind])
    case ConnectCall(w) => if WireCheck(c.kinds, w).None? then c.(wires := c.wires + [w]) else c
    case EvaluateCall => c.(stable := Fires(c), transitions := c.transitions + if Fires(c) then 1 else 0)
  }

  ghost function Run(calls: seq<Call>): Circuit {
    if calls == [] then Circuit([], [], false, 0) else Apply(Run(calls[..|calls| - 1]), calls[|calls| - 1])
  }

  /** How many evaluations of a run came out true. */
  ghost function CountFired(calls: seq<Call>): nat {
    if calls == [] then 0
    else
      CountFired(calls[..|calls| - 1])
      + if calls[|calls| - 1].EvaluateCall? && Fires(Run(calls[..|calls| - 1])) then 1 else 0
  }

  /** Over every run the log stays legal and the transition count is the number of true evaluations. */
  lemma {:induction false} RunCounts(calls: seq<Call>)
    ensures Run(calls).transitions == CountFired(calls)
    ensures forall w | w in Run(calls).wires :: WireCheck(Run(calls).kinds, w).None?
  {
    if calls != [] {
      RunCounts(calls[..|calls| - 1]);
    }
  }

  ghost function Continue(c: Circuit, calls: seq<Call>): Circuit
    decreases |calls|
  {
    if calls == [] then c else Continue(Apply(c, calls[0]), calls[1..])
  }

  /** Once an evaluation would be true, it stays so through any calls that add no gate. */
  lemma {:induction false} FiringPersists(c: Circuit, calls: seq<Call>)
    requires Fires(c) && forall call | call in calls :: !call.AddGateCall?
    ensures Fires(Continue(c, calls))
    decreases |calls|
  {
    if calls != [] {
      if calls[0].ConnectCall? {
        WiringKeepsWired(c.kinds, c.wires, calls[0].wire);
      }
      FiringPersists(Apply(c, calls[0]), calls[1..]);
    }
  }

  function KindsOf(ports: seq<Gate>): seq<GateKind> {
    seq(|ports|, i requires 0 <= i < |ports| => ports[i].kind)
  }

  function CountFilled(inputs: seq<Option<Wire>>): nat {
    if inputs == [] then 0 else CountFilled(inputs[..|inputs| - 1]) + if inputs[|inputs| - 1].Some? then 1 else 0
  }

  lemma {:induction false} CountFilledFull(inputs: seq<Option<Wire>>)
    ensures CountFilled(inputs) <= |inputs|
    ensures CountFilled(inputs) < |inputs| <==> exists p :: 0 <= p < |inputs| && inputs[p].None?
  {
    if inputs != [] {
      var front := inputs[..|inputs| - 1];
      CountFilledFull(front);
      if p :| 0 <= p < |front| && front[p].None? {
        assert inputs[p].None?;
      }
    }
  }

  /** The gates with fewer wires than inputs, in order. */
  function UnfilledGates(ports: seq<Gate>): seq<Unfilled> {
    if ports == [] then []
    else
      var gate := ports[|ports| - 1];
      var required, filled := ArityIn(gate.kind), CountFilled(gate.inputPorts);
      UnfilledGates(ports[..|ports| - 1]) + if filled < required then [Unfilled(gate.id, filled, required)] else []
  }

  lemma {:induction false} NoneUnfilled(ports: seq<Gate>)
    ensures UnfilledGates(ports) == []
       <==> forall g | 0 <= g < |ports| :: CountFilled(ports[g].inputPorts) >= ArityIn(ports[g].kind)
  {
    if ports != [] {
      NoneUnfilled(ports[..|ports| - 1]);
    }
  }

  /** A gate that is not there yet has no wires. */
  lemma NoWiresYet(wires: seq<Wire>, kinds: seq<GateKind>, id: nat, kind: GateKind)
    requires id >= |kinds| && forall w | w in wires :: WireCheck(kinds, w).None?
    ensures Replay(wires, id, kind) == Gate(id, kind, seq(ArityIn(kind), _ => None), None)
    ensures forall w | w in wires :: WireCheck(kinds + [kind], w).None?
  {
    LastOutOfIff(wires, id);
    forall p: nat
      ensures LastInto(wires, id, p).None?
    {
      LastIntoIff(wires, id, p);
    }
  }

  /** One more wire changes one input port of its target and the output of its source. */
  lemma ReplayOneMore(wires: seq<Wire>, w: Wire, id: nat, kind: GateKind)
    requires w.toGate == id ==> w.toPort < ArityIn(kind)
    ensures var before, after := Replay(wires, id, kind), Replay(wires + [w], id, kind);
            && after.inputPorts
               == (if w.toGate == id then before.inputPorts[w.toPort := Some(w)] else before.inputPorts)
            && after.outputWire == (if w.fromGate == id then Some(w) else before.outputWire)
  {
    assert (wires + [w])[..|wires|] == wires;
  }

  class FluxCapacitor {
    var ports: seq<Gate>
    var wires: seq<Wire>
    var metaStable: bool
    var charge: real
    var transitionCount: nat

    ghost function Value(): Circuit
      reads this
    {
      Circuit(KindsOf(ports), wires, metaStable, transitionCount)
    }

    /** Each gate is the replay of the log, and every wire of the log was legal. */
    ghost predicate Valid()
      reads this
    {
      && (forall i | 0 <= i < |ports| :: ports[i] == Replay(wires, i, ports[i].kind))
      && (forall w | w in wires :: WireCheck(KindsOf(ports), w).None?)
    }

    constructor ()
      ensures Valid() && Value() == Run([])
    {
      ports, wires, metaStable, charge, transitionCount := [], [], false, 0.0, 0;
    }

    method AddGate(kind: GateKind) returns (id: nat)
      requires Valid()
      modifies this`ports
      ensures Valid() && Value() == Apply(old(Value()), AddGateCall(kind))
      ensures id == |old(ports)| && ports == old(ports) + [Gate(id, kind, seq(ArityIn(kind), _ => None), None)]
    {
      id := |ports|;
      ghost var before := KindsOf(ports);
      ports := ports + [Gate(id, kind, seq(ArityIn(kind), _ => None), None)];
      assert KindsOf(ports) == before + [kind];
      NoWiresYet(wires, before, id, kind);
    }

    method Connect(fromGate: nat, fromPort: nat, toGate: nat, toPort: nat) returns (r: Result<(), WireError>)
      requires Valid()
      modifies this`ports, this`wires
      ensures var w := Wire(fromGate, fromPort, toGate, toPort);
              && Valid() && Value() == Apply(old(Value()), ConnectCall(w))
              && match WireCheck(KindsOf(old(ports)), w)
                 case Some(e) => r == Err(e) && ports == old(ports)
                 case None => r == Ok(())
    {
      if fromGate >= |ports| {
        return Err(NoFromGate(fromGate));
      }
      if toGate >= |ports| {
        return Err(NoToGate(toGate));
      }
      if fromPort >= ArityOut(ports[fromGate].kind) {
        return Err(NoOutputPort(fromGate, fromPort));
      }
      if toPort >= ArityIn(ports[toGate].kind) {
        return Err(NoInputPort(toGate, toPort));
      }
      var wire := Wire(fromGate, fromPort, toGate, toPort);
      ghost var kinds := KindsOf(ports);
      var target := ports[toGate];
      ports := ports[toGate := target.(inputPorts := target.inputPorts[toPort := Some(wire)])];
      var source := ports[fromGate];
      ports := ports[fromGate := source.(outputWire := Some(wire))];
      wires := wires + [wire];
      assert KindsOf(ports) == kinds;
      forall i | 0 <= i < |ports|
        ensures ports[i] == Replay(wires, i, ports[i].kind)
      {
        ReplayOneMore(old(wires), wire, i, ports[i].kind);
      }
      r := Ok(());
    }

    lemma UnfilledIff()
      requires Valid()
      ensures UnfilledGates(ports) == [] <==> AllWired(KindsOf(ports), wires)
    {
      forall g | 0 <= g < |ports|
        ensures CountFilled(ports[g].inputPorts) < ArityIn(ports[g].kind)
           <==> !GateWired(wires, g, ArityIn(ports[g].kind))
      {
        var inputs := ports[g].inputPorts;
        CountFilledFull(inputs);
        assert forall p | 0 <= p < |inputs| :: inputs[p] == LastInto(wires, g, p);
      }
      NoneUnfilled(ports);
      assert forall g | 0 <= g < |ports| :: KindsOf(ports)[g] == ports[g].kind;
      if UnfilledGates(ports) == [] {
        forall g | 0 <= g < |ports|
          ensures GateWired(wires, g, ArityIn(KindsOf(ports)[g]))
        {
          assert CountFilled(ports[g].inputPorts) >= ArityIn(ports[g].kind);
        }
      } else {
        var g :| 0 <= g < |ports| && CountFilled(ports[g].inputPorts) < ArityIn(ports[g].kind);
        assert !GateWired(wires, g, ArityIn(KindsOf(ports)[g]));
      }
    }

    method AllPortsFilled() returns (unfilled: seq<Unfilled>)
      requires Valid()
      ensures unfilled == UnfilledGates(ports)
      ensures unfilled == [] <==> AllWired(KindsOf(ports), wires)
    {
      unfilled := [];
      for i := 0 to |ports|
        invariant unfilled == UnfilledGates(ports[..i])
      {
        assert ports[..i + 1][..i] == ports[..i];
        var gate := ports[i];
        var required, filled := ArityIn(gate.kind), CountFilled(gate.inputPorts);
        if filled < required && gate.kind != Rx && gate.kind != Cap {
          unfilled := unfilled + [Unfilled(gate.id, filled, required)];
        }
      }
      assert ports[..|ports|] == ports;
      UnfilledIff();
    }

    method Evaluate() returns (stable: bool)
      requires Valid()
      modifies this`metaStable, this`charge, this`transitionCount
      ensures Valid() && Value() == Apply(old(Value()), EvaluateCall)
      ensures stable <==> Fires(old(Value()))
      ensures charge == if stable then |wires| as real else old(charge)
    {
      var unfilled := AllPortsFilled();
      metaStable := unfilled == [] && wires != [];
      if metaStable {
        charge := |wires| as real;
        transitionCount := transitionCount + 1;
      }
      stable := metaStable;
    }
  }

  // ---------------------------------------------------------------------------------------------
  // Bridges
  // ---------------------------------------------------------------------------------------------

  datatype Issue = SourceAgain(port: nat) | TargetAgain(port: nat)

  function SetOf(ports: seq<nat>): set<nat> {
    if ports == [] then {} else SetOf(ports[..|ports| - 1]) + {ports[|ports| - 1]}
  }

  function SourcePorts(wires: seq<(nat, nat)>): seq<nat> {
    seq(|wires|, i requires 0 <= i < |wires| => wires[i].0)
  }

  function TargetPorts(wires: seq<(nat, nat)>): seq<nat> {
    seq(|wires|, i requires 0 <= i < |wires| => wires[i].1)
  }

  /** No source port and no target port is wired twice. */
  ghost predicate OneToOne(wires: seq<(nat, nat)>) {
    Distinct(SourcePorts(wires)) && Distinct(TargetPorts(wires))
  }

  lemma {:induction false} SetOfMembers(ports: seq<nat>, p: nat)
    ensures p in SetOf(ports) <==> p in ports
  {
    if ports != [] {
      SetOfMembers(ports[..|ports| - 1], p);
      assert ports == ports[..|ports| - 1] + [ports[|ports| - 1]];
    }
  }

  lemma OneMorePort(ports: seq<nat>, i: nat)
    requires i < |ports|
    ensures ports[..i + 1] == ports[..i] + [ports[i]]
    ensures |SetOf(ports[..i + 1])| == |SetOf(ports[..i])| + if ports[i] in ports[..i] then 0 else 1
  {
    assert ports[..i + 1][..i] == ports[..i];
    SetOfMembers(ports[..i], ports[i]);
    if ports[i] in ports[..i] {
      assert SetOf(ports[..i]) + {ports[i]} == SetOf(ports[..i]);
    }
  }

  /** There are as many different ports as ports iff none repeats. */
  lemma {:induction false} FewerPorts(ports: seq<nat>)
    ensures |SetOf(ports)| <= |ports|
    ensures |SetOf(ports)| == |ports| <==> Distinct(ports)
  {
    if ports != [] {
      var n := |ports| - 1;
      FewerPorts(ports[..n]);
      OneMorePort(ports, n);
      assert ports[..n + 1] == ports;
      if ports[n] in ports[..n] {
        var i :| 0 <= i < n && ports[..n][i] == ports[n];
        assert ports[i] == ports[n];
      }
    }
  }

  /** What the `i`-th wire gives rise to: an issue for each of its ports that an earlier wire has. */
  function IssuesAt(sources: seq<nat>, targets: seq<nat>, i: nat): seq<Issue>
    requires i < |sources| == |targets|
  {
    (if sources[i] in sources[..i] then [SourceAgain(sources[i])] else [])
    + (if targets[i] in targets[..i] then [TargetAgain(targets[i])] else [])
  }

  function Issues(sources: seq<nat>, targets: seq<nat>, n: nat): seq<Issue>
    requires n <= |sources| == |targets|
  {
    if n == 0 then [] else Issues(sources, targets, n - 1) + IssuesAt(sources, targets, n - 1)
  }

  lemma {:induction false} IssueCount(sources: seq<nat>, targets: seq<nat>, n: nat)
    requires n <= |sources| == |targets|
    ensures |Issues(sources, targets, n)| == (n - |SetOf(sources[..n])|) + (n - |SetOf(targets[..n])|)
  {
    if n > 0 {
      IssueCount(sources, targets, n - 1);
      OneMorePort(sources, n - 1);
      OneMorePort(targets, n - 1);
    }
  }

  function CountOf<T(==)>(s: seq<T>, x: T): nat {
    if s == [] then 0 else CountOf(s[..|s| - 1], x) + if s[|s| - 1] == x then 1 else 0
  }

  lemma {:induction false} CountConcat<T>(a: seq<T>, b: seq<T>, x: T)
    ensures CountOf(a + b, x) == CountOf(a, x) + CountOf(b, x)
  {
    if b == [] {
      assert a + b == a;
    } else {
      assert (a + b)[..|a + b| - 1] == a + b[..|b| - 1];
      CountConcat(a, b[..|b| - 1], x);
    }
  }

  lemma {:induction false} CountPositive<T>(s: seq<T>, x: T)
    ensures CountOf(s, x) > 0 <==> x in s
  {
    if s != [] {
      CountPositive(s[..|s| - 1], x);
      assert s == s[..|s| - 1] + [s[|s| - 1]];
    }
  }

  /** How often a port occurs beyond the first time. */
  function Repeats(ports: seq<nat>, p: nat): nat {
    if CountOf(ports, p) > 0 then CountOf(ports, p) - 1 else 0
  }

  lemma RepeatsStep(ports: seq<nat>, i: nat, p: nat)
    requires i < |ports|
    ensures Repeats(ports[..i + 1], p) == Repeats(ports[..i], p) + if ports[i] == p && p in ports[..i] then 1 else 0
  {
    assert ports[..i + 1][..i] == ports[..i];
    CountPositive(ports[..i], p);
  }

  lemma OneCount<T>(y: T, x: T)
    ensures CountOf([y], x) == if y == x then 1 else 0
  {
    assert [y][..0] == [];
  }

  lemma IssuesAtName(sources: seq<nat>, targets: seq<nat>, i: nat, p: nat)
    requires i < |sources| == |targets|
    ensures CountOf(IssuesAt(sources, targets, i),
                    SourceAgain(p)) == if sources[i] == p && p in sources[..i] then 1 else 0
    ensures CountOf(IssuesAt(sources, targets, i),
                    TargetAgain(p)) == if targets[i] == p && p in targets[..i] then 1 else 0
  {
    var a := if sources[i] in sources[..i] then [SourceAgain(sources[i])] else [];
    var b := if targets[i] in targets[..i] then [TargetAgain(targets[i])] else [];
    CountConcat(a, b, SourceAgain(p));
    CountConcat(a, b, TargetAgain(p));
    OneCount(SourceAgain(sources[i]), SourceAgain(p));
    OneCount(SourceAgain(sources[i]), TargetAgain(p));
    OneCount(TargetAgain(targets[i]), SourceAgain(p));
    OneCount(TargetAgain(targets[i]), TargetAgain(p));
  }

  lemma {:induction false} IssuesNamed(sources: seq<nat>, targets: seq<nat>, n: nat, p: nat)
    requires n <= |sources| == |targets|
    ensures CountOf(Issues(sources, targets, n), SourceAgain(p)) == Repeats(sources[..n], p)
    ensures CountOf(Issues(sources, targets, n), TargetAgain(p)) == Repeats(targets[..n], p)
  {
    if n > 0 {
      IssuesNamed(sources, targets, n - 1, p);
      var front, here := Issues(sources, targets, n - 1), IssuesAt(sources, targets, n - 1);
      CountConcat(front, here, SourceAgain(p));
      CountConcat(front, here, TargetAgain(p));
      IssuesAtName(sources, targets, n - 1, p);
      RepeatsStep(sources, n - 1, p);
      RepeatsStep(targets, n - 1, p);
    }
  }

  /** A port is reported once for every occurrence but its first. */
  lemma IssuesName(sources: seq<nat>, targets: seq<nat>, p: nat)
    requires |sources| == |targets|
    ensures var issues := Issues(sources, targets, |sources|);
            && CountOf(issues, SourceAgain(p)) == Repeats(sources, p)
            && CountOf(issues, TargetAgain(p)) == Repeats(targets, p)
  {
    IssuesNamed(sources, targets, |sources|, p);
    assert sources[..|sources|] == sources && targets[..|sources|] == targets;
  }

  class MultiBridge {
    var wires: seq<(nat, nat)>

    constructor ()
      ensures wires == []
    {
      wires := [];
    }

    method Connect(fromPort: nat, toPort: nat)
      modifies this
      ensures wires == old(wires) + [(fromPort, toPort)]
    {
      wires := wires + [(fromPort, toPort)];
    }

    /** One issue per wire beyond the first at each source port, and the same for target ports. */
    method ValidateInvariants() returns (issues: seq<Issue>)
      ensures issues == Issues(SourcePorts(wires), TargetPorts(wires), |wires|)
      ensures |issues| == (|wires| - |SetOf(SourcePorts(wires))|) + (|wires| - |SetOf(TargetPorts(wires))|)
      ensures issues == [] <==> OneToOne(wires)
    {
      issues := [];
      ghost var sources, targets := SourcePorts(wires), TargetPorts(wires);
      var seenSource, seenTarget: seq<nat> := [], [];
      for i := 0 to |wires|
        invariant seenSource == sources[..i] && seenTarget == targets[..i]
        invariant issues == Issues(sources, targets, i)
      {
        var (s, t) := wires[i];
        if s in seenSource {
          issues := issues + [SourceAgain(s)];
        }
        if t in seenTarget {
          issues := issues + [TargetAgain(t)];
        }
        seenSource := seenSource + [s];
        seenTarget := seenTarget + [t];
      }
      assert sources[..|wires|] == sources && targets[..|wires|] == targets;
      IssueCount(sources, targets, |wires|);
      FewerPorts(sources);
      FewerPorts(targets);
    }
  }
}
