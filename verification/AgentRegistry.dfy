/** The agent registry of crates/nagent-agents/src/agents.rs: a handle owns one reference to a
  shared vector; a push writes in place when the handle is the only owner and copies otherwise. */
module AgentRegistry {
  import opened Wrappers
  import opened Sorting

  /** An agent is an opaque trait object with a name. */
  datatype Agent = Agent(name: string, id: nat)

  type Handle = nat

  // ---------------------------------------------------------------- independent copies

  /** The reference: every handle owns a list of its own. */
  type Lists = map<Handle, seq<Agent>>

  /** `Clone(source, to)` assigns `source.clone()` to `to`, which may be an existing handle, even
      `source` itself. */
  datatype Op =
    | Empty(to: Handle)
    | Clone(source: Handle, to: Handle)
    | Push(h: Handle, agent: Agent)
    | Drop(h: Handle)

  /** A program cannot name a handle that is not there. */
  predicate Allowed(m: Lists, op: Op) {
    match op
    case Empty(_) => true
    case Clone(source, _) => source in m
    case Push(h, _) => h in m
    case Drop(h) => h in m
  }

  function Apply(m: Lists, op: Op): Lists
    requires Allowed(m, op)
  {
    match op
    case Empty(to) => m[to := []]
    case Clone(source, to) => m[to := m[source]]
    case Push(h, agent) => m[h := m[h] + [agent]]
    case Drop(h) => m - {h}
  }

  predicate Runs(m: Lists, ops: seq<Op>)
    decreases |ops|
  {
    ops == [] || (Allowed(m, ops[0]) && Runs(Apply(m, ops[0]), ops[1..]))
  }

  function Run(m: Lists, ops: seq<Op>): Lists
    requires Runs(m, ops)
    decreases |ops|
  {
    if ops == [] then m else Run(Apply(m, ops[0]), ops[1..])
  }

  /** Whether an operation gives the handle another list altogether. */
  predicate Replaces(op: Op, h: Handle) {
    match op
    case Empty(to) => to == h
    case Clone(_, to) => to == h
    case Push(_, _) => false
    case Drop(d) => d == h
  }

  /** What an operation, or a program, pushes through one handle. */
  function PushedBy(op: Op, h: Handle): seq<Agent> {
    if op.Push? && op.h == h then [op.agent] else []
  }

  function PushedTo(ops: seq<Op>, h: Handle): seq<Agent> {
    if ops == [] then [] else PushedBy(ops[0], h) + PushedTo(ops[1..], h)
  }

  lemma StepKeeps(m: Lists, op: Op, h: Handle)
    requires Allowed(m, op) && h in m && !Replaces(op, h)
    ensures h in Apply(m, op) && Apply(m, op)[h] == m[h] + PushedBy(op, h)
  {
  }

  /** While a handle is kept, it gains exactly what is pushed through it; pushes through any other
      handle, a clone included, are never seen. */
  lemma {:induction false} OnlyOwnPushes(m: Lists, ops: seq<Op>, h: Handle)
    requires Runs(m, ops) && h in m
    requires forall op :: op in ops ==> !Replaces(op, h)
    ensures h in Run(m, ops)
    ensures Run(m, ops)[h] == m[h] + PushedTo(ops, h)
    decreases |ops|
  {
    if ops != [] {
      var op, rest := ops[0], ops[1..];
      var next := Apply(m, op);
      StepKeeps(m, op, h);
      OnlyOwnPushes(next, rest, h);
      assert m[h] + PushedTo(ops, h) == next[h] + PushedTo(rest, h);
    }
  }

  /** A clone and its source part ways for good: each one's list is the list at the time of the
      clone followed by its own pushes. */
  lemma ClonesDiverge(m: Lists, a: Handle, b: Handle, ops: seq<Op>)
    requires a in m && Runs(m, [Clone(a, b)] + ops)
    requires forall op :: op in ops ==> !Replaces(op, a) && !Replaces(op, b)
    ensures var end := Run(m, [Clone(a, b)] + ops);
            && a in end && end[a] == m[a] + PushedTo(ops, a)
            && b in end && end[b] == m[a] + PushedTo(ops, b)
  {
    var all := [Clone(a, b)] + ops;
    assert all[1..] == ops;
    var next := Apply(m, all[0]);
    OnlyOwnPushes(next, ops, a);
    OnlyOwnPushes(next, ops, b);
  }

  // ---------------------------------------------------------------- where a list comes from

  /** What a handle shows after a program, read backwards off the program: from the push or clone
      that wrote it last to the empty registry it started as. */
  function Origin(ops: seq<Op>, h: Handle): Option<seq<Agent>>
    decreases |ops|
  {
    if ops == [] then None
    else
      var front := ops[..|ops| - 1];
      match ops[|ops| - 1]
      case Empty(to) => if to == h then Some([]) else Origin(front, h)
      case Clone(source, to) => if to == h then Origin(front, source) else Origin(front, h)
      case Push(g, agent) =>
        var was := Origin(front, h);
        if g == h && was.Some? then Some(was.value + [agent]) else was
      case Drop(d) => if d == h then None else Origin(front, h)
  }

  lemma {:induction false} RunNext(m: Lists, ops: seq<Op>, op: Op)
    requires Runs(m, ops + [op])
    ensures Runs(m, ops) && Allowed(Run(m, ops), op) && Run(m, ops + [op]) == Apply(Run(m, ops), op)
    decreases |ops|
  {
    if ops == [] {
      assert [] + [op] == [op] && [op][1..] == [];
      assert Run(Apply(m, op), []) == Apply(m, op);
    } else {
      assert (ops + [op])[1..] == ops[1..] + [op];
      RunNext(Apply(m, ops[0]), ops[1..], op);
    }
  }

  /** Every program shows, through every handle, exactly the list the program spells out for it, and
      a handle is there exactly when the program has made it and not dropped it since. */
  lemma {:induction false} ListsHaveOrigins(ops: seq<Op>, h: Handle)
    requires Runs(map[], ops)
    ensures h in Run(map[], ops) <==> Origin(ops, h).Some?
    ensures h in Run(map[], ops) ==> Some(Run(map[], ops)[h]) == Origin(ops, h)
    decreases |ops|
  {
    if ops != [] {
      var front, op := ops[..|ops| - 1], ops[|ops| - 1];
      assert ops == front + [op];
      RunNext(map[], front, op);
      ListsHaveOrigins(front, h);
      if op.Clone? {
        ListsHaveOrigins(front, op.source);
      }
    }
  }

  // ---------------------------------------------------------------- lookup

  /** `get`: a linear search. */
  function Get(agents: seq<Agent>, name: string): Option<Agent> {
    if agents == [] then None
    else if agents[0].name == name then Some(agents[0])
    else Get(agents[1..], name)
  }

  predicate FirstNamed(agents: seq<Agent>, name: string, i: nat) {
    i < |agents| && agents[i].name == name && forall j :: 0 <= j < i ==> agents[j].name != name
  }

  /** A lookup fails exactly when the name is unknown, and otherwise gives the agent registered
      first under it. */
  lemma {:induction false} GetIsFirst(agents: seq<Agent>, name: string)
    ensures Get(agents, name).None? <==> forall i :: 0 <= i < |agents| ==> agents[i].name != name
    ensures forall i: nat :: FirstNamed(agents, name, i) ==> Get(agents, name) == Some(agents[i])
    ensures Get(agents, name).Some? ==> exists i: nat :: FirstNamed(agents, name, i)
  {
    if agents != [] && agents[0].name != name {
      var rest := agents[1..];
      GetIsFirst(rest, name);
      assert forall i :: 0 < i < |agents| ==> agents[i] == rest[i - 1];
      forall i: nat | FirstNamed(agents, name, i) ensures Get(agents, name) == Some(agents[i]) {
        assert FirstNamed(rest, name, i - 1) by {
          assert forall j :: 0 <= j < i - 1 ==> rest[j] == agents[j + 1];
        }
      }
      if Get(agents, name).Some? {
        var i: nat :| FirstNamed(rest, name, i);
        assert FirstNamed(agents, name, i + 1);
      }
    } else if agents != [] {
      assert FirstNamed(agents, name, 0);
    }
  }

  lemma {:induction false} GetAppend(first: seq<Agent>, second: seq<Agent>, name: string)
    ensures Get(first + second, name) == if Get(first, name).Some? then Get(first, name) else Get(second, name)
  {
    if first == [] {
      assert first + second == second;
    } else {
      assert (first + second)[1..] == first[1..] + second;
      GetAppend(first[1..], second, name);
    }
  }

  /** A name keeps its agent while the handle is kept: a later registration under the same name
      shadows nothing, whichever handle it goes through. */
  lemma NamesAreSticky(m: Lists, ops: seq<Op>, h: Handle, name: string)
    requires Runs(m, ops) && h in m
    requires forall op :: op in ops ==> !Replaces(op, h)
    ensures h in Run(m, ops)
    ensures Get(Run(m, ops)[h], name)
            == if Get(m[h], name).Some? then Get(m[h], name) else Get(PushedTo(ops, h), name)
  {
    OnlyOwnPushes(m, ops, h);
    GetAppend(m[h], PushedTo(ops, h), name);
  }

  // ---------------------------------------------------------------- the shared form

  /** The counted allocation behind an `Arc`. */
  class Inner {
    var agents: seq<Agent>
    var strong: nat

    constructor (agents: seq<Agent>)
      ensures this.agents == agents && strong == 1
    {
      this.agents, strong := agents, 1;
    }
  }

  ghost function Owners(handles: map<Handle, Inner>, inner: Inner): set<Handle> {
    set h | h in handles && handles[h] == inner
  }

  /** How the owners of any allocation change when `to` is given `inner`. */
  lemma OwnersUpdated(handles: map<Handle, Inner>, to: Handle, inner: Inner, any: Inner)
    ensures |Owners(handles[to := inner], any)|
            == |Owners(handles, any)| + (if any == inner then 1 else 0)
               - (if to in handles && handles[to] == any then 1 else 0)
  {
    var was, now := Owners(handles, any), Owners(handles[to := inner], any);
    assert any == inner ==> now == was + {to};
    assert any != inner ==> now == was - {to};
  }

  lemma OwnersDropped(handles: map<Handle, Inner>, h: Handle, any: Inner)
    requires h in handles
    ensures |Owners(handles - {h}, any)| == |Owners(handles, any)| - (if handles[h] == any then 1 else 0)
  {
    assert Owners(handles - {h}, any) == Owners(handles, any) - {h};
  }

  lemma OwnerCounts(handles: map<Handle, Inner>, h: Handle)
    requires h in handles
    ensures |Owners(handles, handles[h])| >= 1
  {
    assert h in Owners(handles, handles[h]);
  }

  /** Two handles that share have at least two owners. */
  lemma SharedHasTwo(handles: map<Handle, Inner>, h: Handle, other: Handle)
    requires h in handles && other in handles && h != other && handles[h] == handles[other]
    ensures |Owners(handles, handles[h])| >= 2
  {
    var pair := {h, other};
    var rest := Owners(handles, handles[h]) - pair;
    assert Owners(handles, handles[h]) == pair + rest;
  }

  lemma UniqueHasOne(handles: map<Handle, Inner>, h: Handle)
    requires h in handles && |Owners(handles, handles[h])| == 1
    ensures forall other :: other in handles && other != h ==> handles[other] != handles[h]
  {
    forall other | other in handles && other != h ensures handles[other] != handles[h] {
      if handles[other] == handles[h] {
        SharedHasTwo(handles, h, other);
      }
    }
  }

  function Built(built: seq<Option<Agent>>): seq<Agent> {
    if built == [] then []
    else Built(built[..|built| - 1]) + match built[|built| - 1] case Some(a) => [a] case None => []
  }

  function IsBuilt(): Option<Agent> -> bool { (b: Option<Agent>) => b.Some? }

  /** Exactly the descriptors that build are registered, in their order. */
  lemma {:induction false} BuiltExactly(built: seq<Option<Agent>>)
    ensures |Built(built)| == |Filter(IsBuilt(), built)|
    ensures forall i :: 0 <= i < |Built(built)| ==> Some(Built(built)[i]) == Filter(IsBuilt(), built)[i]
    decreases |built|
  {
    if built != [] {
      var front, last := built[..|built| - 1], built[|built| - 1];
      BuiltExactly(front);
      assert built == front + [last];
      FilterAppend(IsBuilt(), front, [last]);
      assert [last][1..] == [];
    }
  }

  lemma BuiltStep(before: Lists, own: seq<Agent>, built: seq<Option<Agent>>, k: nat, h: Handle)
    requires k < |built|
    ensures var was, now := before[h := own + Built(built[..k])], before[h := own + Built(built[..k + 1])];
            now == if built[k].Some? then Apply(was, Push(h, built[k].value)) else was
  {
    var more := built[..k + 1];
    assert more[..k] == built[..k];
    var added := match built[k] case Some(a) => [a] case None => [];
    var list := own + Built(built[..k]);
    assert own + Built(more) == own + (Built(built[..k]) + added) == list + added;
    assert built[k].None? ==> list + added == list;
  }

  class Registries {
    var handles: map<Handle, Inner>
    /** Every allocation made so far. */
    ghost var heap: set<Inner>

    /** Every count is the number of handles that own the allocation, zero once it can be freed. */
    ghost predicate Valid()
      reads this, heap
    {
      && (forall h :: h in handles ==> handles[h] in heap)
      && (forall inner :: inner in heap ==> inner.strong == |Owners(handles, inner)|)
    }

    /** What each handle shows. */
    ghost function View(): Lists
      reads this, heap
      requires Valid()
    {
      map h | h in handles :: handles[h].agents
    }

    constructor ()
      ensures Valid() && View() == map[] && fresh(heap)
    {
      handles, heap := map[], {};
    }

    /** `Valid`, with one reference to `inner` that no handle holds yet. */
    ghost predicate OneInHand(inner: Inner)
      reads this, heap
    {
      && inner in heap
      && (forall h :: h in handles ==> handles[h] in heap)
      && (forall i :: i in heap ==> i.strong == |Owners(handles, i)| + if i == inner then 1 else 0)
    }

    /** Stores the reference in hand, and releases what the handle owned before. */
    method Assign(to: Handle, inner: Inner)
      requires OneInHand(inner)
      modifies this`handles, heap`strong
      ensures Valid() && handles == old(handles)[to := inner]
    {
      if to in handles {
        OwnerCounts(handles, to);
        handles[to].strong := handles[to].strong - 1;
      }
      handles := handles[to := inner];
      forall i | i in heap ensures i.strong == |Owners(handles, i)| {
        OwnersUpdated(old(handles), to, inner, i);
      }
    }

    /** Gives the handle an allocation of its own. */
    method Allocate(to: Handle, agents: seq<Agent>)
      requires Valid()
      modifies this, heap`strong
      ensures Valid() && fresh(heap - old(heap))
      ensures to in handles && fresh(handles[to]) && handles[to].agents == agents
      ensures handles == old(handles)[to := handles[to]]
    {
      var inner := new Inner(agents);
      heap := heap + {inner};
      assert Owners(handles, inner) == {};
      Assign(to, inner);
    }

    method NewEmpty(to: Handle)
      requires Valid()
      modifies this, heap
      ensures Valid() && View() == Apply(old(View()), Empty(to))
      ensures to in handles && fresh(heap - old(heap))
    {
      Allocate(to, []);
    }

    method CloneInto(source: Handle, to: Handle)
      requires Valid() && source in handles
      modifies this, heap
      ensures Valid() && View() == Apply(old(View()), Clone(source, to))
      ensures to in handles && handles[to] == old(handles[source]) && heap == old(heap)
    {
      var inner := handles[source];
      inner.strong := inner.strong + 1;
      Assign(to, inner);
    }

    /** The vector of a sole owner grows in place. */
    method PushInPlace(h: Handle, agent: Agent)
      requires Valid() && h in handles && handles[h].strong == 1
      modifies handles[h]
      ensures Valid() && View() == Apply(old(View()), Push(h, agent))
    {
      UniqueHasOne(handles, h);
      handles[h].agents := handles[h].agents + [agent];
    }

    /** A handle that shares its vector moves to a copy of its own. */
    method PushToCopy(h: Handle, agent: Agent)
      requires Valid() && h in handles
      modifies this, heap`strong
      ensures Valid() && handles.Keys == old(handles.Keys) && fresh(heap - old(heap))
      ensures fresh(handles[h]) && handles == old(handles)[h := handles[h]]
      ensures View() == Apply(old(View()), Push(h, agent))
    {
      Allocate(h, handles[h].agents + [agent]);
    }

    /** `push_agent_boxed`: the vector is reused exactly when the handle was its only owner. */
    method PushAgent(h: Handle, agent: Agent)
      requires Valid() && h in handles
      modifies this, heap
      ensures Valid() && View() == Apply(old(View()), Push(h, agent))
      ensures handles.Keys == old(handles.Keys) && fresh(heap - old(heap))
      ensures handles[h] == old(handles[h]) <==> |old(Owners(handles, handles[h]))| == 1
      ensures forall o :: o in handles && o != h ==> handles[o] == old(handles[o])
    {
      if handles[h].strong == 1 {
        PushInPlace(h, agent);
      } else {
        PushToCopy(h, agent);
      }
    }

    method DropHandle(h: Handle)
      requires Valid() && h in handles
      modifies this, heap
      ensures Valid() && View() == Apply(old(View()), Drop(h)) && heap == old(heap)
    {
      OwnerCounts(handles, h);
      handles[h].strong := handles[h].strong - 1;
      handles := handles - {h};
      forall i | i in heap ensures i.strong == |Owners(handles, i)| {
        OwnersDropped(old(handles), h, i);
      }
    }

    /** Sharing is invisible: any program over the handles shows what it shows over independent
        copies. */
    method Play(ops: seq<Op>)
      requires Valid() && Runs(View(), ops)
      modifies this, heap
      ensures Valid() && View() == Run(old(View()), ops)
    {
      ghost var start := View();
      var k := 0;
      while k < |ops|
        invariant 0 <= k <= |ops| && Valid() && fresh(heap - old(heap))
        invariant Runs(View(), ops[k..]) && Run(View(), ops[k..]) == Run(start, ops)
      {
        assert ops[k..][1..] == ops[k + 1..];
        match ops[k] {
          case Empty(to) => NewEmpty(to);
          case Clone(source, to) => CloneInto(source, to);
          case Push(h, agent) => PushAgent(h, agent);
          case Drop(h) => DropHandle(h);
        }
        k := k + 1;
      }
    }

    method Lookup(h: Handle, name: string) returns (r: Option<Agent>)
      requires Valid() && h in handles
      ensures r == Get(View()[h], name)
    {
      var agents := handles[h].agents;
      var i := 0;
      while i < |agents| && agents[i].name != name
        invariant 0 <= i <= |agents|
        invariant Get(agents, name) == Get(agents[i..], name)
      {
        assert agents[i..][1..] == agents[i + 1..];
        i := i + 1;
      }
      r := if i < |agents| then Some(agents[i]) else None;
    }

    /** Pushes what was built, in order, and skips what failed. */
    method PushBuilt(h: Handle, built: seq<Option<Agent>>)
      requires Valid() && h in handles
      modifies this, heap
      ensures Valid() && View() == old(View())[h := old(View()[h]) + Built(built)]
    {
      ghost var before, own := View(), View()[h];
      assert own + [] == own;
      var k := 0;
      while k < |built|
        invariant 0 <= k <= |built| && Valid() && h in handles && fresh(heap - old(heap))
        invariant View() == before[h := own + Built(built[..k])]
      {
        BuiltStep(before, own, built, k, h);
        if built[k].Some? {
          PushAgent(h, built[k].value);
        }
        k := k + 1;
      }
      assert built[..k] == built;
    }

    /** `from_config`: with the master switch off nothing is registered; otherwise every descriptor
        that builds is, in table order, and one that fails is skipped. */
    method FromConfig(to: Handle, enabled: bool, built: seq<Option<Agent>>)
      requires Valid()
      modifies this, heap
      ensures Valid() && View() == old(View())[to := if enabled then Built(built) else []]
    {
      NewEmpty(to);
      if enabled {
        PushBuilt(to, built);
      }
      assert [] + Built(built) == Built(built);
    }
  }
}
