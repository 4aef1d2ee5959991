/**
 * The flow editor's picture of a step catalogue: a START node, one ask node
 * per step laid out along the `next_name` chain from the entry step, the
 * steps the chain misses after it in catalogue order, and an END node,
 * linked into one path. Also the slug used for new input keys and the
 * requests the insert and update forms send. Styles, pixel positions and
 * React state are not modelled; nodes and edges are identified by their ids.
 */
module IntakeFlowVisualizer {
  import opened Wrappers
  import opened Text

  // ------------------------------------------------------------ data model

  /** An `IntakeStep` as the editor receives it. */
  datatype UiStep = UiStep(name: string, askPrompt: string, inputKey: string, nextName: Option<string>, orderIndex: int)

  /** The fields of an `IntakeState` the picture reads; `sessionCompleted` is `session_status === 'completed'`. */
  datatype UiState = UiState(currentStep: string, completedSteps: seq<string>, collected: map<string, string>,
                             sessionCompleted: bool)

  datatype VNode =
    | StartNode
    | AskNode(stepName: string, active: bool, completed: bool, value: string)
    | EndNode(completed: bool)

  datatype VEdge = VEdge(source: string, target: string)

  function AskId(name: string): string { "ask_" + name }

  function NodeId(n: VNode): string {
    match n
    case StartNode => "start"
    case AskNode(s, _, _, _) => AskId(s)
    case EndNode(_) => "end"
  }

  /** `(s.next_name || '').trim()` */
  function NextText(s: UiStep): string { JsTrim(s.nextName.GetOr("")) }

  // ------------------------------------------------------ catalogue views

  /** `new Set(steps.map(s => s.name))` */
  function Names(steps: seq<UiStep>): set<string> {
    if steps == [] then {} else Names(steps[..|steps| - 1]) + {steps[|steps| - 1].name}
  }

  /** `new Set(steps.map(s => (s.next_name || '').trim()).filter(Boolean))`: the names some step points to. */
  function PointedSet(steps: seq<UiStep>): set<string> {
    if steps == [] then {}
    else
      var last := NextText(steps[|steps| - 1]);
      PointedSet(steps[..|steps| - 1]) + (if last != [] then {last} else {})
  }

  /** `Object.fromEntries(steps.map(s => [s.name, s]))`: a later step replaces an earlier one of the same name. */
  function StepMap(steps: seq<UiStep>): (m: map<string, UiStep>)
    ensures m.Keys == Names(steps)
    ensures forall n :: n in m ==> m[n].name == n
  {
    if steps == [] then map[]
    else
      var last := steps[|steps| - 1];
      assert steps == steps[..|steps| - 1] + [last];
      StepMap(steps[..|steps| - 1])[last.name := last]
  }

  /** No two steps share a name. */
  predicate UniqueNames(steps: seq<UiStep>) {
    forall i, j :: 0 <= i < j < |steps| ==> steps[i].name != steps[j].name
  }

  /** With unique names, the map finds each step under its own name. */
  lemma {:induction false} StepMapUnique(steps: seq<UiStep>, i: nat)
    requires UniqueNames(steps) && i < |steps|
    ensures steps[i].name in StepMap(steps) && StepMap(steps)[steps[i].name] == steps[i]
    decreases |steps|
  {
    if i < |steps| - 1 {
      var init := steps[..|steps| - 1];
      assert init[i] == steps[i];
      StepMapUnique(init, i);
    }
  }

  // --------------------------------------------------------------- entry

  /** The index of the first step from `i` on whose name is not in `pointed`. */
  function FirstUnpointed(steps: seq<UiStep>, pointed: set<string>, i: nat): (r: Option<nat>)
    requires i <= |steps|
    ensures r.Some? ==> i <= r.value < |steps| && steps[r.value].name !in pointed
    ensures r.Some? ==> forall j :: i <= j < r.value ==> steps[j].name in pointed
    ensures r.None? ==> forall j :: i <= j < |steps| ==> steps[j].name in pointed
    decreases |steps| - i
  {
    if i == |steps| then None
    else if steps[i].name !in pointed then Some(i)
    else FirstUnpointed(steps, pointed, i + 1)
  }

  /** The entry step: the first step nobody points to, else the first step, else nothing. */
  function EntryName(steps: seq<UiStep>): string {
    EntryFrom(steps, PointedSet(steps))
  }

  /** The first step whose name is not in `pointed`, else the first step, else nothing. */
  function EntryFrom(steps: seq<UiStep>, pointed: set<string>): string {
    if steps == [] then []
    else
      match FirstUnpointed(steps, pointed, 0)
      case Some(k) => steps[k].name
      case None => steps[0].name
  }

  /**
   * The entry is the name of the first step nobody points to when there is
   * one, and the first step's name when every name is pointed to.
   */
  lemma EntryNameSpec(steps: seq<UiStep>, pointed: set<string>)
    ensures steps == [] ==> EntryFrom(steps, pointed) == []
    ensures (forall j :: 0 <= j < |steps| ==> steps[j].name in pointed) && steps != []
            ==> EntryFrom(steps, pointed) == steps[0].name
    ensures (exists j :: 0 <= j < |steps| && steps[j].name !in pointed) ==>
      exists k :: 0 <= k < |steps| && steps[k].name == EntryFrom(steps, pointed) && steps[k].name !in pointed
                  && forall j :: 0 <= j < k ==> steps[j].name in pointed
  {
    if steps != [] {
      match FirstUnpointed(steps, pointed, 0)
      case Some(k) =>
        assert steps[k].name == EntryFrom(steps, pointed);
      case None =>
    }
  }

  // --------------------------------------------------------------- chain

  /** Visiting one more known name leaves fewer names to visit. */
  lemma Shrink(all: set<string>, visited: set<string>, x: string)
    requires x in all && x !in visited
    ensures |all - (visited + {x})| < |all - visited|
  {
    var rest := all - (visited + {x});
    assert all - visited == rest + {x} && x !in rest;
  }

  /** The names met following `next_name` from `cur`, stopping at a blank, unknown or already visited name. */
  function Chain(steps: seq<UiStep>, cur: string, visited: set<string>): (c: seq<string>)
    requires visited <= Names(steps)
    ensures forall i :: 0 <= i < |c| ==> c[i] in Names(steps) && c[i] !in visited && c[i] != []
    ensures c != [] ==> c[0] == cur
    decreases |Names(steps) - visited|
  {
    if cur != [] && cur in Names(steps) && cur !in visited then
      Shrink(Names(steps), visited, cur);
      [cur] + Chain(steps, NextText(StepMap(steps)[cur]), visited + {cur})
    else []
  }

  /** One step of the chain, and the measure that shrinks with it. */
  lemma ChainStep(steps: seq<UiStep>, cur: string, visited: set<string>)
    requires visited <= Names(steps)
    requires cur != [] && cur in Names(steps) && cur !in visited
    ensures Chain(steps, cur, visited) == [cur] + Chain(steps, NextText(StepMap(steps)[cur]), visited + {cur})
    ensures |Names(steps) - (visited + {cur})| < |Names(steps) - visited|
  {
    Shrink(Names(steps), visited, cur);
  }

  lemma SnocCons(a: seq<string>, x: string, b: seq<string>)
    ensures a + ([x] + b) == (a + [x]) + b
  {
  }

  /** No name occurs twice. */
  predicate Distinct(c: seq<string>) {
    forall i, j :: 0 <= i < j < |c| ==> c[i] != c[j]
  }

  lemma DistinctCons(x: string, rest: seq<string>)
    requires Distinct(rest) && forall i :: 0 <= i < |rest| ==> rest[i] != x
    ensures Distinct([x] + rest)
  {
    var c := [x] + rest;
    forall i, j | 0 <= i < j < |c|
      ensures c[i] != c[j]
    {
      assert c[j] == rest[j - 1];
      if i > 0 {
        assert c[i] == rest[i - 1];
      }
    }
  }

  /** The chain visits each name at most once, which is why the walk ends even on a cycle. */
  lemma {:induction false} ChainDistinct(steps: seq<UiStep>, cur: string, visited: set<string>)
    requires visited <= Names(steps)
    ensures Distinct(Chain(steps, cur, visited))
    decreases |Names(steps) - visited|
  {
    if cur != [] && cur in Names(steps) && cur !in visited {
      ChainStep(steps, cur, visited);
      var next := NextText(StepMap(steps)[cur]);
      ChainDistinct(steps, next, visited + {cur});
      DistinctCons(cur, Chain(steps, next, visited + {cur}));
    }
  }

  /** Each name after the first is the trimmed `next_name` of the step before it. */
  predicate FollowsNext(steps: seq<UiStep>, c: seq<string>)
    decreases |c|
  {
    |c| <= 1 || (c[0] in StepMap(steps) && c[1] == NextText(StepMap(steps)[c[0]]) && FollowsNext(steps, c[1..]))
  }

  /** The chain follows `next_name` links. */
  lemma {:induction false} ChainFollowsNext(steps: seq<UiStep>, cur: string, visited: set<string>)
    requires visited <= Names(steps)
    ensures FollowsNext(steps, Chain(steps, cur, visited))
    decreases |Names(steps) - visited|
  {
    if cur != [] && cur in Names(steps) && cur !in visited {
      ChainStep(steps, cur, visited);
      var next := NextText(StepMap(steps)[cur]);
      ChainFollowsNext(steps, next, visited + {cur});
      assert ([cur] + Chain(steps, next, visited + {cur}))[1..] == Chain(steps, next, visited + {cur});
    }
  }

  /** The elements of a sequence of names, as a set. */
  function SetOf(c: seq<string>): set<string> {
    if c == [] then {} else SetOf(c[..|c| - 1]) + {c[|c| - 1]}
  }

  lemma SetOfSnoc(c: seq<string>, x: string)
    ensures SetOf(c + [x]) == SetOf(c) + {x}
  {
    assert (c + [x])[..|c|] == c;
  }

  /** The steps of the names in `c`, looked up by name. */
  function StepsOf(steps: seq<UiStep>, c: seq<string>): (r: seq<UiStep>)
    requires forall i :: 0 <= i < |c| ==> c[i] in Names(steps)
    ensures |r| == |c|
  {
    if c == [] then [] else StepsOf(steps, c[..|c| - 1]) + [StepMap(steps)[c[|c| - 1]]]
  }

  lemma StepsOfSnoc(steps: seq<UiStep>, c: seq<string>, x: string)
    requires forall i :: 0 <= i < |c| ==> c[i] in Names(steps)
    requires x in Names(steps)
    ensures StepsOf(steps, c + [x]) == StepsOf(steps, c) + [StepMap(steps)[x]]
  {
    assert (c + [x])[..|c|] == c;
  }

  /** The steps of `xs` whose name is not in `vis`, in order. */
  function Orphans(xs: seq<UiStep>, vis: set<string>): (r: seq<UiStep>)
    ensures forall s :: s in r <==> s in xs && s.name !in vis
  {
    if xs == [] then []
    else
      var init := Orphans(xs[..|xs| - 1], vis);
      var last := xs[|xs| - 1];
      assert xs == xs[..|xs| - 1] + [last];
      if last.name in vis then init else init + [last]
  }

  /** Every step's name is one of the catalogue's names. */
  lemma {:induction false} NamesHas(steps: seq<UiStep>, k: nat)
    requires k < |steps|
    ensures steps[k].name in Names(steps)
    decreases |steps|
  {
    if k < |steps| - 1 {
      assert steps[..|steps| - 1][k] == steps[k];
      NamesHas(steps[..|steps| - 1], k);
    }
  }

  /** Looking the names of `c` up finds steps with those names. */
  lemma {:induction false} StepsOfNames(steps: seq<UiStep>, c: seq<string>)
    requires forall i :: 0 <= i < |c| ==> c[i] in Names(steps)
    ensures forall i :: 0 <= i < |c| ==> StepsOf(steps, c)[i] == StepMap(steps)[c[i]] && StepsOf(steps, c)[i].name == c[i]
    decreases |c|
  {
    if c != [] {
      var init := c[..|c| - 1];
      StepsOfNames(steps, init);
      forall i | 0 <= i < |c|
        ensures StepsOf(steps, c)[i] == StepMap(steps)[c[i]] && StepsOf(steps, c)[i].name == c[i]
      {
        if i < |c| - 1 {
          assert StepsOf(steps, c)[i] == StepsOf(steps, init)[i];
          assert init[i] == c[i];
        }
      }
    }
  }

  /** `SetOf` holds exactly the elements of the sequence. */
  lemma {:induction false} SetOfHas(c: seq<string>)
    ensures forall x :: x in SetOf(c) <==> x in c
    decreases |c|
  {
    if c != [] {
      var init := c[..|c| - 1];
      SetOfHas(init);
      assert c == init + [c[|c| - 1]];
    }
  }

  /** A sequence without repeats has as many distinct elements as it has entries. */
  lemma {:induction false} SetOfDistinct(c: seq<string>)
    requires Distinct(c)
    ensures |SetOf(c)| == |c|
    decreases |c|
  {
    if c != [] {
      var init := c[..|c| - 1];
      var x := c[|c| - 1];
      assert Distinct(init);
      SetOfDistinct(init);
      SetOfHas(init);
    }
  }

  /** A name of the catalogue is the name of one of its steps. */
  lemma {:induction false} NamesWitness(steps: seq<UiStep>, n: string)
    requires n in Names(steps)
    ensures exists k :: 0 <= k < |steps| && steps[k].name == n
    decreases |steps|
  {
    var init := steps[..|steps| - 1];
    if n != steps[|steps| - 1].name {
      NamesWitness(init, n);
      var k :| 0 <= k < |init| && init[k].name == n;
      assert steps[k] == init[k];
    }
  }

  /** The number of steps of `xs` whose name is in `vis`. */
  function KeptCount(xs: seq<UiStep>, vis: set<string>): nat {
    if xs == [] then 0
    else KeptCount(xs[..|xs| - 1], vis) + (if xs[|xs| - 1].name in vis then 1 else 0)
  }

  /** Each step is either an orphan or kept. */
  lemma {:induction false} OrphansCount(xs: seq<UiStep>, vis: set<string>)
    ensures |Orphans(xs, vis)| + KeptCount(xs, vis) == |xs|
    decreases |xs|
  {
    if xs != [] {
      OrphansCount(xs[..|xs| - 1], vis);
    }
  }

  /** With unique names, the kept steps are as many as the names of `vis` in the catalogue. */
  lemma {:induction false} KeptCountUnique(xs: seq<UiStep>, vis: set<string>)
    requires UniqueNames(xs)
    ensures KeptCount(xs, vis) == |vis * Names(xs)|
    decreases |xs|
  {
    if xs != [] {
      var init := xs[..|xs| - 1];
      var last := xs[|xs| - 1];
      assert UniqueNames(init);
      KeptCountUnique(init, vis);
      if last.name in Names(init) {
        NamesWitness(init, last.name);
        assert false;
      }
      if last.name in vis {
        assert vis * Names(xs) == (vis * Names(init)) + {last.name};
      } else {
        assert vis * Names(xs) == vis * Names(init);
      }
    }
  }

  /** The chain from the entry step. */
  function ChainOf(steps: seq<UiStep>): seq<string> {
    Chain(steps, EntryName(steps), {})
  }

  /** The steps in the order they are laid out: the chain, then the steps it misses. */
  function Placement(steps: seq<UiStep>): seq<UiStep> {
    StepsOf(steps, ChainOf(steps)) + Orphans(steps, SetOf(ChainOf(steps)))
  }

  /** Every placed step carries one of the catalogue's names. */
  lemma PlacedNamesKnown(steps: seq<UiStep>)
    ensures forall i :: 0 <= i < |Placement(steps)| ==> Placement(steps)[i].name in Names(steps)
  {
    var c := ChainOf(steps);
    var p := Placement(steps);
    var head := StepsOf(steps, c);
    var tail := Orphans(steps, SetOf(c));
    StepsOfNames(steps, c);
    forall i | 0 <= i < |p|
      ensures p[i].name in Names(steps)
    {
      if i < |head| {
        assert p[i] == head[i];
      } else {
        assert p[i] == tail[i - |head|] && tail[i - |head|] in tail;
        var k :| 0 <= k < |steps| && steps[k] == p[i];
        NamesHas(steps, k);
      }
    }
  }

  lemma LastPlacedKnown(steps: seq<UiStep>)
    ensures LastName(Placement(steps)).Some? ==> LastName(Placement(steps)).value in StepMap(steps)
  {
    PlacedNamesKnown(steps);
  }

  /** The chain's names are names of the catalogue. */
  lemma ChainKnown(steps: seq<UiStep>)
    ensures SetOf(ChainOf(steps)) <= Names(steps)
  {
    SetOfHas(ChainOf(steps));
  }

  /** With unique names, a step found under its name is the catalogue's step of that name. */
  lemma LookupIsStep(steps: seq<UiStep>, n: string)
    requires UniqueNames(steps) && n in Names(steps)
    ensures exists k :: 0 <= k < |steps| && steps[k] == StepMap(steps)[n]
  {
    NamesWitness(steps, n);
    var k :| 0 <= k < |steps| && steps[k].name == n;
    StepMapUnique(steps, k);
  }

  /** Dropping steps keeps the names unique. */
  lemma {:induction false} OrphansUnique(xs: seq<UiStep>, vis: set<string>)
    requires UniqueNames(xs)
    ensures UniqueNames(Orphans(xs, vis))
    decreases |xs|
  {
    if xs != [] {
      var init := xs[..|xs| - 1];
      var last := xs[|xs| - 1];
      assert UniqueNames(init);
      OrphansUnique(init, vis);
      var o := Orphans(init, vis);
      if last.name !in vis {
        forall i | 0 <= i < |o|
          ensures o[i].name != last.name
        {
          assert o[i] in o;
          var k :| 0 <= k < |init| && init[k] == o[i];
          assert xs[k] == init[k];
        }
      }
    }
  }

  /** With unique names, no two placed steps share a name. */
  lemma PlacedNamesDistinct(steps: seq<UiStep>)
    requires UniqueNames(steps)
    ensures UniqueNames(Placement(steps))
  {
    var c := ChainOf(steps);
    var vis := SetOf(c);
    var head := StepsOf(steps, c);
    var tail := Orphans(steps, vis);
    var p := Placement(steps);
    ChainDistinct(steps, EntryName(steps), {});
    StepsOfNames(steps, c);
    SetOfHas(c);
    OrphansUnique(steps, vis);
    forall i, j | 0 <= i < j < |p|
      ensures p[i].name != p[j].name
    {
      if j < |head| {
        assert p[i] == head[i] && p[j] == head[j];
      } else if i >= |head| {
        assert p[i] == tail[i - |head|] && p[j] == tail[j - |head|];
      } else {
        assert p[i] == head[i] && p[i].name == c[i] && c[i] in c;
        assert p[j] == tail[j - |head|] && tail[j - |head|] in tail;
      }
    }
  }

  /** With unique names, only catalogue steps are placed. */
  lemma PlacedAreSteps(steps: seq<UiStep>)
    requires UniqueNames(steps)
    ensures forall x :: x in Placement(steps) ==> x in steps
  {
    var c := ChainOf(steps);
    var head := StepsOf(steps, c);
    var tail := Orphans(steps, SetOf(c));
    var p := Placement(steps);
    StepsOfNames(steps, c);
    forall x | x in p
      ensures x in steps
    {
      var i :| 0 <= i < |p| && p[i] == x;
      if i < |head| {
        assert p[i] == head[i] == StepMap(steps)[c[i]];
        LookupIsStep(steps, c[i]);
      } else {
        assert tail[i - |head|] in tail;
      }
    }
  }

  /** With unique names, every catalogue step is placed. */
  lemma StepsArePlaced(steps: seq<UiStep>)
    requires UniqueNames(steps)
    ensures forall x :: x in steps ==> x in Placement(steps)
  {
    var c := ChainOf(steps);
    var vis := SetOf(c);
    var head := StepsOf(steps, c);
    var p := Placement(steps);
    SetOfHas(c);
    StepsOfNames(steps, c);
    forall x | x in steps
      ensures x in p
    {
      if x.name in vis {
        var i :| 0 <= i < |c| && c[i] == x.name;
        var k :| 0 <= k < |steps| && steps[k] == x;
        StepMapUnique(steps, k);
        assert p[i] == head[i] == StepMap(steps)[c[i]];
      } else {
        assert x in Orphans(steps, vis);
      }
    }
  }

  /**
   * With unique names every step gets exactly one ask node: the placed steps
   * are the catalogue's steps, no name is placed twice, and none is missing.
   */
  lemma PlacementUnique(steps: seq<UiStep>)
    requires UniqueNames(steps)
    ensures UniqueNames(Placement(steps)) && |Placement(steps)| == |steps|
    ensures forall s :: s in steps <==> s in Placement(steps)
  {
    PlacedNamesDistinct(steps);
    PlacedAreSteps(steps);
    StepsArePlaced(steps);
    PlacementCount(steps);
  }

  /** With unique names, every step is placed. */
  lemma PlacementCount(steps: seq<UiStep>)
    requires UniqueNames(steps)
    ensures |Placement(steps)| == |steps|
  {
    var c := ChainOf(steps);
    var vis := SetOf(c);
    ChainDistinct(steps, EntryName(steps), {});
    SetOfDistinct(c);
    ChainKnown(steps);
    OrphansCount(steps, vis);
    KeptCountUnique(steps, vis);
    assert vis * Names(steps) == vis;
  }

  // -------------------------------------------------------------- layout

  /** An ask node is active when the session is at its step and completed when its step is done. */
  function AskNodeOf(s: UiStep, st: Option<UiState>): (n: VNode)
    ensures n.AskNode? && NodeId(n) == AskId(s.name)
    ensures n.active <==> st.Some? && st.value.currentStep == s.name
    ensures n.completed <==> st.Some? && s.name in st.value.completedSteps
  {
    AskNode(s.name,
            st.Some? && st.value.currentStep == s.name,
            st.Some? && s.name in st.value.completedSteps,
            if st.Some? && s.inputKey in st.value.collected then st.value.collected[s.inputKey] else "")
  }

  function AskNodes(p: seq<UiStep>, st: Option<UiState>): (r: seq<VNode>)
    ensures |r| == |p|
  {
    seq(|p|, i requires 0 <= i < |p| => AskNodeOf(p[i], st))
  }

  /** The edges into the placed ask nodes: the first from START, each later one from the one before. */
  function Links(p: seq<UiStep>): (r: seq<VEdge>)
    ensures |r| == |p|
  {
    seq(|p|, i requires 0 <= i < |p| => VEdge(if i == 0 then "start" else AskId(p[i - 1].name), AskId(p[i].name)))
  }

  /**
   * The edge into END: from the last placed step (looked up again by name),
   * or from the catalogue's last step when the last placed name is blank;
   * none for an empty catalogue.
   */
  function EndEdge(steps: seq<UiStep>, p: seq<UiStep>): seq<VEdge> {
    if p != [] && p[|p| - 1].name != [] then [VEdge(AskId(p[|p| - 1].name), "end")]
    else if steps != [] then [VEdge(AskId(steps[|steps| - 1].name), "end")]
    else []
  }

  /** END shows as completed when the session's step or status says so. */
  predicate EndDone(st: Option<UiState>) {
    st.Some? && (st.value.currentStep == "completed" || st.value.sessionCompleted)
  }

  function LayoutNodes(steps: seq<UiStep>, st: Option<UiState>): seq<VNode> {
    [StartNode] + AskNodes(Placement(steps), st) + [EndNode(EndDone(st))]
  }

  function LayoutEdges(steps: seq<UiStep>): seq<VEdge> {
    Links(Placement(steps)) + EndEdge(steps, Placement(steps))
  }

  lemma AskNodesSnoc(p: seq<UiStep>, s: UiStep, st: Option<UiState>)
    ensures AskNodes(p + [s], st) == AskNodes(p, st) + [AskNodeOf(s, st)]
  {
    assert forall i :: 0 <= i < |p| ==> (p + [s])[i] == p[i];
  }

  lemma LinksSnoc(p: seq<UiStep>, s: UiStep)
    ensures Links(p + [s]) == Links(p) + [VEdge(if p == [] then "start" else AskId(p[|p| - 1].name), AskId(s.name))]
  {
    var l := Links(p + [s]);
    var r := Links(p) + [VEdge(if p == [] then "start" else AskId(p[|p| - 1].name), AskId(s.name))];
    assert |l| == |r|;
    forall i | 0 <= i < |l|
      ensures l[i] == r[i]
    {
      if i < |p| {
        assert (p + [s])[i] == p[i];
        if i > 0 {
          assert (p + [s])[i - 1] == p[i - 1];
        }
      }
    }
  }

  /** The name of the last placed step, if any. */
  function LastName(p: seq<UiStep>): Option<string> {
    if p == [] then None else Some(p[|p| - 1].name)
  }

  /** The id of the last placed ask node, if any. */
  function LastAskId(p: seq<UiStep>): Option<string> {
    if p == [] then None else Some(AskId(p[|p| - 1].name))
  }

  /** Some step is placed exactly when the catalogue is not empty. */
  lemma PlacementNonEmpty(steps: seq<UiStep>)
    ensures Placement(steps) != [] <==> steps != []
  {
    var c := ChainOf(steps);
    if steps == [] {
      assert Names(steps) == {};
    } else if c == [] {
      assert steps[0] in Orphans(steps, SetOf(c));
    }
  }

  /** With unique names there are n + 2 nodes, and n + 1 edges unless the catalogue is empty. */
  lemma LayoutCounts(steps: seq<UiStep>, st: Option<UiState>)
    requires UniqueNames(steps)
    ensures |LayoutNodes(steps, st)| == |steps| + 2
    ensures steps != [] ==> |LayoutEdges(steps)| == |steps| + 1
    ensures steps == [] ==> LayoutEdges(steps) == []
  {
    PlacementCount(steps);
    PlacementNonEmpty(steps);
  }

  /** The id of node i of the picture: START, then the placed steps' ask nodes, then END. */
  lemma NodeIdAt(p: seq<UiStep>, st: Option<UiState>, done: bool, i: nat)
    requires i < |p| + 2
    ensures NodeId(([StartNode] + AskNodes(p, st) + [EndNode(done)])[i])
            == if i == 0 then "start" else if i <= |p| then AskId(p[i - 1].name) else "end"
  {
    var nodes := [StartNode] + AskNodes(p, st) + [EndNode(done)];
    if 0 < i <= |p| {
      assert nodes[i] == AskNodes(p, st)[i - 1];
    }
  }

  /** Edge i leaves node i and enters node i + 1: the nodes form one path. */
  predicate IsPath(nodes: seq<VNode>, edges: seq<VEdge>) {
    |edges| + 1 == |nodes|
    && forall i {:trigger edges[i]} :: 0 <= i < |edges| ==>
         edges[i].source == NodeId(nodes[i]) && edges[i].target == NodeId(nodes[i + 1])
  }

  /** Edge i of the placed steps' links, followed by the edge into END, joins node i to node i + 1. */
  lemma EdgeJoins(p: seq<UiStep>, st: Option<UiState>, done: bool, i: nat)
    requires p != [] && i <= |p|
    ensures var e := (Links(p) + [VEdge(AskId(p[|p| - 1].name), "end")])[i];
            e.source == NodeId(([StartNode] + AskNodes(p, st) + [EndNode(done)])[i])
            && e.target == NodeId(([StartNode] + AskNodes(p, st) + [EndNode(done)])[i + 1])
  {
    NodeIdAt(p, st, done, i);
    NodeIdAt(p, st, done, i + 1);
    if i < |p| {
      assert (Links(p) + [VEdge(AskId(p[|p| - 1].name), "end")])[i] == Links(p)[i];
    }
  }

  /** Linking placed steps from START, one after another, and the last into END gives a path. */
  lemma LinksArePath(p: seq<UiStep>, st: Option<UiState>, done: bool)
    requires p != []
    ensures IsPath([StartNode] + AskNodes(p, st) + [EndNode(done)], Links(p) + [VEdge(AskId(p[|p| - 1].name), "end")])
  {
    var nodes := [StartNode] + AskNodes(p, st) + [EndNode(done)];
    var edges := Links(p) + [VEdge(AskId(p[|p| - 1].name), "end")];
    forall i | 0 <= i < |edges|
      ensures edges[i].source == NodeId(nodes[i]) && edges[i].target == NodeId(nodes[i + 1])
    {
      EdgeJoins(p, st, done, i);
    }
  }

  /**
   * When every step has a name, the edges chain the nodes into one path:
   * edge i leaves node i and enters node i + 1, from START to END.
   */
  lemma LayoutIsPath(steps: seq<UiStep>, st: Option<UiState>)
    requires steps != []
    requires forall k :: 0 <= k < |steps| ==> steps[k].name != []
    ensures IsPath(LayoutNodes(steps, st), LayoutEdges(steps))
  {
    var p := Placement(steps);
    PlacementNonEmpty(steps);
    LastPlacedNamed(steps);
    assert EndEdge(steps, p) == [VEdge(AskId(p[|p| - 1].name), "end")];
    LinksArePath(p, st, EndDone(st));
  }

  lemma LastPlacedNamed(steps: seq<UiStep>)
    requires Placement(steps) != []
    requires forall k :: 0 <= k < |steps| ==> steps[k].name != []
    ensures Placement(steps)[|Placement(steps)| - 1].name != []
  {
    var p := Placement(steps);
    PlacedNamesKnown(steps);
    NamesWitness(steps, p[|p| - 1].name);
  }

  /** END is drawn completed exactly when the session's step or status says `completed`. */
  lemma EndNodeStatus(steps: seq<UiStep>, st: Option<UiState>)
    ensures var nodes := LayoutNodes(steps, st);
            nodes[|nodes| - 1].EndNode?
            && (nodes[|nodes| - 1].completed <==>
                st.Some? && (st.value.currentStep == "completed" || st.value.sessionCompleted))
  {
  }

  /**
   * `generateFlowVisualization`: the START node, then the ask nodes along the
   * chain from the entry step, then those of the steps the chain missed, then
   * END, with the edges between consecutive nodes.
   */
  method GenerateFlowVisualization(steps: seq<UiStep>, st: Option<UiState>) returns (nodes: seq<VNode>, edges: seq<VEdge>)
    ensures nodes == LayoutNodes(steps, st)
    ensures edges == LayoutEdges(steps)
  {
    var stepMap := StepMap(steps);
    var pointed := PointedSet(steps);
    var entryName := ChooseEntry(steps, pointed);
    ghost var placed;
    var visited, prevAskId, lastVisited;
    nodes, edges, visited, prevAskId, lastVisited, placed := WalkChain(steps, st, stepMap, entryName);
    nodes, edges, prevAskId, lastVisited, placed := PlaceOrphans(steps, st, visited, placed, nodes, edges, prevAskId, lastVisited);

    assert entryName == EntryName(steps);
    assert placed == Placement(steps);
    LastPlacedKnown(steps);

    // END and the edge into it
    nodes := nodes + [EndNode(EndDone(st))];
    var lastStep: Option<UiStep> :=
      if lastVisited.Some? && lastVisited.value != [] then Some(stepMap[lastVisited.value])
      else if |steps| > 0 then Some(steps[|steps| - 1])
      else None;
    if lastStep.Some? {
      edges := edges + [VEdge(AskId(lastStep.value.name), "end")];
    }
  }

  /** The entry step: the first name nobody points to, else the first step's name. */
  method ChooseEntry(steps: seq<UiStep>, pointed: set<string>) returns (entryName: string)
    ensures entryName == EntryFrom(steps, pointed)
  {
    entryName := if |steps| > 0 then steps[0].name else [];
    var i := 0;
    var found := false;
    while i < |steps| && !found
      invariant 0 <= i <= |steps|
      invariant !found ==> forall j :: 0 <= j < i ==> steps[j].name in pointed
      invariant !found ==> entryName == (if |steps| > 0 then steps[0].name else [])
      invariant found ==> 0 < i && FirstUnpointed(steps, pointed, 0) == Some(i - 1) && entryName == steps[i - 1].name
    {
      if steps[i].name !in pointed {
        entryName := steps[i].name;
        found := true;
        FirstUnpointedSkips(steps, pointed, 0, i);
      }
      i := i + 1;
    }
    if !found && |steps| > 0 {
      FirstUnpointedNone(steps, pointed);
    }
  }

  /** The generator's locals describe the steps `p` laid out so far. */
  ghost predicate Laid(p: seq<UiStep>, st: Option<UiState>, nodes: seq<VNode>, edges: seq<VEdge>,
                       prevAskId: Option<string>, lastVisited: Option<string>) {
    nodes == [StartNode] + AskNodes(p, st) && edges == Links(p)
    && prevAskId == LastAskId(p) && lastVisited == LastName(p)
  }

  /** Lays out one more step: its ask node, and the edge into it from START or from the node placed before it. */
  method PlaceStep(s: UiStep, st: Option<UiState>, ghost placed: seq<UiStep>,
                   nodes0: seq<VNode>, edges0: seq<VEdge>, prev0: Option<string>, last0: Option<string>)
    returns (nodes: seq<VNode>, edges: seq<VEdge>, prevAskId: Option<string>, lastVisited: Option<string>)
    requires Laid(placed, st, nodes0, edges0, prev0, last0)
    ensures Laid(placed + [s], st, nodes, edges, prevAskId, lastVisited)
  {
    AskNodesSnoc(placed, s, st);
    LinksSnoc(placed, s);
    var askNodeId := AskId(s.name);
    nodes := nodes0 + [AskNodeOf(s, st)];
    if prev0.None? {
      edges := edges0 + [VEdge("start", askNodeId)];
    } else {
      edges := edges0 + [VEdge(prev0.value, askNodeId)];
    }
    prevAskId := Some(askNodeId);
    lastVisited := Some(s.name);
  }

  /** The walk from `entry` has met the names `done`, has `visited` exactly those, and stands at `cur`. */
  ghost predicate Walked(steps: seq<UiStep>, entry: string, done: seq<string>, visited: set<string>, cur: string) {
    visited <= Names(steps)
    && Chain(steps, entry, {}) == done + Chain(steps, cur, visited)
    && visited == SetOf(done)
    && forall i :: 0 <= i < |done| ==> done[i] in Names(steps)
  }

  /** One more step of the walk keeps it on the chain. */
  lemma WalkStep(steps: seq<UiStep>, entry: string, done: seq<string>, visited: set<string>, cur: string)
    requires Walked(steps, entry, done, visited, cur)
    requires cur != [] && cur in Names(steps) && cur !in visited
    ensures Walked(steps, entry, done + [cur], visited + {cur}, NextText(StepMap(steps)[cur]))
    ensures StepsOf(steps, done + [cur]) == StepsOf(steps, done) + [StepMap(steps)[cur]]
    ensures |Names(steps) - (visited + {cur})| < |Names(steps) - visited|
  {
    ChainStep(steps, cur, visited);
    SnocCons(done, cur, Chain(steps, NextText(StepMap(steps)[cur]), visited + {cur}));
    StepsOfSnoc(steps, done, cur);
    SetOfSnoc(done, cur);
  }

  /** When the walk stops, it has met the whole chain. */
  lemma WalkEnd(steps: seq<UiStep>, entry: string, done: seq<string>, visited: set<string>, cur: string)
    requires Walked(steps, entry, done, visited, cur)
    requires !(cur != [] && cur in Names(steps) && cur !in visited)
    ensures done == Chain(steps, entry, {})
  {
  }

  /** The walk's state and the layout so far: the steps met, in order, are the steps laid out. */
  ghost predicate Walking(steps: seq<UiStep>, st: Option<UiState>, entry: string, done: seq<string>,
                          visited: set<string>, cur: string, placed: seq<UiStep>,
                          nodes: seq<VNode>, edges: seq<VEdge>, prevAskId: Option<string>, lastVisited: Option<string>) {
    Walked(steps, entry, done, visited, cur) && placed == StepsOf(steps, done)
    && Laid(placed, st, nodes, edges, prevAskId, lastVisited)
  }

  /** Before the walk nothing is met and only START is drawn. */
  lemma WalkStart(steps: seq<UiStep>, st: Option<UiState>, entry: string)
    ensures Walking(steps, st, entry, [], {}, entry, [], [StartNode], [], None, None)
  {
    assert AskNodes([], st) == [] && Links([]) == [];
  }

  /** Laying out the step at `cur` keeps the walk and the layout in step. */
  lemma WalkOn(steps: seq<UiStep>, st: Option<UiState>, entry: string, done: seq<string>,
               visited: set<string>, cur: string, placed: seq<UiStep>,
               nodes: seq<VNode>, edges: seq<VEdge>, prevAskId: Option<string>, lastVisited: Option<string>)
    requires Walked(steps, entry, done, visited, cur) && placed == StepsOf(steps, done)
    requires cur != [] && cur in Names(steps) && cur !in visited
    requires Laid(placed + [StepMap(steps)[cur]], st, nodes, edges, prevAskId, lastVisited)
    ensures Walking(steps, st, entry, done + [cur], visited + {cur}, NextText(StepMap(steps)[cur]),
                    placed + [StepMap(steps)[cur]], nodes, edges, prevAskId, lastVisited)
    ensures |Names(steps) - (visited + {cur})| < |Names(steps) - visited|
  {
    WalkStep(steps, entry, done, visited, cur);
  }

  /** The walk along `next_name` from the entry: one ask node and one edge per step met. */
  method WalkChain(steps: seq<UiStep>, st: Option<UiState>, stepMap: map<string, UiStep>, entryName: string)
    returns (nodes: seq<VNode>, edges: seq<VEdge>, visited: set<string>,
             prevAskId: Option<string>, lastVisited: Option<string>, ghost placed: seq<UiStep>)
    requires stepMap == StepMap(steps)
    ensures visited == SetOf(Chain(steps, entryName, {}))
    ensures placed == StepsOf(steps, Chain(steps, entryName, {}))
    ensures Laid(placed, st, nodes, edges, prevAskId, lastVisited)
  {
    var allNames := Names(steps);
    nodes, edges, visited, prevAskId, lastVisited := [StartNode], [], {}, None, None;
    ghost var done: seq<string> := [];
    placed := [];
    var currentName := entryName;
    WalkStart(steps, st, entryName);
    while currentName != [] && currentName in allNames && currentName !in visited
      invariant Walking(steps, st, entryName, done, visited, currentName, placed, nodes, edges, prevAskId, lastVisited)
      decreases |allNames - visited|
    {
      var step := stepMap[currentName];
      nodes, edges, prevAskId, lastVisited := PlaceStep(step, st, placed, nodes, edges, prevAskId, lastVisited);
      WalkOn(steps, st, entryName, done, visited, currentName, placed, nodes, edges, prevAskId, lastVisited);
      visited := visited + {currentName};
      done := done + [currentName];
      placed := placed + [step];
      currentName := NextText(step);
    }
    WalkEnd(steps, entryName, done, visited, currentName);
  }

  /**
   * The steps of `steps` whose name is not in `visited`, in catalogue order,
   * each laid out after those already placed and linked from the node placed before it.
   */
  method PlaceOrphans(steps: seq<UiStep>, st: Option<UiState>, visited: set<string>, ghost placed0: seq<UiStep>,
                      nodes0: seq<VNode>, edges0: seq<VEdge>, prev0: Option<string>, last0: Option<string>)
    returns (nodes: seq<VNode>, edges: seq<VEdge>, prevAskId: Option<string>, lastVisited: Option<string>,
             ghost placed: seq<UiStep>)
    requires Laid(placed0, st, nodes0, edges0, prev0, last0)
    ensures placed == placed0 + Orphans(steps, visited)
    ensures Laid(placed, st, nodes, edges, prevAskId, lastVisited)
  {
    nodes, edges, prevAskId, lastVisited := nodes0, edges0, prev0, last0;
    placed := placed0;
    for k := 0 to |steps|
      invariant placed == placed0 + Orphans(steps[..k], visited)
      invariant Laid(placed, st, nodes, edges, prevAskId, lastVisited)
    {
      var s := steps[k];
      assert steps[..k + 1][..k] == steps[..k];
      if s.name !in visited {
        nodes, edges, prevAskId, lastVisited := PlaceStep(s, st, placed, nodes, edges, prevAskId, lastVisited);
        placed := placed + [s];
      }
    }
    assert steps[..|steps|] == steps;
  }

  lemma FirstUnpointedSkips(steps: seq<UiStep>, pointed: set<string>, from: nat, i: nat)
    requires from <= i < |steps|
    requires forall j :: from <= j < i ==> steps[j].name in pointed
    requires steps[i].name !in pointed
    ensures FirstUnpointed(steps, pointed, from) == Some(i)
    decreases i - from
  {
    if from < i {
      FirstUnpointedSkips(steps, pointed, from + 1, i);
    }
  }

  lemma FirstUnpointedNone(steps: seq<UiStep>, pointed: set<string>)
    requires forall j :: 0 <= j < |steps| ==> steps[j].name in pointed
    ensures FirstUnpointed(steps, pointed, 0) == None
  {
    var r := FirstUnpointed(steps, pointed, 0);
    if r.Some? {
      assert false;
    }
  }

  // ----------------------------------------------------------------- slug

  predicate IsSlugChar(c: char) { IsLower(c) || IsDigit(c) }
  predicate NotSlugChar(c: char) { !IsSlugChar(c) }
  predicate IsUnderscore(c: char) { c == '_' }

  /** Only `[a-z0-9_]`. */
  predicate SlugText(r: string) {
    forall i :: 0 <= i < |r| ==> IsSlugChar(r[i]) || r[i] == '_'
  }

  /** No `__`. */
  predicate NoDoubleUnderscore(r: string) {
    forall i :: 0 <= i < |r| - 1 ==> r[i] != '_' || r[i + 1] != '_'
  }

  /** `.replace(/[^a-z0-9]+/g, '_')`: each maximal run of other characters becomes one `_`. */
  function CollapseRuns(s: string): (r: string)
    ensures SlugText(r) && NoDoubleUnderscore(r)
    ensures r != [] ==> s != [] && (r[0] == '_' <==> !IsSlugChar(s[0]))
    decreases |s|
  {
    if s == [] then []
    else if IsSlugChar(s[0]) then [s[0]] + CollapseRuns(s[1..])
    else "_" + CollapseRuns(s[LeadCount(s, NotSlugChar)..])
  }

  /** A stretch of slug text is slug text. */
  lemma SlugSlice(r: string, a: nat, m: nat)
    requires a + m <= |r| && SlugText(r) && NoDoubleUnderscore(r)
    ensures SlugText(r[a..a + m]) && NoDoubleUnderscore(r[a..a + m])
  {
    var t := r[a..a + m];
    forall i | 0 <= i < |t| - 1
      ensures t[i] != '_' || t[i + 1] != '_'
    {
      assert t[i] == r[a + i] && t[i + 1] == r[a + i + 1];
    }
    forall i | 0 <= i < |t|
      ensures IsSlugChar(t[i]) || t[i] == '_'
    {
      assert t[i] == r[a + i];
    }
  }

  /** `.replace(/^_+|_+$/g, '')` */
  function TrimUnderscores(c: string): (t: string)
    requires SlugText(c) && NoDoubleUnderscore(c)
    ensures SlugText(t) && NoDoubleUnderscore(t)
    ensures t == [] || (t[0] != '_' && t[|t| - 1] != '_')
  {
    var t := StripBy(c, IsUnderscore);
    SlugSlice(c, LeadCount(c, IsUnderscore), |t|);
    t
  }

  const FallbackSlug: string := "step"

  lemma FallbackSlugOk()
    ensures FallbackSlug != [] && SlugText(FallbackSlug) && NoDoubleUnderscore(FallbackSlug)
    ensures FallbackSlug[0] != '_' && FallbackSlug[|FallbackSlug| - 1] != '_'
  {
    var f := FallbackSlug;
    assert |f| == 4 && f[0] == 's' && f[1] == 't' && f[2] == 'e' && f[3] == 'p';
  }

  /**
   * `slugify`: lower-case, trim, turn runs of anything but `[a-z0-9]` into
   * `_`, drop `_` at the ends, and use `step` when nothing is left.
   */
  function Slugify(s: string): (r: string)
    ensures r != [] && SlugText(r) && NoDoubleUnderscore(r)
    ensures r[0] != '_' && r[|r| - 1] != '_'
  {
    var t := TrimUnderscores(CollapseRuns(JsTrim(Lower(s))));
    if t == [] then FallbackSlugOk(); FallbackSlug else t
  }

  /** `CollapseRuns` leaves slug text alone. */
  lemma {:induction false} CollapseRunsFixed(r: string)
    requires SlugText(r) && NoDoubleUnderscore(r)
    ensures CollapseRuns(r) == r
    decreases |r|
  {
    if r != [] {
      assert SlugText(r[1..]) && NoDoubleUnderscore(r[1..]) by {
        SlugSlice(r, 1, |r| - 1);
        assert r[1..1 + (|r| - 1)] == r[1..];
      }
      CollapseRunsFixed(r[1..]);
      if !IsSlugChar(r[0]) {
        assert LeadCount(r, NotSlugChar) == 1 by {
          if |r| > 1 {
            assert r[1] != '_' && IsSlugChar(r[1]);
            assert LeadCount(r[1..], NotSlugChar) == 0;
          }
        }
        assert r == "_" + r[1..];
      }
    }
  }

  /** A slug passes through every stage of `Slugify` unchanged. */
  lemma SlugStagesFixed(r: string)
    requires r != [] && SlugText(r) && NoDoubleUnderscore(r) && r[0] != '_' && r[|r| - 1] != '_'
    ensures TrimUnderscores(CollapseRuns(JsTrim(Lower(r)))) == r
  {
    assert Lower(r) == r by {
      forall i | 0 <= i < |r|
        ensures Lower(r)[i] == r[i]
      {
        assert !IsUpper(r[i]);
      }
    }
    StripByNoop(r, IsJsSpace);
    CollapseRunsFixed(r);
    StripByNoop(r, IsUnderscore);
  }

  /** Slugs are the fixed points of `Slugify`, so slugifying twice changes nothing. */
  lemma SlugifyIdempotent(s: string)
    ensures Slugify(Slugify(s)) == Slugify(s)
  {
    SlugStagesFixed(Slugify(s));
  }

  // ------------------------------------------------------------ handlers

  const EndOption: string := "__END__"
  const EditorSystemPrompt: string := "You are Michelle, an empathetic intake specialist."
  const EditorFlowName: string := "injury_intake_strict"

  /** What `insertStepAfter` is called with; `name` is always unset and `validate_regex` always null. */
  datatype InsertRequest = InsertRequest(insertAfter: string, askPrompt: string, inputKey: Option<string>,
                                         systemPrompt: string, flowName: string)

  /** What the insert form does: closes without a request, throws on an empty catalogue, or sends. */
  datatype InsertOutcome = Dismissed | NoSteps | Send(req: InsertRequest)

  /**
   * `steps.reduce((prev, current) => prev.order_index > current.order_index ? prev : current)`
   * over the first `n` steps, as an index.
   */
  function LastByOrder(steps: seq<UiStep>, n: nat): (k: nat)
    requires 0 < n <= |steps|
    ensures k < n
    ensures forall j :: 0 <= j < n ==> steps[j].orderIndex <= steps[k].orderIndex
    ensures forall j :: k < j < n ==> steps[j].orderIndex < steps[k].orderIndex
  {
    if n == 1 then 0
    else
      var prev := LastByOrder(steps, n - 1);
      if steps[prev].orderIndex > steps[n - 1].orderIndex then prev else n - 1
  }

  /**
   * `handleConfirmNewQuestion`: nothing for a blank prompt or an empty
   * position; `__END__` resolves to the step with the largest `order_index`
   * (the later one on ties); the input key is slugified only when not blank.
   */
  function ConfirmNewQuestion(steps: seq<UiStep>, prompt: string, insertAfter: string, inputKey: string): (r: InsertOutcome)
    ensures r.Dismissed? <==> JsTrim(prompt) == [] || insertAfter == []
    ensures r.NoSteps? <==> JsTrim(prompt) != [] && insertAfter == EndOption && steps == []
    ensures r.Send? ==> r.req.askPrompt == JsTrim(prompt) && r.req.askPrompt != []
    ensures r.Send? && insertAfter != EndOption ==> r.req.insertAfter == insertAfter
    ensures r.Send? && insertAfter == EndOption ==>
      steps != [] && r.req.insertAfter == steps[LastByOrder(steps, |steps|)].name
    ensures r.Send? ==> (r.req.inputKey.None? <==> JsTrim(inputKey) == [])
    ensures r.Send? && r.req.inputKey.Some? ==> r.req.inputKey.value == Slugify(inputKey)
    ensures r.Send? ==> r.req.systemPrompt == EditorSystemPrompt && r.req.flowName == EditorFlowName
  {
    if JsTrim(prompt) == [] || insertAfter == [] then Dismissed
    else if insertAfter == EndOption && steps == [] then NoSteps
    else
      var after := if insertAfter == EndOption then steps[LastByOrder(steps, |steps|)].name else insertAfter;
      var key := if JsTrim(inputKey) != [] then Some(Slugify(inputKey)) else None;
      Send(InsertRequest(after, JsTrim(prompt), key, EditorSystemPrompt, EditorFlowName))
  }

  /** What `updateStep` is called with. */
  datatype UpdateRequest = UpdateRequest(name: string, askPrompt: Option<string>, nextName: Option<string>, flowName: string)

  /**
   * `handleUpdateStep`: nothing without a selected step; a blank prompt is
   * left unset, and `__END__` or an empty choice clears `next_name`.
   */
  function UpdateStep(editStepName: string, editPrompt: string, editNextName: string): (r: Option<UpdateRequest>)
    ensures r.None? <==> editStepName == []
    ensures r.Some? ==> r.value.name == editStepName && r.value.flowName == EditorFlowName
    ensures r.Some? ==> (r.value.askPrompt.None? <==> JsTrim(editPrompt) == [])
    ensures r.Some? && r.value.askPrompt.Some? ==> r.value.askPrompt.value == JsTrim(editPrompt)
    ensures r.Some? ==> (r.value.nextName.None? <==> editNextName == EndOption || editNextName == [])
    ensures r.Some? && r.value.nextName.Some? ==> r.value.nextName.value == editNextName
  {
    if editStepName == [] then None
    else
      Some(UpdateRequest(editStepName,
                         if JsTrim(editPrompt) != [] then Some(JsTrim(editPrompt)) else None,
                         if editNextName == EndOption || editNextName == [] then None else Some(editNextName),
                         EditorFlowName))
  }
}
