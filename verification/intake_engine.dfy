/**
 * The strict intake engine: a flow of steps loaded from rows, compiled into
 * a graph of ask/store node pairs, and walked from the entry question on
 * every conversational turn. A thread's state lives in a checkpoint map;
 * answers go to an append-only log.
 */
module IntakeEngine {
  import opened Wrappers
  import opened Text
  import opened OrderedDict

  // ---------------------------------------------------------------- farewell

  /** `w` (lower case) occurs in the lower-cased text at `i` as a whole word. */
  predicate WordAt(lt: string, w: string, i: nat) {
    i + |w| <= |lt| && MatchAt(lt, w, i, 0) && Boundary(lt, i) && Boundary(lt, i + |w|)
  }

  /** One alternative of the farewell pattern matches at `i`. */
  predicate FarewellAt(lt: string, i: nat) {
    WordAt(lt, "bye", i) || WordAt(lt, "goodbye", i) || WordAt(lt, "thanks you", i)
    || WordAt(lt, "thanks", i) || WordAt(lt, "thank you", i) || WordAt(lt, "end", i)
    || WordAt(lt, "stop", i) || WordAt(lt, "finish", i) || WordAt(lt, "done", i)
    || WordAt(lt, "quit", i) || WordAt(lt, "exit", i)
  }

  /** The farewell pattern matches at some offset `>= i`. */
  predicate FarewellFrom(lt: string, i: nat)
    decreases |lt| - i
  {
    i <= |lt| && (FarewellAt(lt, i) || FarewellFrom(lt, i + 1))
  }

  /** `is_farewell`: the text is non-empty and a farewell word occurs in it, ignoring case. */
  predicate IsFarewell(txt: string) {
    txt != [] && FarewellFrom(Lower(txt), 0)
  }

  lemma {:induction false} FarewellFromIff(lt: string, i: nat)
    ensures FarewellFrom(lt, i) <==> exists j: nat :: i <= j <= |lt| && FarewellAt(lt, j)
    decreases |lt| - i
  {
    if i <= |lt| {
      FarewellFromIff(lt, i + 1);
      if FarewellFrom(lt, i + 1) {
        var j: nat :| i + 1 <= j <= |lt| && FarewellAt(lt, j);
        assert i <= j;
      }
    }
  }

  /** A farewell is recognised exactly when some farewell word occurs at some offset. */
  lemma IsFarewellIff(txt: string)
    ensures IsFarewell(txt) <==> txt != [] && exists j: nat :: j <= |txt| && FarewellAt(Lower(txt), j)
  {
    FarewellFromIff(Lower(txt), 0);
  }

  /** A matched word is a stretch of letters (possibly with one inner space). */
  lemma WordAtNotSpace(lt: string, w: string, i: nat, k: nat)
    requires WordAt(lt, w, i) && k < |w| && w[k] != ' '
    ensures lt[i + k] == w[k]
  {
    MatchAtIff(lt, w, i, 0);
    assert lt[i..i + |w|][k] == w[k];
  }

  /**
   * A farewell is never blank, so the session-end record always stores the
   * user's stripped words and never its "user_ended" default.
   */
  lemma FarewellNotBlank(txt: string)
    requires IsFarewell(txt)
    ensures Strip(txt) != []
  {
    IsFarewellIff(txt);
    var lt := Lower(txt);
    var j: nat :| j <= |txt| && FarewellAt(lt, j);
    FarewellStartsWord(lt, j);
    assert !IsPySpace(txt[j]);
    assert !IsBlank(txt);
    BlankIffStripEmpty(txt);
  }

  /** Every farewell word starts with a word character. */
  lemma FarewellStartsWord(lt: string, j: nat)
    requires FarewellAt(lt, j)
    ensures j < |lt| && IsWordChar(lt[j])
  {
    if WordAt(lt, "bye", j) { WordAtNotSpace(lt, "bye", j, 0); }
    else if WordAt(lt, "goodbye", j) { WordAtNotSpace(lt, "goodbye", j, 0); }
    else if WordAt(lt, "thanks you", j) { WordAtNotSpace(lt, "thanks you", j, 0); }
    else if WordAt(lt, "thanks", j) { WordAtNotSpace(lt, "thanks", j, 0); }
    else if WordAt(lt, "thank you", j) { WordAtNotSpace(lt, "thank you", j, 0); }
    else if WordAt(lt, "end", j) { WordAtNotSpace(lt, "end", j, 0); }
    else if WordAt(lt, "stop", j) { WordAtNotSpace(lt, "stop", j, 0); }
    else if WordAt(lt, "finish", j) { WordAtNotSpace(lt, "finish", j, 0); }
    else if WordAt(lt, "done", j) { WordAtNotSpace(lt, "done", j, 0); }
    else if WordAt(lt, "quit", j) { WordAtNotSpace(lt, "quit", j, 0); }
    else { WordAtNotSpace(lt, "exit", j, 0); }
  }

  lemma FarewellExample()
    ensures IsFarewell("Okay, bye!")
  {
    var lt := Lower("Okay, bye!");
    assert lt == "okay, bye!";
    assert WordAt(lt, "bye", 6);
    IsFarewellIff("Okay, bye!");
  }

  /** Farewell words count only as whole words: "weekend" holds "end" but is no farewell. */
  lemma WeekendNotFarewell()
    ensures !IsFarewell("weekend")
  {
    var lt := Lower("weekend");
    assert lt == "weekend";
    forall j: nat | j <= |lt|
      ensures !FarewellAt(lt, j)
    {
      if 0 < j < 7 {
        assert !Boundary(lt, j);
      } else if j == 0 {
        assert !MatchAt(lt, "goodbye", 0, 0);
      }
    }
    IsFarewellIff("weekend");
  }

  /** Farewell words count only as whole words: "ended" starts with "end" but is no farewell. */
  lemma EndedNotFarewell()
    ensures !IsFarewell("ended")
  {
    var lt := Lower("ended");
    assert lt == "ended";
    forall j: nat | j <= |lt|
      ensures !FarewellAt(lt, j)
    {
      if 0 < j < 5 {
        assert !Boundary(lt, j);
      } else if j == 0 {
        assert !Boundary(lt, 3);
      }
    }
    IsFarewellIff("ended");
  }

  // ------------------------------------------------------------- transcript

  datatype Role = Human | Assistant

  datatype Message = Message(role: Role, content: string)

  /** The contents of the human messages, oldest first. */
  function Humans(msgs: seq<Message>): (hs: seq<string>)
    ensures |hs| <= |msgs|
  {
    if msgs == [] then []
    else
      var last := msgs[|msgs| - 1];
      Humans(msgs[..|msgs| - 1]) + (if last.role == Human then [last.content] else [])
  }

  /** Appending assistant messages leaves the human turns as they were. */
  lemma {:induction false} HumansAfterAssistant(msgs: seq<Message>, more: seq<Message>)
    requires forall k :: 0 <= k < |more| ==> more[k].role == Assistant
    ensures Humans(msgs + more) == Humans(msgs)
    decreases |more|
  {
    if more != [] {
      var front := more[..|more| - 1];
      var all := msgs + more;
      assert all[..|all| - 1] == msgs + front;
      assert all[|all| - 1].role == Assistant;
      assert Humans(all) == Humans(msgs + front);
      HumansAfterAssistant(msgs, front);
    } else {
      assert msgs + more == msgs;
    }
  }

  lemma HumansAfterHuman(msgs: seq<Message>, text: string)
    ensures Humans(msgs + [Message(Human, text)]) == Humans(msgs) + [text]
  {
    assert (msgs + [Message(Human, text)])[..|msgs|] == msgs;
  }

  /** No assistant message follows index `i`. */
  predicate NoAssistantAfter(msgs: seq<Message>, i: int) {
    forall k :: i < k < |msgs| && 0 <= k ==> msgs[k].role != Assistant
  }

  /** The content of the most recent assistant message, "" when there is none. */
  function LastAssistant(msgs: seq<Message>): string
  {
    if msgs == [] then []
    else if msgs[|msgs| - 1].role == Assistant then msgs[|msgs| - 1].content
    else LastAssistant(msgs[..|msgs| - 1])
  }

  /**
   * `last_ai_text` returns the content of the latest assistant message, and ""
   * when the transcript has none.
   */
  lemma {:induction false} LastAssistantIsLatest(msgs: seq<Message>)
    ensures NoAssistantAfter(msgs, -1) ==> LastAssistant(msgs) == []
    ensures forall i :: 0 <= i < |msgs| && msgs[i].role == Assistant && NoAssistantAfter(msgs, i)
                        ==> LastAssistant(msgs) == msgs[i].content
    decreases |msgs|
  {
    if msgs != [] {
      var front := msgs[..|msgs| - 1];
      LastAssistantIsLatest(front);
      if msgs[|msgs| - 1].role != Assistant {
        assert NoAssistantAfter(msgs, -1) ==> NoAssistantAfter(front, -1);
        forall i | 0 <= i < |msgs| && msgs[i].role == Assistant && NoAssistantAfter(msgs, i)
          ensures LastAssistant(msgs) == msgs[i].content
        {
          assert i < |front|;
          assert front[i] == msgs[i];
          assert NoAssistantAfter(front, i);
        }
      }
    }
  }

  /** `last_ai_text`: scans the transcript backwards for an assistant message. */
  method LastAiText(msgs: seq<Message>) returns (r: string)
    ensures r == LastAssistant(msgs)
  {
    var i := |msgs|;
    while i > 0
      invariant 0 <= i <= |msgs|
      invariant NoAssistantAfter(msgs, i - 1)
      decreases i
    {
      i := i - 1;
      if msgs[i].role == Assistant {
        LastAssistantIsLatest(msgs);
        return msgs[i].content;
      }
    }
    LastAssistantIsLatest(msgs);
    return [];
  }

  /** The reply of `start` and `handle_user`: the last assistant text, or a marker. */
  function ReplyOf(msgs: seq<Message>): (r: string)
    ensures r != []
    ensures LastAssistant(msgs) != [] ==> r == LastAssistant(msgs)
  {
    var t := LastAssistant(msgs);
    if t == [] then "(no AI)" else t
  }

  // ----------------------------------------------------------------- render

  function Placeholder(key: string): (p: string)
    ensures |p| == |key| + 2 && p[0] == '{' && p[|p| - 1] == '}'
  {
    "{" + key + "}"
  }

  /** Substitutes each collected value for its `{key}` placeholder, in insertion order. */
  function RenderSpec(template: string, data: Dict): string
    decreases |data|
  {
    if data == [] then template
    else RenderSpec(Replace(template, Placeholder(data[0].key), data[0].value), data[1..])
  }

  /** `render` */
  method Render(template: string, data: Dict) returns (out: string)
    ensures out == RenderSpec(template, data)
  {
    out := template;
    for i := 0 to |data|
      invariant RenderSpec(out, data[i..]) == RenderSpec(template, data)
    {
      assert data[i..][1..] == data[i + 1..];
      out := Replace(out, Placeholder(data[i].key), data[i].value);
    }
  }

  /** A template without placeholders for the collected keys comes back unchanged. */
  lemma {:induction false} RenderWithoutPlaceholders(template: string, data: Dict)
    requires forall k :: 0 <= k < |data| ==> !Contains(template, Placeholder(data[k].key))
    ensures RenderSpec(template, data) == template
    decreases |data|
  {
    if data != [] {
      ReplaceAbsent(template, Placeholder(data[0].key), data[0].value);
      RenderWithoutPlaceholders(template, data[1..]);
    }
  }

  /** A single placeholder is replaced by its collected value. */
  lemma RenderFillsPlaceholder(pre: string, post: string, key: string, value: string)
    requires !Contains(pre + Placeholder(key)[..|key| + 1], Placeholder(key))
    requires !Contains(post, Placeholder(key))
    ensures RenderSpec(pre + Placeholder(key) + post, [Entry(key, value)]) == pre + value + post
  {
    var p := Placeholder(key);
    ReplaceFirst(pre, p, value, post);
    ReplaceAbsent(post, p, value);
    assert [Entry(key, value)][1..] == [];
  }

  // ------------------------------------------------------------------ steps

  /** One step of a flow: the question, the answer key, and the step that follows. */
  datatype Step = Step(
    name: string,
    askPrompt: string,
    inputKey: string,
    nextName: Option<string>,
    systemPrompt: Option<string>,
    validateRegex: Option<string>)

  /** A row of the step table; an absent or null `next_name` is `None`. */
  datatype StepRow = StepRow(
    name: string,
    askPrompt: string,
    inputKey: string,
    nextName: Option<string>,
    systemPrompt: Option<string>,
    validateRegex: Option<string>)

  /** A loaded flow: its id, the entry step's name and the steps by name. */
  datatype Flow = Flow(flowId: string, entry: string, steps: map<string, Step>)

  datatype LoadError = FlowNotFound(flowName: string) | NoSteps(flowName: string)

  /** A blank or missing successor means the flow ends after this step. */
  function NormalizeNext(next: Option<string>): (r: Option<string>)
    ensures r.Some? ==> r.value != [] && Strip(r.value) == r.value
    ensures r.None? <==> Strip(next.GetOr("")) == []
  {
    var t := Strip(next.GetOr(""));
    StripByIdempotent(next.GetOr(""), IsPySpace);
    if t == [] then None else Some(t)
  }

  function StepOfRow(row: StepRow): Step {
    Step(Strip(row.name), row.askPrompt, row.inputKey, NormalizeNext(row.nextName),
         row.systemPrompt, row.validateRegex)
  }

  /** The step map built from the rows in order: a later row with the same name replaces an earlier one. */
  function StepsOf(rows: seq<StepRow>): map<string, Step>
    decreases |rows|
  {
    if rows == [] then map[]
    else
      var last := rows[|rows| - 1];
      StepsOf(rows[..|rows| - 1])[Strip(last.name) := StepOfRow(last)]
  }

  /** Every step is keyed by its own name. */
  lemma {:induction false} StepsOfNamed(rows: seq<StepRow>)
    ensures forall n :: n in StepsOf(rows) ==> StepsOf(rows)[n].name == n
    decreases |rows|
  {
    if rows != [] {
      StepsOfNamed(rows[..|rows| - 1]);
    }
  }

  /** The stripped names of the rows. */
  function RowNames(rows: seq<StepRow>): set<string>
    decreases |rows|
  {
    if rows == [] then {} else RowNames(rows[..|rows| - 1]) + {Strip(rows[|rows| - 1].name)}
  }

  /** The keys are exactly the stripped row names. */
  lemma {:induction false} StepsOfKeys(rows: seq<StepRow>)
    ensures StepsOf(rows).Keys == RowNames(rows)
    decreases |rows|
  {
    if rows != [] {
      StepsOfKeys(rows[..|rows| - 1]);
    }
  }

  lemma {:induction false} RowNamesHasRow(rows: seq<StepRow>, i: nat)
    requires i < |rows|
    ensures Strip(rows[i].name) in RowNames(rows)
    decreases |rows|
  {
    if i < |rows| - 1 {
      assert rows[..|rows| - 1][i] == rows[i];
      RowNamesHasRow(rows[..|rows| - 1], i);
    }
  }

  /** The step stored under a name comes from the last row carrying that name. */
  lemma {:induction false} StepsOfLastRowWins(rows: seq<StepRow>, i: nat)
    requires i < |rows|
    requires forall k :: i < k < |rows| ==> Strip(rows[k].name) != Strip(rows[i].name)
    ensures Strip(rows[i].name) in StepsOf(rows)
    ensures StepsOf(rows)[Strip(rows[i].name)] == StepOfRow(rows[i])
    decreases |rows|
  {
    if i < |rows| - 1 {
      var front := rows[..|rows| - 1];
      assert front[i] == rows[i];
      StepsOfLastRowWins(front, i);
    }
  }

  /** Every step's successor, once loaded, is stripped and non-blank. */
  lemma {:induction false} StepsOfNextNormalized(rows: seq<StepRow>)
    ensures forall n :: n in StepsOf(rows) && StepsOf(rows)[n].nextName.Some? ==>
              StepsOf(rows)[n].nextName.value != [] && Strip(StepsOf(rows)[n].nextName.value) == StepsOf(rows)[n].nextName.value
    decreases |rows|
  {
    if rows != [] {
      StepsOfNextNormalized(rows[..|rows| - 1]);
    }
  }

  /** Every step is keyed by its name and the entry is one of the steps. */
  predicate WellFormed(flow: Flow) {
    flow.entry in flow.steps && forall n :: n in flow.steps ==> flow.steps[n].name == n
  }

  /**
   * `load_flow_and_steps`: the flow row must exist and have at least one step
   * row; the steps are keyed by stripped name and the first row is the entry.
   * `flowRow` is the id of the flow found by name (`None` when the lookup
   * raised); `rows` are the ordered step rows (`None` when the query raised).
   */
  method LoadFlow(flowName: string, flowRow: Option<string>, rows: Option<seq<StepRow>>)
    returns (r: Result<Flow, LoadError>)
    ensures flowRow.None? ==> r == Failure(FlowNotFound(flowName))
    ensures flowRow.Some? && (rows.None? || rows.value == []) ==> r == Failure(NoSteps(flowName))
    ensures r.Success? <==> flowRow.Some? && rows.Some? && rows.value != []
    ensures r.Success? ==> r.value.flowId == flowRow.value
                           && r.value.entry == Strip(rows.value[0].name)
                           && r.value.steps == StepsOf(rows.value)
                           && WellFormed(r.value)
  {
    if flowRow.None? {
      return Failure(FlowNotFound(flowName));
    }
    if rows.None? || rows.value == [] {
      return Failure(NoSteps(flowName));
    }
    var rs := rows.value;
    var steps: map<string, Step> := map[];
    for i := 0 to |rs|
      invariant steps == StepsOf(rs[..i])
    {
      StepsOfPrefix(rs, i);
      steps := steps[Strip(rs[i].name) := StepOfRow(rs[i])];
    }
    assert rs[..|rs|] == rs;
    LoadedWellFormed(flowRow.value, rs);
    r := Success(Flow(flowRow.value, Strip(rs[0].name), steps));
  }

  /** One more row extends the step map by that row. */
  lemma StepsOfPrefix(rows: seq<StepRow>, i: nat)
    requires i < |rows|
    ensures StepsOf(rows[..i + 1]) == StepsOf(rows[..i])[Strip(rows[i].name) := StepOfRow(rows[i])]
  {
    assert rows[..i + 1][..i] == rows[..i];
  }

  /** The flow built from a non-empty list of rows is well formed. */
  lemma LoadedWellFormed(flowId: string, rows: seq<StepRow>)
    requires rows != []
    ensures WellFormed(Flow(flowId, Strip(rows[0].name), StepsOf(rows)))
  {
    StepsOfNamed(rows);
    StepsOfKeys(rows);
    RowNamesHasRow(rows, 0);
  }

  // ------------------------------------------------------------------ graph

  /** A node of the compiled graph: `ask_<name>`, `store_<name>`, or END. */
  datatype GNode = Ask(name: string) | Store(name: string) | End

  datatype Graph = Graph(nodes: set<GNode>, edges: set<(GNode, GNode)>, entry: GNode)

  /** The successor name of a step; "" when it has none. */
  function NextName(step: Step): string {
    step.nextName.GetOr("")
  }

  /** Every successor names a step of the flow. */
  predicate NextsResolve(flow: Flow) {
    forall n :: n in flow.steps ==> NextName(flow.steps[n]) == [] || NextName(flow.steps[n]) in flow.steps
  }

  predicate Closed(flow: Flow) {
    WellFormed(flow) && NextsResolve(flow)
  }

  predicate InFlow(flow: Flow, n: GNode) {
    n.End? || n.name in flow.steps
  }

  /** The single edge out of a node: ask goes to store; store goes to the next ask or to END. */
  function Successor(flow: Flow, n: GNode): (m: GNode)
    requires !n.End? && n.name in flow.steps
    ensures NextsResolve(flow) ==> InFlow(flow, m)
  {
    match n
    case Ask(s) => Store(s)
    case Store(s) => if NextName(flow.steps[s]) == [] then End else Ask(NextName(flow.steps[s]))
  }

  ghost function NodesOf(names: set<string>): set<GNode> {
    (set s | s in names :: Ask(s)) + (set s | s in names :: Store(s))
  }

  ghost function EdgesOf(flow: Flow, names: set<string>): set<(GNode, GNode)>
    requires names <= flow.steps.Keys
  {
    (set s | s in names :: (Ask(s), Store(s)))
    + (set s | s in names :: (Store(s), Successor(flow, Store(s))))
  }

  /** Taking one name off the work list adds it to the names done. */
  lemma DoneGrows(all: set<string>, todo: set<string>, s: string)
    requires s in todo && todo <= all
    ensures all - (todo - {s}) == (all - todo) + {s}
  {
  }

  lemma NodesOfAdd(names: set<string>, s: string)
    ensures NodesOf(names + {s}) == NodesOf(names) + {Ask(s), Store(s)}
  {
  }

  lemma EdgesOfAdd(flow: Flow, names: set<string>, s: string)
    requires names + {s} <= flow.steps.Keys
    ensures EdgesOf(flow, names + {s}) == EdgesOf(flow, names) + {(Ask(s), Store(s)), (Store(s), Successor(flow, Store(s)))}
  {
  }

  datatype BuildError = UnknownNode(name: string)

  /**
   * `build_graph_from_db` after loading: two nodes per step, the entry at the
   * entry step's question, and one edge per node. Compiling fails when a
   * successor names no step.
   */
  method BuildGraph(flow: Flow) returns (r: Result<Graph, BuildError>)
    requires WellFormed(flow)
    ensures r.Success? <==> NextsResolve(flow)
    ensures r.Failure? ==> exists s :: s in flow.steps && NextName(flow.steps[s]) == r.error.name
                                       && r.error.name !in flow.steps && r.error.name != []
    ensures r.Success? ==> r.value.entry == Ask(flow.entry)
                           && r.value.nodes == NodesOf(flow.steps.Keys)
                           && r.value.edges == EdgesOf(flow, flow.steps.Keys)
  {
    var nodes: set<GNode> := {};
    var todo := flow.steps.Keys;
    while todo != {}
      invariant todo <= flow.steps.Keys
      invariant nodes == NodesOf(flow.steps.Keys - todo)
      decreases todo
    {
      var s :| s in todo;
      DoneGrows(flow.steps.Keys, todo, s);
      NodesOfAdd(flow.steps.Keys - todo, s);
      nodes := nodes + {Ask(s), Store(s)};
      todo := todo - {s};
    }
    var edges: set<(GNode, GNode)> := {};
    var missing: Option<string> := None;
    todo := flow.steps.Keys;
    while todo != {}
      invariant todo <= flow.steps.Keys
      invariant edges == EdgesOf(flow, flow.steps.Keys - todo)
      invariant missing.None? ==> forall s :: s in flow.steps.Keys - todo ==>
                  NextName(flow.steps[s]) == [] || NextName(flow.steps[s]) in flow.steps
      invariant missing.Some? ==> exists s :: s in flow.steps && NextName(flow.steps[s]) == missing.value
                                   && missing.value !in flow.steps && missing.value != []
      decreases todo
    {
      var s :| s in todo;
      DoneGrows(flow.steps.Keys, todo, s);
      EdgesOfAdd(flow, flow.steps.Keys - todo, s);
      var next := NextName(flow.steps[s]);
      if next != [] && next !in flow.steps {
        missing := Some(next);
      }
      edges := edges + {(Ask(s), Store(s)), (Store(s), Successor(flow, Store(s)))};
      todo := todo - {s};
    }
    if missing.Some? {
      return Failure(UnknownNode(missing.value));
    }
    r := Success(Graph(nodes, edges, Ask(flow.entry)));
  }

  /**
   * In a compiled graph every edge ends at a node or at END, and every node
   * has exactly one outgoing edge, the one the walk follows.
   */
  lemma CompiledEdgesFollowSuccessor(flow: Flow, a: GNode, b: GNode)
    requires Closed(flow)
    ensures (a, b) in EdgesOf(flow, flow.steps.Keys) <==>
              (a in NodesOf(flow.steps.Keys) && b == Successor(flow, a))
    ensures (a, b) in EdgesOf(flow, flow.steps.Keys) ==> b.End? || b in NodesOf(flow.steps.Keys)
  {
    if (a, b) in EdgesOf(flow, flow.steps.Keys) {
      assert InFlow(flow, Successor(flow, a));
    }
  }

  // ------------------------------------------------------------------ nodes

  /** The per-thread state the graph threads through its nodes. */
  datatype State = State(
    messages: seq<Message>,
    collectedData: Dict,
    currentStep: string,
    completedSteps: seq<string>,
    humanCursor: nat,
    sessionId: string)

  /** A row of the answer log. */
  datatype Answer = Answer(runId: string, stepName: string, inputKey: string, value: string)

  /** A node either hands a state to its successor (with the answers it saved) or pauses for input. */
  datatype NodeResult = Advanced(state: State, saved: seq<Answer>) | Suspended(state: State)

  /**
   * What a turn depends on besides the state: the question rewriter, the
   * greeting, and the run id the answer log is keyed by (`None` when no run
   * could be found or created).
   */
  datatype Env = Env(rewrite: string -> string, greeting: string, runId: Option<string>)

  /** The flow has finished: no current step, or one named END in any case. */
  predicate IsTerminalStep(cur: string) {
    cur == [] || Upper(cur) == "END"
  }

  /** The rewriter returns an empty question unchanged. */
  function Rewritten(env: Env, text: string): string {
    if text == [] then [] else env.rewrite(text)
  }

  const NoInjuryAnswers: seq<string> := ["none", "no", "no injuries", "not injured"]
  const GladText: string := "I\U{2019}m glad to hear you weren\U{2019}t injured. Let\U{2019}s continue."
  const AdviceText: string := " If you feel unwell or have concerns, please call 911 or seek immediate medical help."
  const ThanksText: string := "Thank you for letting me know. Let's continue with the next steps."

  /** `collected_data.get(key, "")` */
  function Collected(data: Dict, key: string): string {
    Get(data, key).GetOr("")
  }

  /**
   * The context-aware touches on two steps: after an answer of no injuries the
   * medical question becomes a comfort line, otherwise a missing or negative
   * treatment answer adds the emergency advice; a repeated injuries question
   * after such an answer becomes a thank-you.
   */
  function AdjustQuestion(step: Step, data: Dict, text: string): string
  {
    var injuries := Lower(Collected(data, "injuries"));
    var t :=
      if step.name == "medical_treatment" then
        if injuries in NoInjuryAnswers && step.inputKey == "medical_treatment" then GladText
        else if Lower(Collected(data, "medical_treatment")) in ["no", "none", ""] then text + AdviceText
        else text
      else text;
    if step.name == "injuries" && injuries in NoInjuryAnswers then ThanksText else t
  }

  /** The question a step asks given what has been collected so far. */
  function QuestionFor(step: Step, env: Env, data: Dict): string {
    AdjustQuestion(step, data, Rewritten(env, RenderSpec(step.askPrompt, data)))
  }

  /**
   * Only the injuries and medical-treatment steps deviate from the rewritten
   * template, and each of them only in its fixed wording.
   */
  lemma QuestionAdjustments(step: Step, env: Env, data: Dict)
    ensures var injuries := Lower(Collected(data, "injuries"));
            var base := Rewritten(env, RenderSpec(step.askPrompt, data));
            var q := QuestionFor(step, env, data);
            (step.name != "medical_treatment" && step.name != "injuries" ==> q == base)
            && (step.name == "injuries" ==> q == if injuries in NoInjuryAnswers then ThanksText else base)
            && (step.name == "medical_treatment" && step.inputKey == "medical_treatment" && injuries in NoInjuryAnswers
                ==> q == GladText)
            && (step.name == "medical_treatment" && !(step.inputKey == "medical_treatment" && injuries in NoInjuryAnswers)
                ==> q == if Lower(Collected(data, "medical_treatment")) in ["no", "none", ""] then base + AdviceText else base)
  {
  }

  /** The ask node of `step` acts only while its step is current and the flow is not finished. */
  predicate AskActive(step: Step, st: State) {
    !IsTerminalStep(st.currentStep) && st.currentStep == step.name
  }

  /**
   * The ask node (`make_ask_node`): while its step is current it appends the
   * greeting (before any step is completed) and the step's question; it
   * changes nothing else and saves nothing.
   */
  function AskStep(step: Step, env: Env, st: State): NodeResult {
    if !AskActive(step, st) then Advanced(st, [])
    else
      var greet := if st.completedSteps == [] then [Message(Assistant, env.greeting)] else [];
      var added := greet + [Message(Assistant, QuestionFor(step, env, st.collectedData))];
      Advanced(st.(messages := st.messages + added), [])
  }

  /**
   * The ask node saves nothing and touches only the transcript; while active
   * it appends the greeting (before any step is completed) and then the
   * step's question, both as assistant turns.
   */
  lemma AskStepSpec(step: Step, env: Env, st: State)
    ensures var r := AskStep(step, env, st);
            r.Advanced? && r.saved == []
            && r.state == st.(messages := r.state.messages)
            && (!AskActive(step, st) ==> r.state == st)
            && Humans(r.state.messages) == Humans(st.messages)
    ensures var r := AskStep(step, env, st);
            AskActive(step, st) ==>
              var added := if st.completedSteps == [] then 2 else 1;
              |r.state.messages| == |st.messages| + added
              && r.state.messages[..|st.messages|] == st.messages
              && (forall k :: |st.messages| <= k < |r.state.messages| ==> r.state.messages[k].role == Assistant)
              && r.state.messages[|r.state.messages| - 1].content == QuestionFor(step, env, st.collectedData)
              && (st.completedSteps == [] ==> r.state.messages[|st.messages|].content == env.greeting)
  {
    if AskActive(step, st) {
      var greet := if st.completedSteps == [] then [Message(Assistant, env.greeting)] else [];
      var added := greet + [Message(Assistant, QuestionFor(step, env, st.collectedData))];
      HumansAfterAssistant(st.messages, added);
      assert (st.messages + added)[..|st.messages|] == st.messages;
    }
  }

  /** The run id is usable only when present and non-empty. */
  predicate HasRun(env: Env) {
    env.runId.Some? && env.runId.value != []
  }

  /** The answer log rows a store writes: one, when a run id exists. */
  function SavedAnswer(env: Env, step: Step, value: string): (a: seq<Answer>)
    ensures |a| <= 1
    ensures a != [] <==> HasRun(env)
  {
    if HasRun(env) then [Answer(env.runId.value, step.name, step.inputKey, value)] else []
  }

  /** The store node of `step` acts only while its step is current. */
  predicate StoreActive(step: Step, st: State) {
    st.currentStep == step.name
  }

  /** The oldest human turn the store nodes have not consumed yet. */
  function PendingAnswer(st: State): string
    requires st.humanCursor < |Humans(st.messages)|
  {
    Strip(Humans(st.messages)[st.humanCursor])
  }

  /**
   * The store node (`make_store_node`): while its step is current it pauses
   * when every human turn has been consumed; otherwise it files the oldest
   * unconsumed turn, stripped, under the step's key, marks the step completed,
   * logs the answer when a run exists, and moves to the next step.
   */
  function StoreStep(step: Step, env: Env, st: State): NodeResult {
    if !StoreActive(step, st) then Advanced(st, [])
    else if st.humanCursor >= |Humans(st.messages)| then Suspended(st)
    else
      var text := PendingAnswer(st);
      var data := Set(st.collectedData, step.inputKey, text);
      var done := if step.name in st.completedSteps then st.completedSteps else st.completedSteps + [step.name];
      Advanced(st.(collectedData := data, completedSteps := done, currentStep := NextName(step),
                   humanCursor := st.humanCursor + 1),
               SavedAnswer(env, step, text))
  }

  /**
   * The store node pauses exactly when its step is current and every human
   * turn is consumed; otherwise, while active, it files the oldest unconsumed
   * turn under the step's key (every other key reads as before), marks the
   * step completed once, moves to the next step and logs the answer.
   */
  lemma StoreStepSpec(step: Step, env: Env, st: State)
    ensures var r := StoreStep(step, env, st);
            (!StoreActive(step, st) ==> r == Advanced(st, []))
            && (r.Suspended? <==> StoreActive(step, st) && st.humanCursor >= |Humans(st.messages)|)
            && (r.Suspended? ==> r.state == st)
    ensures var r := StoreStep(step, env, st);
            StoreActive(step, st) && r.Advanced? ==>
              r.state.messages == st.messages
              && r.state.sessionId == st.sessionId
              && r.state.humanCursor == st.humanCursor + 1
              && Get(r.state.collectedData, step.inputKey) == Some(PendingAnswer(st))
              && (forall k :: k != step.inputKey ==> Get(r.state.collectedData, k) == Get(st.collectedData, k))
              && r.state.completedSteps == st.completedSteps + (if step.name in st.completedSteps then [] else [step.name])
              && r.state.currentStep == NextName(step)
              && r.saved == SavedAnswer(env, step, PendingAnswer(st))
  {
    if StoreActive(step, st) && st.humanCursor < |Humans(st.messages)| {
      var text := PendingAnswer(st);
      forall k {
        GetSet(st.collectedData, step.inputKey, text, k);
      }
    }
  }

  // ------------------------------------------------------------------- walk

  /** Runs the node's step function on the state. */
  function Apply(flow: Flow, env: Env, n: GNode, st: State): NodeResult
    requires !n.End? && n.name in flow.steps
  {
    match n
    case Ask(s) => AskStep(flow.steps[s], env, st)
    case Store(s) => StoreStep(flow.steps[s], env, st)
  }

  /** The node functions a compiled graph calls, one per node. */
  type NodeFns = (GNode, State) -> NodeResult

  /** The node functions compiled from `flow`: each node runs its step's ask or store function. */
  function Nodes(flow: Flow, env: Env): NodeFns {
    (n: GNode, st: State) => if !n.End? && n.name in flow.steps then Apply(flow, env, n, st) else Advanced(st, [])
  }

  /** How a walk stopped: paused for input, reached END, or exceeded the recursion limit. */
  datatype Stop = Paused | Finished | LimitHit

  datatype Outcome = Outcome(stop: Stop, state: State, saved: seq<Answer>)

  /**
   * One invocation of the compiled graph from node `n`: each node function
   * runs on the state its predecessor produced, until a store node pauses,
   * END is reached, or `fuel` node executions (the recursion limit) are used
   * up. The answers saved along the way are collected in order.
   */
  function Walk(flow: Flow, nodes: NodeFns, n: GNode, st: State, fuel: nat): Outcome
    requires Closed(flow) && InFlow(flow, n)
    decreases fuel
  {
    if n.End? then Outcome(Finished, st, [])
    else if fuel == 0 then Outcome(LimitHit, st, [])
    else
      match nodes(n, st)
      case Suspended(s) => Outcome(Paused, s, [])
      case Advanced(s, a) =>
        var o := Walk(flow, nodes, Successor(flow, n), s, fuel - 1);
        Outcome(o.stop, o.state, a + o.saved)
  }

  /** `ainvoke`: walks the graph from the entry question. */
  method RunGraph(flow: Flow, nodes: NodeFns, st0: State, fuel: nat) returns (o: Outcome)
    requires Closed(flow)
    ensures o == Walk(flow, nodes, Ask(flow.entry), st0, fuel)
  {
    var n := Ask(flow.entry);
    var st := st0;
    var f := fuel;
    var acc: seq<Answer> := [];
    while !n.End? && f > 0
      invariant InFlow(flow, n)
      invariant var w := Walk(flow, nodes, n, st, f);
                Walk(flow, nodes, Ask(flow.entry), st0, fuel) == Outcome(w.stop, w.state, acc + w.saved)
      decreases f
    {
      var r := nodes(n, st);
      if r.Suspended? {
        assert acc + [] == acc;
        return Outcome(Paused, r.state, acc);
      }
      acc := acc + r.saved;
      st := r.state;
      n := Successor(flow, n);
      f := f - 1;
    }
    assert acc + [] == acc;
    o := Outcome(if n.End? then Finished else LimitHit, st, acc);
  }

  /** One step of a walk through a node that hands its state on. */
  lemma WalkAdvance(flow: Flow, nodes: NodeFns, n: GNode, st: State, fuel: nat)
    requires Closed(flow) && !n.End? && n.name in flow.steps && fuel > 0
    requires nodes(n, st).Advanced?
    ensures var r := nodes(n, st);
            var o := Walk(flow, nodes, Successor(flow, n), r.state, fuel - 1);
            Walk(flow, nodes, n, st, fuel) == Outcome(o.stop, o.state, r.saved + o.saved)
  {
  }

  /** A walk stops where a node pauses. */
  lemma WalkPause(flow: Flow, nodes: NodeFns, n: GNode, st: State, fuel: nat)
    requires Closed(flow) && !n.End? && n.name in flow.steps && fuel > 0
    requires nodes(n, st).Suspended?
    ensures Walk(flow, nodes, n, st, fuel) == Outcome(Paused, nodes(n, st).state, [])
  {
  }

  /** A node that passes the state through unchanged hands the walk on to its successor. */
  lemma WalkPasses(flow: Flow, nodes: NodeFns, n: GNode, st: State, fuel: nat)
    requires Closed(flow) && !n.End? && n.name in flow.steps && fuel > 0
    requires nodes(n, st) == Advanced(st, [])
    ensures Walk(flow, nodes, n, st, fuel) == Walk(flow, nodes, Successor(flow, n), st, fuel - 1)
  {
    WalkAdvance(flow, nodes, n, st, fuel);
    assert [] + Walk(flow, nodes, Successor(flow, n), st, fuel - 1).saved
        == Walk(flow, nodes, Successor(flow, n), st, fuel - 1).saved;
  }

  /** The node reached after `k` edges from `n`. */
  function Iterate(flow: Flow, n: GNode, k: nat): (m: GNode)
    requires Closed(flow) && InFlow(flow, n)
    ensures InFlow(flow, m)
    decreases k
  {
    if k == 0 || n.End? then n else Iterate(flow, Successor(flow, n), k - 1)
  }

  /** Iterating from the successor is iterating one edge further from the node. */
  lemma IterateShift(flow: Flow, n: GNode, j: nat)
    requires Closed(flow) && InFlow(flow, n) && !n.End?
    ensures Iterate(flow, Successor(flow, n), j) == Iterate(flow, n, j + 1)
  {
  }

  /** Nodes that pass `st` through unchanged, for the first `m` nodes from `n`. */
  predicate PassesThrough(flow: Flow, nodes: NodeFns, n: GNode, st: State, m: nat)
    requires Closed(flow) && InFlow(flow, n)
  {
    forall j :: 0 <= j < m ==> !Iterate(flow, n, j).End? && nodes(Iterate(flow, n, j), st) == Advanced(st, [])
  }

  /** Passing through the first `m` nodes means passing the first and then `m - 1` more. */
  lemma PassesThroughShift(flow: Flow, nodes: NodeFns, n: GNode, st: State, m: nat)
    requires Closed(flow) && InFlow(flow, n) && m > 0 && PassesThrough(flow, nodes, n, st, m)
    ensures !n.End? && nodes(n, st) == Advanced(st, [])
    ensures PassesThrough(flow, nodes, Successor(flow, n), st, m - 1)
  {
    assert Iterate(flow, n, 0) == n;
    forall j | 0 <= j < m - 1
      ensures !Iterate(flow, Successor(flow, n), j).End? && nodes(Iterate(flow, Successor(flow, n), j), st) == Advanced(st, [])
    {
      IterateShift(flow, n, j);
    }
  }

  /** One skipped node in front of a skipped stretch. */
  lemma WalkSkipOne(flow: Flow, nodes: NodeFns, n: GNode, st: State, fuel: nat, m: nat)
    requires Closed(flow) && InFlow(flow, n) && 0 < m <= fuel
    requires !n.End? && nodes(n, st) == Advanced(st, [])
    requires Walk(flow, nodes, Successor(flow, n), st, fuel - 1)
          == Walk(flow, nodes, Iterate(flow, Successor(flow, n), m - 1), st, fuel - m)
    ensures Walk(flow, nodes, n, st, fuel) == Walk(flow, nodes, Iterate(flow, n, m), st, fuel - m)
  {
    WalkPasses(flow, nodes, n, st, fuel);
    IterateShift(flow, n, m - 1);
  }

  /** Nodes that pass the state through unchanged are skipped by the walk. */
  lemma {:induction false} WalkSkips(flow: Flow, nodes: NodeFns, n: GNode, st: State, fuel: nat, m: nat)
    requires Closed(flow) && InFlow(flow, n) && m <= fuel && PassesThrough(flow, nodes, n, st, m)
    ensures Walk(flow, nodes, n, st, fuel) == Walk(flow, nodes, Iterate(flow, n, m), st, fuel - m)
    decreases m
  {
    if m == 0 {
      assert Iterate(flow, n, m) == n;
    } else {
      PassesThroughShift(flow, nodes, n, st, m);
      WalkSkips(flow, nodes, Successor(flow, n), st, fuel - 1, m - 1);
      WalkSkipOne(flow, nodes, n, st, fuel, m);
    }
  }

  predicate NoDuplicates(xs: seq<string>) {
    forall i, j :: 0 <= i < j < |xs| ==> xs[i] != xs[j]
  }

  /** What every thread state satisfies: the cursor never passes the human turns, steps are completed once. */
  ghost predicate Inv(st: State) {
    st.humanCursor <= |Humans(st.messages)| && NoDuplicates(st.completedSteps) && UniqueKeys(st.collectedData)
  }

  /** How a later state extends an earlier one: the transcript and the completed steps only grow. */
  ghost predicate Extends(st: State, st': State) {
    |st.messages| <= |st'.messages| && st'.messages[..|st.messages|] == st.messages
    && |st.completedSteps| <= |st'.completedSteps| && st'.completedSteps[..|st.completedSteps|] == st.completedSteps
    && st.humanCursor <= st'.humanCursor
    && st'.sessionId == st.sessionId
  }

  /** Extending is transitive. */
  lemma ExtendsTrans(a: State, b: State, c: State)
    requires Extends(a, b) && Extends(b, c)
    ensures Extends(a, c)
  {
    assert c.messages[..|a.messages|] == c.messages[..|b.messages|][..|a.messages|];
    assert c.completedSteps[..|a.completedSteps|] == c.completedSteps[..|b.completedSteps|][..|a.completedSteps|];
  }

  /** Each node keeps the state invariant and only extends the state. */
  lemma ApplyPreserves(flow: Flow, env: Env, n: GNode, st: State)
    requires !n.End? && n.name in flow.steps && Inv(st)
    ensures Inv(Apply(flow, env, n, st).state) && Extends(st, Apply(flow, env, n, st).state)
  {
    var r := Apply(flow, env, n, st);
    match n
    case Ask(s) =>
      AskStepSpec(flow.steps[s], env, st);
      if AskActive(flow.steps[s], st) {
        assert r.state.messages[..|st.messages|] == st.messages;
      }
    case Store(s) =>
      var step := flow.steps[s];
      StoreStepSpec(step, env, st);
      if StoreActive(step, st) && r.Advanced? {
        SetKeepsUnique(st.collectedData, step.inputKey, PendingAnswer(st));
        assert r.state.completedSteps[..|st.completedSteps|] == st.completedSteps;
      }
  }

  /** Node functions that keep the state invariant and only extend the state. */
  ghost predicate Preserving(flow: Flow, nodes: NodeFns) {
    forall n: GNode, st: State {:trigger nodes(n, st)} :: !n.End? && n.name in flow.steps && Inv(st) ==>
      Inv(nodes(n, st).state) && Extends(st, nodes(n, st).state)
  }

  /** The compiled node functions keep the state invariant. */
  lemma NodesPreserving(flow: Flow, env: Env)
    ensures Preserving(flow, Nodes(flow, env))
  {
    forall n: GNode, st: State | !n.End? && n.name in flow.steps && Inv(st)
      ensures Inv(Nodes(flow, env)(n, st).state) && Extends(st, Nodes(flow, env)(n, st).state)
    {
      ApplyPreserves(flow, env, n, st);
    }
  }

  /** A whole walk keeps the state invariant and only extends the state. */
  lemma {:induction false} WalkPreserves(flow: Flow, nodes: NodeFns, n: GNode, st: State, fuel: nat)
    requires Closed(flow) && InFlow(flow, n) && Inv(st) && Preserving(flow, nodes)
    ensures Inv(Walk(flow, nodes, n, st, fuel).state) && Extends(st, Walk(flow, nodes, n, st, fuel).state)
    decreases fuel
  {
    if n.End? || fuel == 0 {
      assert Walk(flow, nodes, n, st, fuel).state == st;
      assert st.messages[..|st.messages|] == st.messages;
      assert st.completedSteps[..|st.completedSteps|] == st.completedSteps;
    } else {
      var r := nodes(n, st);
      if r.Advanced? {
        var o := Walk(flow, nodes, Successor(flow, n), r.state, fuel - 1);
        WalkPreserves(flow, nodes, Successor(flow, n), r.state, fuel - 1);
        WalkAdvance(flow, nodes, n, st, fuel);
        ExtendsTrans(st, r.state, o.state);
      } else {
        WalkPause(flow, nodes, n, st, fuel);
      }
    }
  }

  /** The state `start` writes for a new thread. */
  function InitialState(entry: string, sessionId: string): State {
    State([], [], entry, [], 0, sessionId)
  }

  /**
   * The state `start` hands to the graph: the initial state, except that the
   * `add_messages` reducer merges its empty message list into the transcript
   * a thread already holds, so that transcript is kept.
   */
  function StartState(threads: map<string, State>, entry: string, sessionId: string): (st: State)
    ensures Inv(st)
    ensures st.currentStep == entry && st.completedSteps == [] && st.collectedData == []
    ensures st.humanCursor == 0 && st.sessionId == sessionId
    ensures st.messages == if sessionId in threads then threads[sessionId].messages else []
  {
    var init := InitialState(entry, sessionId);
    if sessionId in threads then init.(messages := threads[sessionId].messages) else init
  }

  /**
   * Starting a thread shows the greeting and then the entry step's question,
   * and pauses for the first answer without saving anything.
   */
  lemma StartAsksEntryQuestion(flow: Flow, env: Env, sessionId: string, fuel: nat)
    requires Closed(flow) && !IsTerminalStep(flow.entry) && fuel >= 2
    ensures var init := InitialState(flow.entry, sessionId);
            var question := QuestionFor(flow.steps[flow.entry], env, []);
            Walk(flow, Nodes(flow, env), Ask(flow.entry), init, fuel)
              == Outcome(Paused,
                         init.(messages := [Message(Assistant, env.greeting), Message(Assistant, question)]),
                         [])
  {
    var init := InitialState(flow.entry, sessionId);
    var step := flow.steps[flow.entry];
    var st1 := init.(messages := [Message(Assistant, env.greeting), Message(Assistant, QuestionFor(step, env, []))]);
    EntryQuestion(step, env, init);
    assert Nodes(flow, env)(Ask(flow.entry), init) == Advanced(st1, []);
    assert Nodes(flow, env)(Store(flow.entry), st1) == Suspended(st1);
    WalkAskPause(flow, Nodes(flow, env), flow.entry, init, st1, fuel);
  }

  /** On a fresh state the entry step's nodes greet, ask, and pause for the answer. */
  lemma EntryQuestion(step: Step, env: Env, init: State)
    requires AskActive(step, init) && init.messages == [] && init.completedSteps == [] && init.humanCursor == 0
    ensures var st1 := init.(messages := [Message(Assistant, env.greeting), Message(Assistant, QuestionFor(step, env, init.collectedData))]);
            AskStep(step, env, init) == Advanced(st1, []) && StoreStep(step, env, st1) == Suspended(st1)
  {
    var st1 := AskStep(step, env, init).state;
    AskStepSpec(step, env, init);
    assert Humans(st1.messages) == [];
    StoreStepSpec(step, env, st1);
  }

  /** A question node that hands on `st1`, followed by a store node that pauses on it. */
  lemma WalkAskPause(flow: Flow, nodes: NodeFns, name: string, st: State, st1: State, fuel: nat)
    requires Closed(flow) && name in flow.steps && fuel >= 2
    requires nodes(Ask(name), st) == Advanced(st1, []) && nodes(Store(name), st1) == Suspended(st1)
    ensures Walk(flow, nodes, Ask(name), st, fuel) == Outcome(Paused, st1, [])
  {
    WalkAdvance(flow, nodes, Ask(name), st, fuel);
    WalkPause(flow, nodes, Store(name), st1, fuel - 1);
  }

  /** A node whose step is not current passes the state on unchanged. */
  lemma ApplyInactive(flow: Flow, env: Env, n: GNode, st: State)
    requires WellFormed(flow) && !n.End? && n.name in flow.steps && n.name != st.currentStep
    ensures Apply(flow, env, n, st) == Advanced(st, [])
  {
  }

  /**
   * The question node followed by the store node of the current step, with
   * one unconsumed human turn: the store files that turn, stripped, under the
   * step's key, marks the step completed, logs it, moves to the next step and
   * leaves no human turn unconsumed.
   */
  lemma AskThenStore(step: Step, env: Env, st: State)
    requires AskActive(step, st) && |Humans(st.messages)| == st.humanCursor + 1
    ensures var st1 := AskStep(step, env, st).state;
            var r2 := StoreStep(step, env, st1);
            AskStep(step, env, st).Advanced? && AskStep(step, env, st).saved == []
            && r2.Advanced?
            && r2.state.currentStep == NextName(step)
            && Get(r2.state.collectedData, step.inputKey) == Some(PendingAnswer(st))
            && step.name in r2.state.completedSteps
            && r2.state.humanCursor == |Humans(r2.state.messages)|
            && r2.saved == SavedAnswer(env, step, PendingAnswer(st))
  {
    var st1 := AskStep(step, env, st).state;
    AskStepSpec(step, env, st);
    assert Humans(st1.messages) == Humans(st.messages);
    assert PendingAnswer(st1) == PendingAnswer(st);
    StoreStepSpec(step, env, st1);
  }

  /** A walk through the current step's question node and its store node, both handing the state on. */
  lemma WalkAskStore(flow: Flow, env: Env, st: State, fuel: nat)
    requires Closed(flow) && st.currentStep in flow.steps && fuel >= 2
    requires var step := flow.steps[st.currentStep];
             AskStep(step, env, st).Advanced? && AskStep(step, env, st).saved == []
             && StoreStep(step, env, AskStep(step, env, st).state).Advanced?
    ensures var step := flow.steps[st.currentStep];
            var r2 := StoreStep(step, env, AskStep(step, env, st).state);
            var o := Walk(flow, Nodes(flow, env), Successor(flow, Store(st.currentStep)), r2.state, fuel - 2);
            Walk(flow, Nodes(flow, env), Ask(st.currentStep), st, fuel) == Outcome(o.stop, o.state, r2.saved + o.saved)
  {
    var nodes := Nodes(flow, env);
    var step := flow.steps[st.currentStep];
    var st1 := AskStep(step, env, st).state;
    assert nodes(Ask(st.currentStep), st) == AskStep(step, env, st);
    assert nodes(Store(st.currentStep), st1) == StoreStep(step, env, st1);
    WalkAdvance(flow, nodes, Ask(st.currentStep), st, fuel);
    WalkAdvance(flow, nodes, Store(st.currentStep), st1, fuel - 1);
    var o1 := Walk(flow, nodes, Store(st.currentStep), st1, fuel - 1);
    assert [] + o1.saved == o1.saved;
  }

  /**
   * With every human turn consumed, the walk from the current step's question
   * asks it and pauses at its store node; with no current step it finishes.
   * Either way nothing is filed, completed or logged.
   */
  lemma NextPauses(flow: Flow, env: Env, st: State, fuel: nat)
    requires Closed(flow) && (st.currentStep == [] || st.currentStep in flow.steps)
    requires st.humanCursor == |Humans(st.messages)| && fuel >= 2
    ensures var n := if st.currentStep == [] then End else Ask(st.currentStep);
            var o := Walk(flow, Nodes(flow, env), n, st, fuel);
            o.stop == (if st.currentStep == [] then Finished else Paused)
            && o.state.currentStep == st.currentStep
            && o.state.collectedData == st.collectedData
            && o.state.completedSteps == st.completedSteps
            && o.state.humanCursor == |Humans(o.state.messages)|
            && o.saved == []
  {
    if st.currentStep != [] {
      var nodes := Nodes(flow, env);
      var step := flow.steps[st.currentStep];
      var st1 := AskStep(step, env, st).state;
      AskStepSpec(step, env, st);
      StoreStepSpec(step, env, st1);
      assert nodes(Ask(st.currentStep), st) == Advanced(st1, []);
      assert nodes(Store(st.currentStep), st1) == Suspended(st1);
      WalkAskPause(flow, nodes, st.currentStep, st, st1, fuel);
    }
  }

  /** The compiled node of a step that is not current passes the state on unchanged. */
  lemma NodesInactive(flow: Flow, env: Env, n: GNode, st: State)
    requires WellFormed(flow) && !n.End? && n.name in flow.steps && n.name != st.currentStep
    ensures Nodes(flow, env)(n, st) == Advanced(st, [])
  {
    ApplyInactive(flow, env, n, st);
  }

  /** The walk from the entry passes through the steps before the current one unchanged. */
  lemma SkipToCurrent(flow: Flow, env: Env, st: State, fuel: nat, m: nat)
    requires Closed(flow) && m <= fuel
    requires Iterate(flow, Ask(flow.entry), m) == Ask(st.currentStep)
    requires forall j :: 0 <= j < m ==>
               !Iterate(flow, Ask(flow.entry), j).End? && Iterate(flow, Ask(flow.entry), j).name != st.currentStep
    ensures Walk(flow, Nodes(flow, env), Ask(flow.entry), st, fuel)
         == Walk(flow, Nodes(flow, env), Ask(st.currentStep), st, fuel - m)
  {
    var nodes := Nodes(flow, env);
    forall j | 0 <= j < m
      ensures !Iterate(flow, Ask(flow.entry), j).End? && nodes(Iterate(flow, Ask(flow.entry), j), st) == Advanced(st, [])
    {
      NodesInactive(flow, env, Iterate(flow, Ask(flow.entry), j), st);
    }
    assert PassesThrough(flow, nodes, Ask(flow.entry), st, m);
    WalkSkips(flow, nodes, Ask(flow.entry), st, fuel, m);
  }

  /**
   * A turn answers the current step: when the current step's question is
   * reached from the entry through other steps only, and exactly one human
   * turn is unconsumed, the walk files that turn under the step's key, marks
   * the step completed, logs the answer when a run exists, moves to the next
   * step, and then pauses at the next question (or finishes at END) with
   * every human turn consumed.
   */
  lemma TurnAnswersCurrentStep(flow: Flow, env: Env, st: State, fuel: nat, m: nat)
    requires Closed(flow) && !IsTerminalStep(st.currentStep) && st.currentStep in flow.steps
    requires Iterate(flow, Ask(flow.entry), m) == Ask(st.currentStep)
    requires forall j :: 0 <= j < m ==>
               !Iterate(flow, Ask(flow.entry), j).End? && Iterate(flow, Ask(flow.entry), j).name != st.currentStep
    requires |Humans(st.messages)| == st.humanCursor + 1
    requires fuel >= m + 4
    ensures var step := flow.steps[st.currentStep];
            var o := Walk(flow, Nodes(flow, env), Ask(flow.entry), st, fuel);
            o.stop == (if NextName(step) == [] then Finished else Paused)
            && o.state.currentStep == NextName(step)
            && Get(o.state.collectedData, step.inputKey) == Some(PendingAnswer(st))
            && step.name in o.state.completedSteps
            && o.state.humanCursor == |Humans(o.state.messages)|
            && o.saved == SavedAnswer(env, step, PendingAnswer(st))
  {
    var nodes := Nodes(flow, env);
    var step := flow.steps[st.currentStep];
    SkipToCurrent(flow, env, st, fuel, m);
    AskThenStore(step, env, st);
    WalkAskStore(flow, env, st, fuel - m);
    var r2 := StoreStep(step, env, AskStep(step, env, st).state);
    NextPauses(flow, env, r2.state, fuel - m - 2);
    var o2 := Walk(flow, nodes, Successor(flow, Store(st.currentStep)), r2.state, fuel - m - 2);
    WalkChain(Walk(flow, nodes, Ask(flow.entry), st, fuel), Walk(flow, nodes, Ask(st.currentStep), st, fuel - m),
              o2, r2.saved);
  }

  /** Putting together a skipped stretch and a stretch that saves `saved` before an outcome that saves nothing. */
  lemma WalkChain(whole: Outcome, tail: Outcome, o2: Outcome, saved: seq<Answer>)
    requires whole == tail && tail == Outcome(o2.stop, o2.state, saved + o2.saved) && o2.saved == []
    ensures whole == Outcome(o2.stop, o2.state, saved)
  {
    assert saved + [] == saved;
  }

  // -------------------------------------------------------------- assistant

  const ClosingReply: string := "Thanks, your intake is saved" + ". We'll follow up shortly. " + "Goodbye!"
  const ReminderReply: string :=
    "Your intake is complete. " + "Say 'bye' when you're ready " + "to end, or tell me if you " + "want to add anything."

  /**
   * Why a call raised: the graph invocation gave up at the recursion limit, or
   * the database client could not be reached while the session end was saved.
   */
  datatype RunError = RecursionLimit | SessionEndFailed

  /** The current step recorded for a thread; "" for a thread never started. */
  function CurrentStepOf(threads: map<string, State>, sessionId: string): string {
    if sessionId in threads then threads[sessionId].currentStep else ""
  }

  /** The session-end row: the user's stripped words, or "user_ended" when they are blank. */
  function SessionEndRecord(runId: Option<string>, text: string): (a: seq<Answer>)
    ensures |a| <= 1
  {
    if runId.Some? && runId.value != [] then
      var reason := if Strip(text) == [] then "user_ended" else Strip(text);
      [Answer(runId.value, "session_end", "end_reason", reason)]
    else []
  }

  /** The run stamped completed when a session ends. */
  function RunsClosed(runId: Option<string>): seq<string> {
    if runId.Some? && runId.value != [] then [runId.value] else []
  }

  /**
   * The public wrapper over a compiled flow. `threads` stands for the
   * checkpointer (one state per session id), `answers` for the answer table
   * and `completedRuns` for the runs stamped completed.
   */
  class StrictIntakeAssistant {
    const flow: Flow
    const rewrite: string -> string
    const greeting: string
    const recursionLimit: nat
    var threads: map<string, State>
    var answers: seq<Answer>
    var completedRuns: seq<string>

    constructor (flow: Flow, rewrite: string -> string, greeting: string, recursionLimit: nat)
      requires Closed(flow)
      ensures this.flow == flow && this.rewrite == rewrite && this.greeting == greeting
      ensures this.recursionLimit == recursionLimit
      ensures threads == map[] && answers == [] && completedRuns == []
      ensures Valid()
    {
      this.flow := flow;
      this.rewrite := rewrite;
      this.greeting := greeting;
      this.recursionLimit := recursionLimit;
      threads := map[];
      answers := [];
      completedRuns := [];
    }

    function EnvOf(runId: Option<string>): Env {
      Env(rewrite, greeting, runId)
    }

    /** Every stored thread satisfies the state invariant. */
    ghost predicate Valid()
      reads this
    {
      Closed(flow) && forall sid :: sid in threads ==> Inv(threads[sid])
    }

    /**
     * `ainvoke` under the thread's checkpoint: walks the graph from the entry
     * question on `st`, stores the resulting state as the thread's state and
     * appends the answers saved along the way.
     */
    method Invoke(st: State, sessionId: string, runId: Option<string>) returns (o: Outcome)
      requires Valid() && Inv(st)
      modifies this
      ensures Valid()
      ensures o == Walk(flow, Nodes(flow, EnvOf(runId)), Ask(flow.entry), st, recursionLimit)
      ensures threads == old(threads)[sessionId := o.state]
      ensures answers == old(answers) + o.saved && completedRuns == old(completedRuns)
    {
      o := RunGraph(flow, Nodes(flow, EnvOf(runId)), st, recursionLimit);
      NodesPreserving(flow, EnvOf(runId));
      WalkPreserves(flow, Nodes(flow, EnvOf(runId)), Ask(flow.entry), st, recursionLimit);
      threads := threads[sessionId := o.state];
      answers := answers + o.saved;
    }

    /**
     * `start`: resets the session to the entry step with no collected data,
     * keeping any transcript the thread already has, walks the graph, and
     * replies with the last assistant text.
     */
    method Start(sessionId: string, runId: Option<string>) returns (reply: Result<string, RunError>)
      requires Valid()
      modifies this
      ensures Valid()
      ensures var o := Walk(flow, Nodes(flow, EnvOf(runId)), Ask(flow.entry), StartState(old(threads), flow.entry, sessionId), recursionLimit);
              threads == old(threads)[sessionId := o.state]
              && answers == old(answers) + o.saved
              && completedRuns == old(completedRuns)
              && reply == (if o.stop == LimitHit then Failure(RecursionLimit) else Success(ReplyOf(o.state.messages)))
    {
      var o := Invoke(StartState(threads, flow.entry, sessionId), sessionId, runId);
      if o.stop == LimitHit {
        return Failure(RecursionLimit);
      }
      var text := LastAiText(o.state.messages);
      reply := Success(if text == [] then "(no AI)" else text);
    }

    /**
     * `handle_user`: once the flow has finished, a farewell logs the session
     * end and closes the run, and anything else gets a reminder; the thread is
     * left as it was. `endFails` says the database client could not be reached
     * while the session end was saved: nothing is logged and the call raises.
     * Otherwise the stripped text is appended as a human turn and the graph is
     * walked again from the entry question.
     */
    method HandleUser(text: string, sessionId: string, runId: Option<string>, endFails: bool)
      returns (reply: Result<string, RunError>)
      requires Valid()
      modifies this
      ensures Valid()
      ensures IsTerminalStep(CurrentStepOf(old(threads), sessionId)) ==>
                threads == old(threads)
                && (IsFarewell(text) && endFails ==>
                      reply == Failure(SessionEndFailed) && answers == old(answers) && completedRuns == old(completedRuns))
                && (IsFarewell(text) && !endFails ==>
                      reply == Success(ClosingReply)
                      && answers == old(answers) + SessionEndRecord(runId, text)
                      && completedRuns == old(completedRuns) + RunsClosed(runId))
                && (!IsFarewell(text) ==>
                      reply == Success(ReminderReply) && answers == old(answers) && completedRuns == old(completedRuns))
      ensures !IsTerminalStep(CurrentStepOf(old(threads), sessionId)) ==>
                sessionId in old(threads)
                && var before := old(threads)[sessionId];
                   var st := before.(messages := before.messages + [Message(Human, Strip(text))], sessionId := sessionId);
                   var o := Walk(flow, Nodes(flow, EnvOf(runId)), Ask(flow.entry), st, recursionLimit);
                   threads == old(threads)[sessionId := o.state]
                   && answers == old(answers) + o.saved
                   && completedRuns == old(completedRuns)
                   && reply == (if o.stop == LimitHit then Failure(RecursionLimit) else Success(ReplyOf(o.state.messages)))
    {
      var current := if sessionId in threads then threads[sessionId].currentStep else "";
      if current == [] || Upper(current) == "END" {
        if IsFarewell(text) {
          if endFails {
            return Failure(SessionEndFailed);
          }
          answers := answers + SessionEndRecord(runId, text);
          completedRuns := completedRuns + RunsClosed(runId);
          return Success(ClosingReply);
        }
        return Success(ReminderReply);
      }
      var before := threads[sessionId];
      var st := before.(messages := before.messages + [Message(Human, Strip(text))], sessionId := sessionId);
      HumansAfterHuman(before.messages, Strip(text));
      assert Inv(st);
      var o := Invoke(st, sessionId, runId);
      if o.stop == LimitHit {
        return Failure(RecursionLimit);
      }
      var last := LastAiText(o.state.messages);
      reply := Success(if last == [] then "(no AI)" else last);
    }
  }

  /**
   * After the flow has finished, the reply to a farewell is the closing line,
   * and the session-end row carries the user's words, never the default.
   */
  lemma FarewellAfterFinishLogsWords(runId: Option<string>, text: string)
    requires IsFarewell(text) && runId.Some? && runId.value != []
    ensures SessionEndRecord(runId, text) == [Answer(runId.value, "session_end", "end_reason", Strip(text))]
  {
    FarewellNotBlank(text);
  }
}
