# Strict intake voice assistant — a Dafny model

This project models the deterministic core of a voice assistant that takes
personal-injury intakes. It has four parts.

- **The strict intake engine** (`intake_engine.dfy`, with `ordered_dict.dfy`
  for Python's insertion-ordered `dict`).
  - A flow is a chain of steps loaded from ordered rows. It is compiled into
    ask/store node pairs: `ask_S → store_S → ask_next`, or `END` after the
    last step.
  - Each turn walks the compiled graph from the entry question. A node acts
    only while its step is current.
  - The ask node appends the greeting (first turn only) and the step's
    question. The store node files the oldest unconsumed human turn, or
    pauses when there is none.
  - `StrictIntakeAssistant` keeps one state per session (the checkpointer),
    an append-only answer log, and the runs stamped completed.
  - `handle_user` applies the farewell rule once the flow has finished.
- **The answer rules of the empathetic rewriter** (`empathetic_rewriter.dfy`
  and `patterns.dfy`).
  - The regular expressions are hand-written scanners over `seq<char>`. They
    keep the regex engine's leftmost-first choice and its backtracking order:
    `NAME_TOKEN`, the name phrases and `DATE_PAT`.
  - Also modelled: the question classifier, the rule dispatcher and the
    validation-tag parser.
  - `extract_and_validate` is modelled with the two language-model calls as
    oracle parameters.
  - The memoised `rewrite`/`greeting` cache is a class with a `map` field.
- **The flow-chain layout of the editor UI** (`flow_visualizer.dfy`).
  - `generateFlowVisualization` picks the entry step and walks `next_name`
    with a visited set. It then appends the steps the chain missed and adds
    START, one ask node per step, END, and the edges between consecutive
    nodes.
  - The walk and the orphan pass are loops proved against the function
    `Placement`.
  - Also modelled: `slugify`, and the insert and update handlers.
- **The voice-agent helpers** (`voice_agent.dfy`).
  - `speak_all`'s chunking is modelled as a splitter that follows `re.split`
    on `\n+|(?<=[.!?])\s+`.
  - `speak`'s blank guard.
  - The `StrictIntakeInjuryAgent` state machine: one-shot initialisation, and
    session rotation on the closing reply.

`text.dfy` holds the string functions the sources rely on:

- Python's `str.strip`, using the exact `isspace` set;
- JavaScript's `trim`;
- ASCII `lower`/`upper`;
- `replace`, `in` and `startswith`;
- the regex word boundary.

`wrappers.dfy` holds `Option` and `Result`.

Points where the code behaves differently from what one might expect:

- **`start`.** It resets the session to the entry step, with no collected
  data, no completed steps and the human cursor at 0
  (src/strict_intake_assistant.py:408-418). Calling it twice therefore
  resets the collected data; it is not idempotent. The `messages` key goes
  through the `add_messages` reducer (src/strict_intake_assistant.py:35), so
  on a thread that already exists the empty list is merged into the old
  transcript and that transcript is kept. With the cursor back at 0, the
  earlier human turns are filed again as the answers to the first steps.
  `IntakeEngine.StartState` is the state `start` hands to the graph.
- **A failed session-end save.** After the flow has finished, a farewell
  saves the session end inside `try: … finally: pass`, with no `except`
  (src/strict_intake_assistant.py:435-443). When the database client cannot
  be reached, the error reaches the agent, which answers with the
  technical-issue line and keeps the session id (src/agent.py:125-128).
- **The store node.** It files the stripped raw reply and never calls
  `extract_and_validate` (src/strict_intake_assistant.py:321-324). An answer
  "shree" to the first-name question is stored as "shree", not "Shree".
- **The date rule.** On "It happened on March 15th, 2024" it yields
  "March 15", not "March 15, 2024". The ordinal suffix stops the optional
  year group (src/empathetic_rewriter.py:386-393).
- **`_clean_token`.** Its `replace("'", "'")` replaces a character by
  itself, so it changes nothing.
- **The agent's empty-reply apology.** `handle_user` always answers with a
  non-empty text (`(no AI)` at worst), so this apology cannot be reached.
  The model keeps the branch, and `IntakeEngine.ReplyOf` proves that the
  reply is non-empty.

## Model

| member | source | states |
|---|---|---|
| IntakeEngine.IsFarewellIff | src/strict_intake_assistant.py:27-30 | a text is a farewell exactly when it is non-empty and one of bye/goodbye/thanks/thanks you/thank you/end/stop/finish/done/quit/exit occurs as a whole word in its lower-cased form |
| IntakeEngine.FarewellNotBlank | src/strict_intake_assistant.py:29-30 | a farewell is never blank, so the session-end row always carries the user's words |
| IntakeEngine.FarewellExample | src/strict_intake_assistant.py:27-30 | "Okay, bye!" is a farewell |
| IntakeEngine.WeekendNotFarewell | src/strict_intake_assistant.py:27 | "weekend" is not a farewell: "end" inside a word does not match |
| IntakeEngine.EndedNotFarewell | src/strict_intake_assistant.py:27 | "ended" is not a farewell |
| IntakeEngine.HumansAfterHuman | src/strict_intake_assistant.py:309 | appending a human turn appends its text to the human transcript |
| IntakeEngine.LastAssistantIsLatest | src/strict_intake_assistant.py:51-58 | the last assistant text is the content of an assistant message with no assistant message after it, and "" when there is none |
| IntakeEngine.LastAiText | src/strict_intake_assistant.py:51-58 | the reverse scan returns the most recent assistant message's content, or "" |
| IntakeEngine.ReplyOf | src/strict_intake_assistant.py:421 | the reply of a walk is never empty; it is the last assistant text when there is one |
| IntakeEngine.Render | src/strict_intake_assistant.py:44-48 | the loop substitutes each collected value for its `{key}` placeholder, key by key in insertion order |
| IntakeEngine.RenderWithoutPlaceholders | src/strict_intake_assistant.py:44-48 | a template with no placeholder for any collected key (in particular, any template when nothing is collected) is unchanged |
| IntakeEngine.RenderFillsPlaceholder | src/strict_intake_assistant.py:44-48 | a single `{key}` placeholder is replaced by its value and the rest of the template is kept |
| IntakeEngine.NormalizeNext | src/strict_intake_assistant.py:231 | a successor is absent exactly when the stored one is missing or blank; a present one is trimmed and non-empty |
| IntakeEngine.StepsOfNamed | src/strict_intake_assistant.py:226-234 | every loaded step is filed under its own trimmed name |
| IntakeEngine.StepsOfKeys | src/strict_intake_assistant.py:226-234 | the loaded step names are exactly the rows' trimmed names |
| IntakeEngine.StepsOfLastRowWins | src/strict_intake_assistant.py:226-234 | of rows sharing a trimmed name, the last one defines the step |
| IntakeEngine.StepsOfNextNormalized | src/strict_intake_assistant.py:231 | every loaded successor is trimmed and non-empty |
| IntakeEngine.StepsOfPrefix | src/strict_intake_assistant.py:226-234 | each loop iteration files one row's step under its trimmed name |
| IntakeEngine.LoadFlow | src/strict_intake_assistant.py:191-240 | fails with FlowNotFound without a flow row and with NoSteps for missing or zero rows; otherwise it succeeds with the flow id, the first row's trimmed name as entry, and the steps keyed by trimmed name |
| IntakeEngine.LoadedWellFormed | src/strict_intake_assistant.py:226-237 | a loaded flow's entry is one of its steps and every step is filed under its name with a normalised successor |
| IntakeEngine.Successor | src/strict_intake_assistant.py:364-370 | when every successor resolves, the edge out of a node stays in the graph (ask to store, store to the next ask or END) |
| IntakeEngine.BuildGraph | src/strict_intake_assistant.py:355-374 | compilation succeeds exactly when every `next_name` names a step, reports a dangling name otherwise, and on success has entry `ask_{entry}`, both nodes of every step, and exactly the edges ask→store and store→next ask or END |
| IntakeEngine.CompiledEdgesFollowSuccessor | src/strict_intake_assistant.py:364-370 | each compiled node has exactly one outgoing edge, the one the walk follows, and every edge ends at a node or END |
| IntakeEngine.QuestionAdjustments | src/strict_intake_assistant.py:252-286 | the question is the rewritten template except on the injuries step (a thank-you after a no-injury answer) and the medical-treatment step (a comfort line after a no-injury answer, or added emergency advice when treatment was denied or is missing) |
| IntakeEngine.AskStepSpec | src/strict_intake_assistant.py:243-295 | the ask node saves nothing and changes only the transcript; while its step is current it appends the greeting (before any step is completed) and then the step's question, both as assistant turns; otherwise it leaves the state alone |
| IntakeEngine.SavedAnswer | src/strict_intake_assistant.py:149-152 | a store writes one answer row exactly when a non-empty run id exists |
| IntakeEngine.StoreStepSpec | src/strict_intake_assistant.py:298-352 | the store node pauses with the state unchanged exactly when its step is current and no human turn is unconsumed; otherwise, while active, it files the stripped oldest unconsumed turn under the step's key (other keys read as before), completes the step once, moves to the successor or "", advances the cursor by one and logs the answer |
| IntakeEngine.ApplyPreserves | src/strict_intake_assistant.py:243-352 | every node keeps the cursor within the human turns, the completed steps duplicate-free and the keys unique, and only extends the transcript and the completed list |
| IntakeEngine.NodesPreserving | src/strict_intake_assistant.py:243-352 | the compiled node functions all preserve that invariant |
| IntakeEngine.WalkPreserves | src/strict_intake_assistant.py:418 | a whole graph invocation preserves the invariant and only extends the state |
| IntakeEngine.RunGraph | src/strict_intake_assistant.py:418 | the invocation loop computes the walk from `ask_{entry}`: nodes run in edge order until a store pauses, END is reached or the recursion limit is used up, collecting the saved answers in order |
| IntakeEngine.WalkSkips | src/strict_intake_assistant.py:246-249 | nodes that pass the state on unchanged can be skipped: the walk continues from the node `m` edges later |
| IntakeEngine.ApplyInactive | src/strict_intake_assistant.py:300-301 | a node whose step is not current passes the state on unchanged and saves nothing |
| IntakeEngine.NodesInactive | src/strict_intake_assistant.py:246-249 | the compiled node of a non-current step is a no-op |
| IntakeEngine.SkipToCurrent | src/strict_intake_assistant.py:246-249 | the walk from the entry reaches the current step's question with the state untouched |
| IntakeEngine.EntryQuestion | src/strict_intake_assistant.py:256-320 | on a fresh state the entry step's ask node greets and asks, and its store node pauses |
| IntakeEngine.StartAsksEntryQuestion | src/strict_intake_assistant.py:405-421 | starting a session shows the greeting and then the entry step's question, pauses for the first answer, and saves nothing |
| IntakeEngine.AskThenStore | src/strict_intake_assistant.py:243-352 | with one unconsumed human turn, the current step's ask and store nodes file that turn, complete the step, move on, log it and consume every human turn |
| IntakeEngine.NextPauses | src/strict_intake_assistant.py:313-319 | with every human turn consumed, the walk asks the current step's question and pauses (or finishes with no current step) without filing, completing or logging anything |
| IntakeEngine.TurnAnswersCurrentStep | src/strict_intake_assistant.py:447-457 | a turn answers the current step: the reply is filed under its key, the step is completed and logged, and the walk pauses at the next question or finishes at END with every human turn consumed |
| IntakeEngine.SessionEndRecord | src/strict_intake_assistant.py:183-187 | closing a session writes at most one row |
| IntakeEngine.FarewellAfterFinishLogsWords | src/strict_intake_assistant.py:433-443 | after the flow finishes, a farewell logs the user's stripped words as the end reason, never the "user_ended" default |
| IntakeEngine.StrictIntakeAssistant.constructor | src/strict_intake_assistant.py:379-384 | a new assistant has no threads, no answers and no completed runs |
| IntakeEngine.StrictIntakeAssistant.Invoke | src/strict_intake_assistant.py:454 | an invocation stores the walk's final state as the thread's state, appends its saved answers and keeps the invariant for every thread |
| IntakeEngine.StartState | src/strict_intake_assistant.py:408-418 | the state `start` walks from satisfies the state invariant, is at the entry step with no data, no completed steps and the cursor at 0, and keeps the transcript the thread already holds (none for a new thread), as the `add_messages` reducer of line 35 merges the empty list |
| IntakeEngine.StrictIntakeAssistant.Start | src/strict_intake_assistant.py:405-421 | `start` walks the graph from `StartState` of the threads before the call, stores the result as the thread's state, logs the answers saved on the way, and replies with the last assistant text, or fails at the recursion limit |
| IntakeEngine.StrictIntakeAssistant.HandleUser | src/strict_intake_assistant.py:423-457 | once the flow has finished, the thread is never touched: a farewell gets the closing reply, logs the session end and closes the run, or raises with nothing logged when the database client cannot be reached; anything else gets the reminder; otherwise exactly one stripped human turn is appended and the graph is walked again |
| OrderedDict.Get | src/strict_intake_assistant.py:268 | a lookup finds a value exactly for the keys present, and the value stored under that key |
| OrderedDict.Set | src/strict_intake_assistant.py:324 | assignment adds the key; a new key goes at the end, and assigning an existing key keeps the length |
| OrderedDict.GetSet | src/strict_intake_assistant.py:324 | after `d[k] = v`, `k` reads `v` and every other key reads as before |
| OrderedDict.SetKeepsUnique | src/strict_intake_assistant.py:324 | assignment keeps the keys unique |
| OrderedDict.KeysIndex | src/strict_intake_assistant.py:46 | every entry's key is among the keys iterated over |
| Patterns.TokenAt | src/empathetic_rewriter.py:245 | a `NAME_TOKEN` match is a letter followed by letters, hyphens, apostrophes or dots, ending at a word boundary |
| Patterns.FieldAt | src/empathetic_rewriter.py:265 | a "first/last name (is)" field at a position yields a name token |
| Patterns.FieldSearch | src/empathetic_rewriter.py:265 | the leftmost field match yields a name token |
| Patterns.PhraseAt | src/empathetic_rewriter.py:270 | a self-introduction phrase at a position yields one to four name tokens |
| Patterns.PhraseSearch | src/empathetic_rewriter.py:270 | the leftmost self-introduction yields one to four name tokens |
| Patterns.CleanTokenOfNameToken | src/empathetic_rewriter.py:248-253 | cleaning a name token strips its edge punctuation and upper-cases the first letter, giving a clean name |
| Patterns.CleanTokenOfCleanName | src/empathetic_rewriter.py:248-253 | cleaning a clean name leaves it unchanged |
| Patterns.OnlyToken | src/empathetic_rewriter.py:255-259 | a reply that is one name token after trimming is accepted and cleaned; any other reply is refused |
| Patterns.NormalizeName | src/empathetic_rewriter.py:396-401 | the result has at most two words, and they are the first two words of the trimmed input, each cleaned (a word that cleans to nothing drops out) |
| Patterns.JoinFirstTwo | src/empathetic_rewriter.py:401 | joining the cleaned first two parts with one space splits back into exactly those cleaned parts |
| Patterns.CleanTokenWord | src/empathetic_rewriter.py:396-401 | cleaning a token never introduces whitespace |
| Text.SplitWsJoin | src/empathetic_rewriter.py:398-401 | two words joined by one space split back into the two words, dropping empty ones |
| Patterns.NormalizeCleanName | src/empathetic_rewriter.py:396-401 | normalising a clean name leaves it unchanged |
| Patterns.DayYearEnd | src/empathetic_rewriter.py:386 | the day (and optional ", year") of a month date ends in a digit |
| Patterns.MonthDateAt | src/empathetic_rewriter.py:386 | a month-name date match starts with a letter or digit and ends in a digit |
| Patterns.NumericDateAt | src/empathetic_rewriter.py:386 | a `d/m(/y)` date match starts with a letter or digit and ends in a digit |
| Patterns.IsoDateAt | src/empathetic_rewriter.py:386 | a `yyyy-mm-dd` date match starts with a letter or digit and ends in a digit |
| Patterns.DateAt | src/empathetic_rewriter.py:386 | any date match starts with a letter or digit and ends with a digit |
| Patterns.DateSearch | src/empathetic_rewriter.py:390 | the search result is a date match at the reported position |
| Patterns.DateSearchLeftmost | src/empathetic_rewriter.py:390 | no date starts before the reported one (nowhere, when none is reported) |
| EmpatheticRewriter.FirstNameRule | src/empathetic_rewriter.py:261-280 | a first name is a clean capitalised token; the token after a first-name field wins, then the first token of a self-introduction, then a reply that is one name token; none is found exactly when all three are absent |
| EmpatheticRewriter.IntroducedSurname | src/empathetic_rewriter.py:290-295 | "my name is" gives a surname exactly when it is followed by at least two tokens, and it is the last of them, cleaned |
| EmpatheticRewriter.LastNameRule | src/empathetic_rewriter.py:282-302 | a last name is a clean capitalised token; the token after a surname field wins, then the last token after "my name is" when there are two or more, then a reply that is one name token; none is found exactly when all three are absent |
| EmpatheticRewriter.RStrip | src/empathetic_rewriter.py:312 | a right-stripped text does not end in whitespace |
| EmpatheticRewriter.YesNoRule | src/empathetic_rewriter.py:304-315 | a listed yes word gives "Yes" and a listed no word "No"; otherwise a reply starting with "yes" gives "Yes" followed by the rest of the reply after those letters, right-stripped, and one starting with "no" gives "No" and its rest likewise; none is given exactly when none of these applies |
| EmpatheticRewriter.YesNoKeepsDetails | src/empathetic_rewriter.py:311-312 | a stripped reply opening with "yes" keeps everything after those letters behind "Yes" |
| EmpatheticRewriter.AuthorityReport | src/empathetic_rewriter.py:326-336 | the first authority named, in the order police, authority/authorities, state office, helpline, insurance, gives "Yes, to …"; none exactly when no authority is named |
| EmpatheticRewriter.ReportsRule | src/empathetic_rewriter.py:317-350 | a plain yes word gives "Yes" and a plain no word "No"; otherwise the first authority named, in the order police, authority/authorities, state office, helpline, insurance, gives "Yes, to …"; otherwise a reply starting with "yes" gives "Yes, " and its comma-trimmed remainder (or "Yes" when that is empty) and one starting with "no" gives "No"; none is given exactly when none of these applies |
| EmpatheticRewriter.WitnessesRule | src/empathetic_rewriter.py:352-372 | a no-witness reply gives "No"; otherwise "two"/"2" gives "Two" before "one"/"1" gives "One" before "three"/"3" gives "Three"; otherwise a reply joining names with " and " is kept stripped; none is given exactly when none of these applies |
| EmpatheticRewriter.WitnessNamesRule | src/empathetic_rewriter.py:374-384 | a listed don't-know reply gives "Unknown names"; any other answer is the stripped reply, given exactly when it contains " and " or has at least two words |
| EmpatheticRewriter.DateRule | src/empathetic_rewriter.py:388-393 | a date is returned exactly when the date pattern matches somewhere |
| EmpatheticRewriter.DateRuleIsMatch | src/empathetic_rewriter.py:388-393 | the returned date is exactly the leftmost match, since a match never ends in a comma, dot or space |
| EmpatheticRewriter.CleanSpan | src/empathetic_rewriter.py:392 | trimming and dropping trailing ",." leave a date match unchanged |
| EmpatheticRewriter.TypeOf | src/empathetic_rewriter.py:515-550 | a question is a first-name question exactly when it mentions "first name" or "given name"; a general question never mentions witnesses |
| EmpatheticRewriter.RuleExtract | src/empathetic_rewriter.py:589-619 | the dispatcher sends medical-treatment questions to the yes/no rule, date questions to the date rule, report questions to the reports rule and the two witness questions to their rules; location, injury and general questions have no rule; a description is the stripped reply, kept exactly when longer than five characters |
| EmpatheticRewriter.RuleExtractNames | src/empathetic_rewriter.py:591-596 | for name questions the dispatcher returns the name rules' values unchanged (normalising a clean name is the identity) |
| EmpatheticRewriter.ParseValidation | src/empathetic_rewriter.py:621-632 | "VALID_CORRECTED:" gives the trimmed correction, another "VALID" prefix the extraction, "INVALID:" gives invalid with the trimmed message, and anything else is valid with the extraction |
| EmpatheticRewriter.ExtractAndValidate | src/empathetic_rewriter.py:450-500 | an empty question or reply is valid as is, and a blank reply is valid and empty; a valid verdict has no message; an invalid verdict needs the validator to have answered with "INVALID:" |
| EmpatheticRewriter.ValidatorDecides | src/empathetic_rewriter.py:469-500 | without a usable rule value, an answering validator decides the verdict on the model's stripped extraction, or on the stripped reply when that call raised |
| EmpatheticRewriter.RuleDecides | src/empathetic_rewriter.py:464-467 | a non-empty rule value is the answer, whatever the language model says |
| EmpatheticRewriter.FallBackToModel | src/empathetic_rewriter.py:471-500 | without a rule value, the model's stripped extraction (the reply itself if that call raised) is accepted unless the validator rejects or corrects it |
| EmpatheticRewriter.FreshRewrite | src/empathetic_rewriter.py:431-444 | a fresh rewrite of a non-empty text is non-empty: the model's stripped reply or the text itself |
| EmpatheticRewriter.FallbackGreeting | src/empathetic_rewriter.py:509-510 | the fallback greeting names the firm right after "Thank you for calling " |
| EmpatheticRewriter.Rewriter.constructor | src/empathetic_rewriter.py:419 | the cache starts empty |
| EmpatheticRewriter.Rewriter.Rewrite | src/empathetic_rewriter.py:423-446 | an empty text gives "" without caching; a cached text gives its cached rewrite; a new text is rewritten and cached; cached entries never change |
| EmpatheticRewriter.Rewriter.Greeting | src/empathetic_rewriter.py:502-512 | the greeting is cached under `greet::agent::firm` and never recomputed |
| EmpatheticRewriter.RewriteIsStable | src/empathetic_rewriter.py:426-428 | asking twice for the same rewrite gives the same text, whatever the model answers the second time |
| ExtractionExamples.SrushtiExample | src/empathetic_rewriter.py:643 | "My first name is Srushti Jagtap" gives the first name "Srushti" |
| ExtractionExamples.YesErExample | src/empathetic_rewriter.py:648 | "Yes, I went to the ER" is kept as "Yes, I went to the ER" |
| ExtractionExamples.PoliceExample | src/empathetic_rewriter.py:656 | "Yes, I called the police" is reported as "Yes, to police" |
| ExtractionExamples.NoReportsExample | src/empathetic_rewriter.py:657 | "No reports made" is reported as "No" |
| ExtractionExamples.MarchDateExample | src/empathetic_rewriter.py:386-393 | "It happened on March 15th, 2024" gives the date "March 15": the ordinal suffix stops the optional year |
| ExtractionExamples.IsoDateExample | src/empathetic_rewriter.py:386-393 | "2025-09-04" is taken whole as the date |
| ExtractionExamples.UnknownNamesExample | src/empathetic_rewriter.py:374-384 | a reply reading "Unknown names" is not a don't-know reply but is kept as two names, so the answer "Unknown names" does not identify the don't-know case |
| ExtractionExamples.OneOrTwoExample | src/empathetic_rewriter.py:360-363 | "two" is looked for before "one", so "One or two" counts as "Two" |
| IntakeFlowVisualizer.StepMap | flow_ui/src/components/IntakeFlowVisualizer.tsx:179 | the lookup table covers exactly the step names and files each step under its own name |
| IntakeFlowVisualizer.StepMapUnique | flow_ui/src/components/IntakeFlowVisualizer.tsx:179 | with unique names, each step is what its name looks up |
| IntakeFlowVisualizer.FirstUnpointed | flow_ui/src/components/IntakeFlowVisualizer.tsx:184 | the scan finds the first step nobody points to, or reports that every step is pointed to |
| IntakeFlowVisualizer.EntryNameSpec | flow_ui/src/components/IntakeFlowVisualizer.tsx:183-184 | the entry is the first step in array order that no `next_name` points to, else the first step, else "" |
| IntakeFlowVisualizer.ChooseEntry | flow_ui/src/components/IntakeFlowVisualizer.tsx:183-184 | the entry loop computes that entry |
| IntakeFlowVisualizer.Chain | flow_ui/src/components/IntakeFlowVisualizer.tsx:186-193 | the chain starts at the entry and holds only known, unvisited, non-empty names |
| IntakeFlowVisualizer.ChainStep | flow_ui/src/components/IntakeFlowVisualizer.tsx:191-193 | a known, unvisited name is placed and the walk follows its trimmed `next_name`; the unvisited set shrinks, so the walk ends even on cycles |
| IntakeFlowVisualizer.ChainDistinct | flow_ui/src/components/IntakeFlowVisualizer.tsx:191-193 | the chain visits each step at most once |
| IntakeFlowVisualizer.ChainFollowsNext | flow_ui/src/components/IntakeFlowVisualizer.tsx:259 | each chain step is followed by its trimmed `next_name` |
| IntakeFlowVisualizer.Orphans | flow_ui/src/components/IntakeFlowVisualizer.tsx:263-264 | the orphans are exactly the steps whose names the chain did not visit |
| IntakeFlowVisualizer.OrphansCount | flow_ui/src/components/IntakeFlowVisualizer.tsx:263-264 | orphans and visited steps together account for every step |
| IntakeFlowVisualizer.PlacementUnique | flow_ui/src/components/IntakeFlowVisualizer.tsx:191-270 | with unique names every step gets exactly one ask node: the placement is a permutation of the steps |
| IntakeFlowVisualizer.PlacementCount | flow_ui/src/components/IntakeFlowVisualizer.tsx:191-270 | with unique names as many steps are placed as there are steps |
| IntakeFlowVisualizer.PlacedAreSteps | flow_ui/src/components/IntakeFlowVisualizer.tsx:191-270 | every placed step is a step of the flow |
| IntakeFlowVisualizer.StepsArePlaced | flow_ui/src/components/IntakeFlowVisualizer.tsx:191-270 | every step of the flow is placed |
| IntakeFlowVisualizer.AskNodeOf | flow_ui/src/components/IntakeFlowVisualizer.tsx:194-196 | an ask node is `ask_<name>`, active exactly when its step is current, and completed exactly when its step is in the completed list |
| IntakeFlowVisualizer.Links | flow_ui/src/components/IntakeFlowVisualizer.tsx:231-253 | there is one edge per placed step |
| IntakeFlowVisualizer.LinksSnoc | flow_ui/src/components/IntakeFlowVisualizer.tsx:300-321 | placing one more step adds one edge, from START for the first step and from the previously placed node otherwise |
| IntakeFlowVisualizer.PlacementNonEmpty | flow_ui/src/components/IntakeFlowVisualizer.tsx:191-270 | something is placed exactly when there are steps |
| IntakeFlowVisualizer.LayoutCounts | flow_ui/src/components/IntakeFlowVisualizer.tsx:156-364 | with unique names, n steps give n+2 nodes, and n+1 edges when n ≥ 1 (none when n = 0) |
| IntakeFlowVisualizer.LayoutIsPath | flow_ui/src/components/IntakeFlowVisualizer.tsx:231-364 | with named steps the edges link START, the placed ask nodes and END into one path, each edge joining consecutive nodes |
| IntakeFlowVisualizer.EndNodeStatus | flow_ui/src/components/IntakeFlowVisualizer.tsx:330 | END is the last node and is completed exactly when the current step or the session status is "completed" |
| IntakeFlowVisualizer.GenerateFlowVisualization | flow_ui/src/components/IntakeFlowVisualizer.tsx:145-372 | the procedure builds START, the placed ask nodes and END, and the chain of edges of the layout |
| IntakeFlowVisualizer.PlaceStep | flow_ui/src/components/IntakeFlowVisualizer.tsx:199-257 | placing a step appends its ask node and the edge into it, and records it as the last placed |
| IntakeFlowVisualizer.WalkChain | flow_ui/src/components/IntakeFlowVisualizer.tsx:186-260 | the chain loop visits exactly the chain from the entry and lays out its steps in chain order |
| IntakeFlowVisualizer.PlaceOrphans | flow_ui/src/components/IntakeFlowVisualizer.tsx:263-325 | the orphan loop lays out the unvisited steps after the chain, in array order |
| IntakeFlowVisualizer.WalkEnd | flow_ui/src/components/IntakeFlowVisualizer.tsx:191 | the chain loop stops at a blank, unknown or already visited name, having placed the whole chain |
| IntakeFlowVisualizer.CollapseRuns | flow_ui/src/components/IntakeFlowVisualizer.tsx:448 | replacing runs of other characters by "_" leaves only `[a-z0-9_]` with no doubled "_" |
| IntakeFlowVisualizer.TrimUnderscores | flow_ui/src/components/IntakeFlowVisualizer.tsx:448 | removing edge underscores leaves no "_" at either end |
| IntakeFlowVisualizer.Slugify | flow_ui/src/components/IntakeFlowVisualizer.tsx:448 | a slug is non-empty, lowercase `[a-z0-9_]` only, with no doubled, leading or trailing "_" |
| IntakeFlowVisualizer.SlugStagesFixed | flow_ui/src/components/IntakeFlowVisualizer.tsx:448 | the stages of `slugify` (lower-case, trim, collapse runs, trim underscores) give a slug back unchanged |
| IntakeFlowVisualizer.SlugifyIdempotent | flow_ui/src/components/IntakeFlowVisualizer.tsx:448 | slugifying a slug gives the same slug |
| IntakeFlowVisualizer.LastByOrder | flow_ui/src/components/IntakeFlowVisualizer.tsx:460-462 | the reduce picks a step with the largest `order_index`, the last such step on ties |
| IntakeFlowVisualizer.ConfirmNewQuestion | flow_ui/src/components/IntakeFlowVisualizer.tsx:450-474 | nothing is sent for a blank prompt or an empty position; "__END__" resolves to the last step by order (an empty catalogue makes the reduce throw); the prompt is trimmed; the key is slugified only when not blank; fixed system prompt and flow name |
| IntakeFlowVisualizer.UpdateStep | flow_ui/src/components/IntakeFlowVisualizer.tsx:483-490 | nothing is sent without a selected step; a blank prompt is left unset; "__END__" or an empty choice clears `next_name`, and any other choice is sent unchanged |
| VoiceAgent.SepLenZero | src/agent.py:199 | a separator starts exactly at a newline or at whitespace following ".", "!" or "?" |
| VoiceAgent.SepLenRun | src/agent.py:199 | a separator is a maximal run of newlines, or of whitespace after a sentence end |
| VoiceAgent.CutsRejoin | src/agent.py:199 | the split pieces and their separators concatenate back to the text |
| VoiceAgent.CutsUnbroken | src/agent.py:199 | no piece contains a newline or a sentence end followed by whitespace |
| VoiceAgent.Spoken | src/agent.py:194 | keeping the stripped non-blank items never yields a blank item |
| VoiceAgent.SpokenStripped | src/agent.py:194 | every kept item is stripped |
| VoiceAgent.SpokenAppend | src/agent.py:194 | items are kept in order, item by item |
| VoiceAgent.SpokenOne | src/agent.py:194 | a blank item is dropped and any other item is kept stripped |
| VoiceAgent.SpokenUnbroken | src/agent.py:199 | stripping and dropping blanks keeps the pieces unbroken |
| VoiceAgent.Chunks | src/agent.py:189-199 | falsy input gives no chunks, and no chunk is blank |
| VoiceAgent.ChunksStripped | src/agent.py:194-199 | every chunk is stripped |
| VoiceAgent.ReplyChunksUnbroken | src/agent.py:197-199 | no chunk of a reply contains a newline or whitespace after a sentence end |
| VoiceAgent.ReplyPiecesRejoin | src/agent.py:197-199 | the pieces of a reply, rejoined with their separators, give back the stripped reply |
| VoiceAgent.LinesChunks | src/agent.py:193-194 | a list yields the stripped forms of its non-blank items, in order |
| VoiceAgent.Speaker.Speak | src/agent.py:162-178 | a blank text is not spoken; any other text is spoken once |
| VoiceAgent.Speaker.SpeakAll | src/agent.py:189-201 | exactly the chunks are spoken, in order |
| VoiceAgent.Speaker.SayEach | src/agent.py:200-201 | each non-blank item is spoken, in order |
| VoiceAgent.SessionIdFor | src/agent.py:82 | a fresh session id is "injury_" followed by the UUID text |
| VoiceAgent.ClosingEndsSession | src/agent.py:113 | the closing reply contains both "Thanks, your intake is saved" and "Goodbye!", so it rotates the session |
| VoiceAgent.ReminderKeepsSession | src/agent.py:113 | the finished-flow reminder does not rotate the session |
| VoiceAgent.NotCaughtKeepsSession | src/agent.py:113 | the blank-input reply does not rotate the session |
| VoiceAgent.ApologyKeepsSession | src/agent.py:113 | the empty-reply apology does not rotate the session |
| VoiceAgent.TechnicalIssueKeepsSession | src/agent.py:113 | the technical-issue reply does not rotate the session |
| VoiceAgent.InjuryAgent.constructor | src/agent.py:63-78 | a new agent has no assistant and is not initialised; its session id is the forced one when given and non-empty, else "injury_" plus a fresh UUID |
| VoiceAgent.InjuryAgent.NewSession | src/agent.py:80-82 | rotating changes only the session id, to "injury_" plus a fresh UUID |
| VoiceAgent.InjuryAgent.InitializeConversation | src/agent.py:84-100 | `start` runs at most once: later calls answer "Hello! How can I help you today?" and touch nothing; the first call sets the flag even when it fails, walks from `StartState` of the threads before the call, and replies with the start reply or the technical-difficulties line |
| VoiceAgent.InjuryAgent.HandleUserMessage | src/agent.py:102-128 | blank input is answered without the assistant; otherwise the stripped text goes to `handle_user`; a failed session-end save gets the technical-issue line and keeps the session; the session id changes exactly when the reply holds both closing markers, and then to a fresh "injury_" id |

## Left out

- Database access (`supa`, `_select_one_id`, `get_or_create_run_id`, `mark_run_completed` and the inserts of `save_answer`) is network I/O. The run id is a parameter (`None` when no run could be found or created), answer rows go to an append-only log, and completed runs go to a list. The store node swallows failures of these calls, so its failures are not modelled. The farewell path lets them through; that failure is the `endFails` parameter of `HandleUser`, which stands for the database client being unreachable while the session end is saved.
- The language-model chains (rewrite, extraction, validation, greeting) are foreign calls. Their answers are parameters: `Option<string>`, where `None` means the call raised. The prompt templates and `openai_chat` are not part of this model.
- LangGraph internals are framework code:
  - `StateGraph` compilation is reduced to the compiled node and edge sets;
  - `MemorySaver` is the `threads` map;
  - `interrupt` is a suspended walk;
  - the recursion limit is the walk's fuel.
- The `add_messages` merge is modelled only where it changes the outcome: in `IntakeEngine.StrictIntakeAssistant.Start`, where the empty input list is merged into the thread's old transcript (`IntakeEngine.StartState`). Inside a walk, the nodes return the whole transcript and it replaces the old one. The reducer's replacement of messages by id does not arise, because every message is new.
- IntakeEngine.StrictIntakeAssistant.Invoke: at the recursion limit the model still stores the walk's last state as the thread's state. LangGraph's checkpoint after a `GraphRecursionError` is framework behaviour and is not modelled.
- The `dict`-typed messages in `last_ai_text` (role/type keys, non-string content) are not modelled. Transcripts hold typed human and assistant messages only.
- Case folding is ASCII only. Python's `lower()`/`upper()` and `re.I` also fold non-ASCII letters.
- The regex classes `\w`, `\b` and `\d` are ASCII in the model. In Python `str` patterns they are Unicode-aware, so a non-ASCII letter or digit next to a farewell word, a name token or a date changes `FAREWELL_RE`, `NAME_TOKEN` boundaries and `DATE_PAT` in the source but not in the model.
- The class-body `extract_reports_rule` (src/empathetic_rewriter.py:553-588) is never reached. `_rule_extract` calls the module-level rule, so only that rule is modelled.
- EmpatheticRewriter.TypeOf: the contract states only the first-name case and the witness exclusion for general questions. The full first-match order of the keyword groups is given by the function's definition, which follows the source's if-chain.
- IntakeEngine.AdjustQuestion has no contract of its own; `IntakeEngine.QuestionAdjustments` states its cases.
- `emit_event` and the session start/end events are left out. They are not defined in any file of this model.
- Voice plumbing is concurrency and audio I/O: the STT/TTS session, `speaking_lock`, the message-queue worker, event hooks, environment checks and logging. `speak` is reduced to a log of spoken texts. The list items of `speak_all` are already strings, so `str(x)` is the identity.
- IntakeFlowVisualizer: React state, styles, pixel positions, debouncing and `findNearestAskNode` (floating-point distances) are UI only. The insert and update handlers return the request they would send; the network call and the modal state are not modelled.
- Timing, `print` and `dbg` are left out.
