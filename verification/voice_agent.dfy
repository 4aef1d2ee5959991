/**
 * The voice agent around the intake assistant: how a reply is cut into the
 * chunks the speech engine says one after another, and the agent object that
 * starts the conversation once, forwards each utterance to the assistant, and
 * moves to a fresh session id after the closing line.
 */
module VoiceAgent {
  import opened Wrappers
  import opened Text
  import opened IntakeEngine

  // --------------------------------------------------------------- chunking

  predicate IsSentenceEnd(c: char) { c == '.' || c == '!' || c == '?' }

  predicate IsNewline(c: char) { c == '\n' }

  /** The lookbehind `(?<=[.!?])` followed by a `\s` character, at `i`. */
  predicate BreakAt(s: string, i: nat)
    requires i < |s|
  {
    i > 0 && IsSentenceEnd(s[i - 1]) && IsPySpace(s[i])
  }

  /** Length of the run of newlines starting at `i`. */
  function NewlineRun(s: string, i: nat): (n: nat)
    requires i <= |s|
    ensures i + n <= |s|
    decreases |s| - i
  {
    if i < |s| && s[i] == '\n' then 1 + NewlineRun(s, i + 1) else 0
  }

  /** Length of the run of whitespace starting at `i`. */
  function SpaceRun(s: string, i: nat): (n: nat)
    requires i <= |s|
    ensures i + n <= |s|
    decreases |s| - i
  {
    if i < |s| && IsPySpace(s[i]) then 1 + SpaceRun(s, i + 1) else 0
  }

  /** A newline run holds newlines only and stops before the next non-newline. */
  lemma {:induction false} NewlineRunIsRun(s: string, i: nat)
    requires i <= |s|
    ensures forall k :: i <= k < i + NewlineRun(s, i) ==> s[k] == '\n'
    ensures i + NewlineRun(s, i) < |s| ==> s[i + NewlineRun(s, i)] != '\n'
    decreases |s| - i
  {
    if i < |s| && s[i] == '\n' {
      NewlineRunIsRun(s, i + 1);
    }
  }

  /** A whitespace run holds whitespace only and stops before the next non-space. */
  lemma {:induction false} SpaceRunIsRun(s: string, i: nat)
    requires i <= |s|
    ensures forall k :: i <= k < i + SpaceRun(s, i) ==> IsPySpace(s[k])
    ensures i + SpaceRun(s, i) < |s| ==> !IsPySpace(s[i + SpaceRun(s, i)])
    decreases |s| - i
  {
    if i < |s| && IsPySpace(s[i]) {
      SpaceRunIsRun(s, i + 1);
    }
  }

  /**
   * Length of the match of `\n+|(?<=[.!?])\s+` at `i`, 0 when neither
   * alternative matches. The alternatives are tried in order and each run is
   * greedy.
   */
  function SepLen(s: string, i: nat): (n: nat)
    requires i <= |s|
    ensures i + n <= |s|
  {
    if i == |s| then 0
    else if s[i] == '\n' then NewlineRun(s, i)
    else if BreakAt(s, i) then SpaceRun(s, i)
    else 0
  }

  /** A separator starts exactly at a newline or at a sentence break. */
  lemma SepLenZero(s: string, i: nat)
    requires i < |s|
    ensures SepLen(s, i) == 0 <==> s[i] != '\n' && !BreakAt(s, i)
  {
  }

  /** A separator is whitespace, and its run is as long as it can be. */
  lemma SepLenRun(s: string, i: nat)
    requires i < |s| && SepLen(s, i) > 0
    ensures forall k :: i <= k < i + SepLen(s, i) ==> IsPySpace(s[k])
    ensures i + SepLen(s, i) < |s| && s[i] == '\n' ==> s[i + SepLen(s, i)] != '\n'
    ensures i + SepLen(s, i) < |s| && s[i] != '\n' ==> !IsPySpace(s[i + SepLen(s, i)])
  {
    if s[i] == '\n' {
      NewlineRunIsRun(s, i);
    } else {
      SpaceRunIsRun(s, i);
    }
  }

  /** A piece of the split and the separator text that follows it ("" after the last piece). */
  datatype Cut = Cut(text: string, sep: string)

  /**
   * `re.split` of `s[start..]` at the separator matches, scanning from `i`:
   * `s[start..i]` holds no match yet.
   */
  function Cuts(s: string, start: nat, i: nat): (r: seq<Cut>)
    requires start <= i <= |s|
    ensures |r| >= 1 && r[|r| - 1].sep == []
    decreases |s| - i
  {
    if i == |s| then [Cut(s[start..], [])]
    else
      var n := SepLen(s, i);
      if n > 0 then [Cut(s[start..i], s[i..i + n])] + Cuts(s, i + n, i + n)
      else Cuts(s, start, i + 1)
  }

  /** The pieces and separators written back one after another. */
  function Rejoined(cs: seq<Cut>): string {
    if cs == [] then [] else cs[0].text + cs[0].sep + Rejoined(cs[1..])
  }

  /** One scanning step of `Cuts`. */
  lemma CutsStep(s: string, start: nat, i: nat)
    requires start <= i < |s|
    ensures SepLen(s, i) > 0 ==>
              Cuts(s, start, i) == [Cut(s[start..i], s[i..i + SepLen(s, i)])] + Cuts(s, i + SepLen(s, i), i + SepLen(s, i))
    ensures SepLen(s, i) == 0 ==> Cuts(s, start, i) == Cuts(s, start, i + 1)
  {
  }

  lemma RejoinedCons(c: Cut, rest: seq<Cut>)
    ensures Rejoined([c] + rest) == c.text + c.sep + Rejoined(rest)
  {
    assert ([c] + rest)[1..] == rest;
  }

  lemma SliceThree(s: string, a: nat, b: nat, c: nat)
    requires a <= b <= c <= |s|
    ensures s[a..] == s[a..b] + s[b..c] + s[c..]
  {
  }

  lemma RejoinAtEnd(s: string, start: nat)
    requires start <= |s|
    ensures RejoinsFrom(s, start, |s|)
  {
    var c := Cut(s[start..], []);
    assert Cuts(s, start, |s|) == [c] + [];
    RejoinedCons(c, []);
  }

  /** The pieces scanned from `i`, put back together, give the text from `start`. */
  ghost predicate RejoinsFrom(s: string, start: nat, i: nat)
    requires start <= i <= |s|
  {
    Rejoined(Cuts(s, start, i)) == s[start..]
  }

  lemma RejoinAtSeparator(s: string, start: nat, i: nat)
    requires start <= i < |s| && SepLen(s, i) > 0
    requires RejoinsFrom(s, i + SepLen(s, i), i + SepLen(s, i))
    ensures RejoinsFrom(s, start, i)
  {
    var n := SepLen(s, i);
    var c := Cut(s[start..i], s[i..i + n]);
    var rest := Cuts(s, i + n, i + n);
    CutsStep(s, start, i);
    RejoinedCons(c, rest);
    SliceThree(s, start, i, i + n);
  }

  lemma RejoinScan(s: string, start: nat, i: nat)
    requires start <= i < |s| && SepLen(s, i) == 0
    requires RejoinsFrom(s, start, i + 1)
    ensures RejoinsFrom(s, start, i)
  {
    CutsStep(s, start, i);
  }

  /** Splitting loses nothing: the pieces and separators put back together give the text. */
  lemma {:induction false} CutsRejoin(s: string, start: nat, i: nat)
    requires start <= i <= |s|
    ensures RejoinsFrom(s, start, i)
    decreases |s| - i
  {
    if i == |s| {
      RejoinAtEnd(s, start);
    } else {
      var start', i' := RejoinStep(s, start, i);
      CutsRejoin(s, start', i');
    }
  }

  /** One step of the scan: where it goes on from `i`, and what is left to show from there. */
  lemma RejoinStep(s: string, start: nat, i: nat) returns (start': nat, i': nat)
    requires start <= i < |s|
    ensures start' <= i' <= |s| && i < i'
    ensures RejoinsFrom(s, start', i') ==> RejoinsFrom(s, start, i)
  {
    var n := SepLen(s, i);
    if n > 0 {
      start', i' := i + n, i + n;
      if RejoinsFrom(s, start', i') {
        RejoinAtSeparator(s, start, i);
      }
    } else {
      start', i' := start, i + 1;
      if RejoinsFrom(s, start', i') {
        RejoinScan(s, start, i);
      }
    }
  }

  /** No separator match inside: no newline, and no whitespace right after sentence punctuation. */
  predicate Unbroken(t: string) {
    forall k :: 0 <= k < |t| ==> t[k] != '\n' && !BreakAt(t, k)
  }

  lemma UnbrokenSnoc(t: string, c: char)
    requires Unbroken(t) && c != '\n'
    requires t == [] || !IsSentenceEnd(t[|t| - 1]) || !IsPySpace(c)
    ensures Unbroken(t + [c])
  {
    var u := t + [c];
    forall k | 0 <= k < |u|
      ensures u[k] != '\n' && !BreakAt(u, k)
    {
      if k < |t| {
        assert u[k] == t[k];
        assert k > 0 ==> u[k - 1] == t[k - 1];
        assert !BreakAt(t, k);
      }
    }
  }

  /** A slice of unbroken text is unbroken. */
  lemma UnbrokenSlice(t: string, a: nat, b: nat)
    requires a <= b <= |t| && Unbroken(t)
    ensures Unbroken(t[a..b])
  {
    var u := t[a..b];
    forall k | 0 <= k < |u|
      ensures u[k] != '\n' && !BreakAt(u, k)
    {
      assert u[k] == t[a + k];
      assert k > 0 ==> u[k - 1] == t[a + k - 1];
      assert !BreakAt(t, a + k);
    }
  }

  /** Scanning past a position where no separator starts keeps the current piece unbroken. */
  lemma UnbrokenScan(s: string, start: nat, i: nat)
    requires start <= i < |s| && SepLen(s, i) == 0 && Unbroken(s[start..i])
    ensures Unbroken(s[start..i + 1])
  {
    SepLenZero(s, i);
    assert s[start..i + 1] == s[start..i] + [s[i]];
    assert i > start ==> s[start..i][i - start - 1] == s[i - 1];
    UnbrokenSnoc(s[start..i], s[i]);
  }

  /** Pieces from all cuts share the property of the first and of the rest. */
  lemma UnbrokenCons(c: Cut, rest: seq<Cut>)
    requires Unbroken(c.text) && forall d :: d in rest ==> Unbroken(d.text)
    ensures forall d :: d in [c] + rest ==> Unbroken(d.text)
  {
  }

  /** Every piece scanned from `i` is free of separator matches. */
  ghost predicate PiecesUnbroken(s: string, start: nat, i: nat)
    requires start <= i <= |s|
  {
    forall c :: c in Cuts(s, start, i) ==> Unbroken(c.text)
  }

  /** The last piece, running to the end of the text, is unbroken when the scanned text is. */
  lemma UnbrokenAtEnd(s: string, start: nat)
    requires start <= |s| && Unbroken(s[start..|s|])
    ensures PiecesUnbroken(s, start, |s|)
  {
    var c := Cut(s[start..], []);
    assert s[start..] == s[start..|s|];
    assert Cuts(s, start, |s|) == [c] + [];
    UnbrokenCons(c, []);
  }

  /** At a separator the piece so far is cut off in front of the later pieces. */
  lemma UnbrokenAtSeparator(s: string, start: nat, i: nat)
    requires start <= i < |s| && SepLen(s, i) > 0 && Unbroken(s[start..i])
    requires PiecesUnbroken(s, i + SepLen(s, i), i + SepLen(s, i))
    ensures PiecesUnbroken(s, start, i)
  {
    var n := SepLen(s, i);
    CutsStep(s, start, i);
    UnbrokenCons(Cut(s[start..i], s[i..i + n]), Cuts(s, i + n, i + n));
  }

  /** Scanning past a non-separator leaves the pieces as they are. */
  lemma UnbrokenPass(s: string, start: nat, i: nat)
    requires start <= i < |s| && SepLen(s, i) == 0
    requires PiecesUnbroken(s, start, i + 1)
    ensures PiecesUnbroken(s, start, i)
  {
    CutsStep(s, start, i);
  }

  /** One step of the scan: where it goes on from `i`, still inside an unbroken piece. */
  lemma UnbrokenStep(s: string, start: nat, i: nat) returns (start': nat, i': nat)
    requires start <= i < |s| && Unbroken(s[start..i])
    ensures start' <= i' <= |s| && i < i' && Unbroken(s[start'..i'])
    ensures PiecesUnbroken(s, start', i') ==> PiecesUnbroken(s, start, i)
  {
    var n := SepLen(s, i);
    if n > 0 {
      start', i' := i + n, i + n;
      assert s[start'..i'] == [];
      if PiecesUnbroken(s, start', i') {
        UnbrokenAtSeparator(s, start, i);
      }
    } else {
      UnbrokenScan(s, start, i);
      start', i' := start, i + 1;
      if PiecesUnbroken(s, start', i') {
        UnbrokenPass(s, start, i);
      }
    }
  }

  /** Every piece of the split is free of separator matches. */
  lemma {:induction false} CutsUnbroken(s: string, start: nat, i: nat)
    requires start <= i <= |s| && Unbroken(s[start..i])
    ensures PiecesUnbroken(s, start, i)
    decreases |s| - i
  {
    if i == |s| {
      UnbrokenAtEnd(s, start);
    } else {
      var start', i' := UnbrokenStep(s, start, i);
      CutsUnbroken(s, start', i');
    }
  }

  /** `[p.strip() for p in items if p.strip()]`, also written `str(x).strip()` over a list. */
  function Spoken(items: seq<string>): (r: seq<string>)
    ensures |r| <= |items|
    ensures forall k :: 0 <= k < |r| ==> !IsBlank(r[k])
  {
    if items == [] then []
    else
      var t := Strip(items[0]);
      if t == [] then Spoken(items[1..]) else [t] + Spoken(items[1..])
  }

  /** Every kept item is already stripped. */
  lemma {:induction false} SpokenStripped(items: seq<string>)
    ensures forall k :: 0 <= k < |Spoken(items)| ==> Strip(Spoken(items)[k]) == Spoken(items)[k]
  {
    if items != [] {
      var rest := Spoken(items[1..]);
      SpokenStripped(items[1..]);
      var t := Strip(items[0]);
      if t != [] {
        StripByIdempotent(items[0], IsPySpace);
        assert Strip(t) == t;
        var r := Spoken(items);
        assert r == [t] + rest;
        forall k | 0 < k < |r|
          ensures Strip(r[k]) == r[k]
        {
          assert r[k] == rest[k - 1];
        }
      }
    }
  }

  /** Keeping the stripped non-blank items goes item by item, in order. */
  lemma {:induction false} SpokenAppend(a: seq<string>, b: seq<string>)
    ensures Spoken(a + b) == Spoken(a) + Spoken(b)
  {
    if a == [] {
      assert a + b == b;
    } else {
      assert (a + b)[1..] == a[1..] + b;
      SpokenAppend(a[1..], b);
    }
  }

  /** One item is kept, stripped, exactly when it is not blank. */
  lemma SpokenOne(x: string)
    ensures Spoken([x]) == if IsBlank(x) then [] else [Strip(x)]
  {
    BlankIffStripEmpty(x);
    assert [x][1..] == [];
  }

  /** No item holds a separator match. */
  ghost predicate AllUnbroken(xs: seq<string>) {
    forall k :: 0 <= k < |xs| ==> Unbroken(xs[k])
  }

  lemma AllUnbrokenTail(xs: seq<string>)
    requires xs != [] && AllUnbroken(xs)
    ensures AllUnbroken(xs[1..])
  {
    forall k | 0 <= k < |xs| - 1
      ensures Unbroken(xs[1..][k])
    {
      assert xs[1..][k] == xs[k + 1];
    }
  }

  lemma AllUnbrokenCons(t: string, rest: seq<string>)
    requires Unbroken(t) && AllUnbroken(rest)
    ensures AllUnbroken([t] + rest)
  {
    var r := [t] + rest;
    forall k | 0 <= k < |r|
      ensures Unbroken(r[k])
    {
      if k > 0 {
        assert r[k] == rest[k - 1];
      }
    }
  }

  /** Stripping cuts a piece of text out of the middle, so it adds no separator match. */
  lemma StripUnbroken(x: string)
    requires Unbroken(x)
    ensures Unbroken(Strip(x))
  {
    UnbrokenSlice(x, LeadCount(x, IsPySpace), LeadCount(x, IsPySpace) + |Strip(x)|);
  }

  /** Stripping and dropping blanks keeps pieces free of separator matches. */
  lemma {:induction false} SpokenUnbroken(items: seq<string>)
    requires AllUnbroken(items)
    ensures AllUnbroken(Spoken(items))
  {
    if items != [] {
      AllUnbrokenTail(items);
      SpokenUnbroken(items[1..]);
      var t := Strip(items[0]);
      if t != [] {
        StripUnbroken(items[0]);
        AllUnbrokenCons(t, Spoken(items[1..]));
      }
    }
  }

  function Texts(cs: seq<Cut>): (r: seq<string>)
    ensures |r| == |cs| && forall k :: 0 <= k < |cs| ==> r[k] == cs[k].text
  {
    seq(|cs|, k requires 0 <= k < |cs| => cs[k].text)
  }

  /** What `speak_all` is given: one reply text, or a list (or tuple) of lines. */
  datatype Utterance = Reply(text: string) | Lines(items: seq<string>)

  /** Python truthiness of the argument. */
  predicate Falsy(u: Utterance) {
    match u
    case Reply(t) => t == []
    case Lines(xs) => xs == []
  }

  /** The pieces of a reply text after stripping it and splitting at newline runs and sentence breaks. */
  function Pieces(t: string): seq<string> {
    Texts(Cuts(Strip(t), 0, 0))
  }

  /** The chunks `speak_all` says, in order: none for a falsy argument. */
  function Chunks(u: Utterance): (r: seq<string>)
    ensures Falsy(u) ==> r == []
    ensures forall k :: 0 <= k < |r| ==> !IsBlank(r[k])
  {
    if Falsy(u) then []
    else
      match u
      case Reply(t) => Spoken(Pieces(t))
      case Lines(xs) => Spoken(xs)
  }

  /** Every chunk is said already stripped of surrounding whitespace. */
  lemma ChunksStripped(u: Utterance)
    ensures forall k :: 0 <= k < |Chunks(u)| ==> Strip(Chunks(u)[k]) == Chunks(u)[k]
  {
    match u
    case Reply(t) => SpokenStripped(Pieces(t));
    case Lines(xs) => SpokenStripped(xs);
  }

  /** A reply's chunks hold no newline and no whitespace right after '.', '!' or '?'. */
  lemma ReplyChunksUnbroken(t: string)
    ensures forall k :: 0 <= k < |Chunks(Reply(t))| ==> Unbroken(Chunks(Reply(t))[k])
  {
    if t != [] {
      var s := Strip(t);
      assert s[0..0] == [];
      CutsUnbroken(s, 0, 0);
      var cs := Cuts(s, 0, 0);
      assert forall k :: 0 <= k < |cs| ==> cs[k] in cs;
      assert AllUnbroken(Pieces(t));
      SpokenUnbroken(Pieces(t));
    }
  }

  /** The pieces of a reply, with the separators between them, make up the stripped reply. */
  lemma ReplyPiecesRejoin(t: string)
    ensures Rejoined(Cuts(Strip(t), 0, 0)) == Strip(t)
    ensures Pieces(t) == Texts(Cuts(Strip(t), 0, 0))
  {
    CutsRejoin(Strip(t), 0, 0);
    assert Strip(t)[0..] == Strip(t);
  }

  /** A list argument is said line by line: the stripped form of each non-blank line, in order. */
  lemma LinesChunks(xs: seq<string>, x: string)
    requires xs != []
    ensures Chunks(Lines(xs + [x])) == Chunks(Lines(xs)) + (if IsBlank(x) then [] else [Strip(x)])
  {
    SpokenAppend(xs, [x]);
    SpokenOne(x);
  }

  /** The speech output: what has been said aloud, in order. */
  class Speaker {
    var said: seq<string>

    constructor ()
      ensures said == []
    {
      said := [];
    }

    /** `speak`: blank text is not said. */
    method Speak(text: string)
      modifies this
      ensures said == old(said) + (if IsBlank(text) then [] else [text])
    {
      BlankIffStripEmpty(text);
      if text == [] || Strip(text) == [] {
        return;
      }
      said := said + [text];
    }

    /** `speak_all`: every chunk is said, in order, and nothing else. */
    method SpeakAll(u: Utterance)
      modifies this
      ensures said == old(said) + Chunks(u)
    {
      SayEach(Chunks(u));
    }

    /** The loop of `speak_all`: each non-blank item is spoken in turn. */
    method SayEach(items: seq<string>)
      requires forall k :: 0 <= k < |items| ==> !IsBlank(items[k])
      modifies this
      ensures said == old(said) + items
    {
      var k := 0;
      while k < |items|
        invariant 0 <= k <= |items|
        invariant said == old(said) + items[..k]
      {
        assert !IsBlank(items[k]);
        Speak(items[k]);
        assert items[..k + 1] == items[..k] + [items[k]];
        k := k + 1;
      }
      assert items[..|items|] == items;
    }
  }

  // ------------------------------------------------------------------ agent

  // The longer replies are written in short parts only so that facts about their characters stay cheap to prove.
  const NotCaughtReply: string := "I didn't catch that. " + "Could you please repeat?"
  const NoReplyApology: string :=
    "I apologize, " + "I didn't generate a proper " + "response. Could you please " + "repeat that?"
  const TechnicalIssueReply: string :=
    "I apologize, but " + "I encountered a technical " + "issue. Could you please " + "repeat your response so I " + "can assist you properly?"
  const DifficultiesReply: string :=
    "Thank you for calling Srushti Jagtap. I'm having technical difficulties. Please try again."
  const RepeatGreeting: string := "Hello! How can I help you today?"
  const SavedMarker: string := "Thanks, your intake is saved"
  const GoodbyeMarker: string := "Goodbye!"

  /** `f"injury_{uuid}"` for the text of a fresh UUID. */
  function SessionIdFor(uuid: string): (id: string)
    ensures |id| == 7 + |uuid| && id[..7] == "injury_" && id[7..] == uuid
  {
    "injury_" + uuid
  }

  /** The reply is the assistant's farewell: it holds both closing phrases. */
  predicate EndsSession(reply: string) {
    Contains(reply, SavedMarker) && Contains(reply, GoodbyeMarker)
  }

  lemma OccursAtFront(a: string, b: string)
    ensures OccursAt(a + b, a, 0)
  {
    assert (a + b)[0..|a|] == a;
  }

  lemma OccursAtBack(a: string, b: string)
    ensures OccursAt(a + b, b, |a|)
  {
    assert (a + b)[|a|..|a| + |b|] == b;
  }

  /** The assistant's closing line ends the session. */
  lemma ClosingEndsSession()
    ensures EndsSession(ClosingReply)
  {
    var front := "Thanks, your intake is saved" + ". We'll follow up shortly. ";
    assert ClosingReply == front + GoodbyeMarker;
    OccursAtFront(SavedMarker, ". We'll follow up shortly. ");
    OccursAtFront(front, GoodbyeMarker);
    assert ClosingReply[0..|SavedMarker|] == front[0..|SavedMarker|];
    ContainsAt(ClosingReply, SavedMarker, 0);
    OccursAtBack(front, GoodbyeMarker);
    ContainsAt(ClosingReply, GoodbyeMarker, |front|);
  }

  /** Text without a 'G' cannot hold "Goodbye!". */
  lemma NoGoodbye(reply: string)
    requires 'G' !in reply
    ensures !EndsSession(reply)
  {
    if Contains(reply, GoodbyeMarker) {
      ContainsChars(reply, GoodbyeMarker, 0);
    }
  }

  /** The reminder after the intake is complete keeps the session. */
  lemma ReminderKeepsSession()
    ensures !EndsSession(ReminderReply)
  {
    NoGoodbye(ReminderReply);
  }

  /** The agent's own fixed replies keep the session. */
  lemma NotCaughtKeepsSession()
    ensures !EndsSession(NotCaughtReply)
  {
    NoGoodbye(NotCaughtReply);
  }

  lemma ApologyKeepsSession()
    ensures !EndsSession(NoReplyApology)
  {
    NoGoodbye(NoReplyApology);
  }

  lemma TechnicalIssueKeepsSession()
    ensures !EndsSession(TechnicalIssueReply)
  {
    assert 'G' !in "I apologize, but " && 'G' !in "I encountered a technical ";
    assert 'G' !in "issue. Could you please " && 'G' !in "repeat your response so I ";
    assert 'G' !in "can assist you properly?";
    NoGoodbye(TechnicalIssueReply);
  }

  /** The walk `start` runs for the session, given the threads the checkpointer holds. */
  function OpeningWalk(a: StrictIntakeAssistant, threads: map<string, State>, sessionId: string, runId: Option<string>): Outcome
    requires Closed(a.flow)
  {
    Walk(a.flow, Nodes(a.flow, a.EnvOf(runId)), Ask(a.flow.entry), StartState(threads, a.flow.entry, sessionId), a.recursionLimit)
  }

  /** The walk `handle_user` runs for a thread that has not finished. */
  function TurnWalk(a: StrictIntakeAssistant, before: State, sessionId: string, text: string, runId: Option<string>): Outcome
    requires Closed(a.flow)
  {
    var st := before.(messages := before.messages + [Message(Human, Strip(text))], sessionId := sessionId);
    Walk(a.flow, Nodes(a.flow, a.EnvOf(runId)), Ask(a.flow.entry), st, a.recursionLimit)
  }

  /** What the agent says for a walk: `onError` when it raised, `onEmpty` for an empty reply. */
  function AgentReply(o: Outcome, onError: string, onEmpty: string): string {
    if o.stop == LimitHit then onError
    else if ReplyOf(o.state.messages) == [] then onEmpty
    else ReplyOf(o.state.messages)
  }

  /**
   * `StrictIntakeInjuryAgent`: the session id the conversation runs under,
   * whether the conversation was started, and the assistant once created.
   */
  class InjuryAgent {
    var assistant: StrictIntakeAssistant?
    var sessionId: string
    var initialized: bool

    ghost predicate Valid()
      reads this, assistant
    {
      assistant != null ==> assistant.Valid()
    }

    /** A forced session id is used when it is set and non-empty; otherwise a fresh one. */
    constructor (forcedSessionId: Option<string>, uuid: string)
      ensures assistant == null && !initialized
      ensures sessionId == if forcedSessionId.Some? && forcedSessionId.value != [] then forcedSessionId.value
                           else SessionIdFor(uuid)
      ensures Valid()
    {
      assistant := null;
      if forcedSessionId.Some? && forcedSessionId.value != [] {
        sessionId := forcedSessionId.value;
      } else {
        sessionId := SessionIdFor(uuid);
      }
      initialized := false;
    }

    /** `new_session`: rotates to a fresh session id. */
    method NewSession(uuid: string)
      modifies this
      ensures sessionId == SessionIdFor(uuid)
      ensures assistant == old(assistant) && initialized == old(initialized)
    {
      sessionId := SessionIdFor(uuid);
    }

    /**
     * `initialize_conversation`: only the first call starts the assistant
     * (`created` is the assistant creation made then, null when it raised);
     * the flag is set before the attempt, so every later call only greets.
     */
    method InitializeConversation(created: StrictIntakeAssistant?, runId: Option<string>) returns (reply: string)
      requires Valid()
      requires created != null ==> created.Valid()
      modifies this, assistant, created
      ensures Valid() && initialized && sessionId == old(sessionId)
      ensures old(initialized) ==>
                reply == RepeatGreeting && assistant == old(assistant)
                && (assistant != null ==> unchanged(assistant))
      ensures !old(initialized) ==> assistant == if old(assistant) != null then old(assistant) else created
      ensures !old(initialized) && assistant == null ==> reply == DifficultiesReply
      ensures !old(initialized) && assistant != null ==>
                var a := assistant;
                var o := OpeningWalk(a, old(a.threads), sessionId, runId);
                a.threads == old(a.threads)[sessionId := o.state]
                && a.answers == old(a.answers) + o.saved
                && a.completedRuns == old(a.completedRuns)
                && reply == AgentReply(o, DifficultiesReply, DifficultiesReply)
    {
      if initialized {
        return RepeatGreeting;
      }
      initialized := true;
      if assistant == null {
        assistant := created;
      }
      if assistant == null {
        return DifficultiesReply;
      }
      var r := assistant.Start(sessionId, runId);
      if r.Failure? || r.value == [] {
        return DifficultiesReply;
      }
      reply := r.value;
    }

    /**
     * `handle_user_message`: blank input is not forwarded; otherwise the
     * stripped text goes to the assistant, a failure or an empty reply gets a
     * fixed apology, and a reply holding both closing phrases rotates the
     * session id. `endFails` is passed on to the assistant.
     */
    method HandleUserMessage(msg: string, runId: Option<string>, uuid: string, endFails: bool) returns (reply: string)
      requires Valid()
      modifies this, assistant
      ensures Valid() && assistant == old(assistant) && initialized == old(initialized)
      ensures sessionId == if EndsSession(reply) then SessionIdFor(uuid) else old(sessionId)
      ensures IsBlank(msg) ==> reply == NotCaughtReply && (assistant != null ==> unchanged(assistant))
      ensures !IsBlank(msg) && assistant == null ==> reply == TechnicalIssueReply
      ensures !IsBlank(msg) && assistant != null && IsTerminalStep(CurrentStepOf(old(assistant.threads), old(sessionId))) ==>
                assistant.threads == old(assistant.threads)
                && (IsFarewell(Strip(msg)) && endFails ==>
                      reply == TechnicalIssueReply && sessionId == old(sessionId)
                      && assistant.answers == old(assistant.answers)
                      && assistant.completedRuns == old(assistant.completedRuns))
                && (IsFarewell(Strip(msg)) && !endFails ==>
                      reply == ClosingReply && sessionId == SessionIdFor(uuid)
                      && assistant.answers == old(assistant.answers) + SessionEndRecord(runId, Strip(msg))
                      && assistant.completedRuns == old(assistant.completedRuns) + RunsClosed(runId))
                && (!IsFarewell(Strip(msg)) ==>
                      reply == ReminderReply && sessionId == old(sessionId)
                      && assistant.answers == old(assistant.answers)
                      && assistant.completedRuns == old(assistant.completedRuns))
      ensures !IsBlank(msg) && assistant != null && !IsTerminalStep(CurrentStepOf(old(assistant.threads), old(sessionId))) ==>
                old(sessionId) in old(assistant.threads)
                && var o := TurnWalk(assistant, old(assistant.threads)[old(sessionId)], old(sessionId), Strip(msg), runId);
                   assistant.threads == old(assistant.threads)[old(sessionId) := o.state]
                   && assistant.answers == old(assistant.answers) + o.saved
                   && assistant.completedRuns == old(assistant.completedRuns)
                   && reply == AgentReply(o, TechnicalIssueReply, NoReplyApology)
    {
      NotCaughtKeepsSession();
      ApologyKeepsSession();
      TechnicalIssueKeepsSession();
      ReminderKeepsSession();
      ClosingEndsSession();
      BlankIffStripEmpty(msg);
      if msg == [] || Strip(msg) == [] {
        return NotCaughtReply;
      }
      if assistant == null {
        return TechnicalIssueReply;
      }
      var r := assistant.HandleUser(Strip(msg), sessionId, runId, endFails);
      if r.Failure? {
        return TechnicalIssueReply;
      }
      if r.value == [] {
        return NoReplyApology;
      }
      if Contains(r.value, SavedMarker) && Contains(r.value, GoodbyeMarker) {
        NewSession(uuid);
      }
      reply := r.value;
    }
  }
}
