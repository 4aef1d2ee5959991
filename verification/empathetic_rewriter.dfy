/**
 * The answer pipeline of the intake assistant: deterministic rules that pull
 * a value out of a caller's reply, the question classifier that picks the
 * rule, the fall-back to a language model for extraction and validation, and
 * the memoising rewriter of question texts. The language model is outside the
 * model: each call's reply is a parameter, `None` standing for a call that
 * raised.
 */
module EmpatheticRewriter {
  import opened Wrappers
  import opened Text
  import opened Patterns

  // ------------------------------------------------------------ name rules

  /** `first\s*name | given\s*name` */
  const FirstNameFields: seq<Phrase> := [Phrase(["first", "name"], 0), Phrase(["given", "name"], 0)]

  /** `last\s*name | surname | family\s*name` */
  const LastNameFields: seq<Phrase> :=
    [Phrase(["last", "name"], 0), Phrase(["surname"], 0), Phrase(["family", "name"], 0)]

  /** `my\s+name\s+is | i\s*am | i'm | this\s+is` */
  const SelfIntroductions: seq<Phrase> :=
    [Phrase(["my", "name", "is"], 1), Phrase(["i", "am"], 0), Phrase(["i'm"], 0), Phrase(["this", "is"], 1)]

  /** `my\s+name\s+is` */
  const NameIntroduction: seq<Phrase> := [Phrase(["my", "name", "is"], 1)]

  /**
   * `extract_first_name_rule`: the token after "first name (is)", else the
   * first token after "my name is" / "I am" / "I'm" / "this is", else the
   * whole reply when it is a single name token.
   */
  function FirstNameRule(text: string): (r: Option<string>)
    ensures r.Some? ==> IsCleanName(r.value)
    ensures FieldSearch(Strip(text), 0, FirstNameFields).Some? ==>
      r == Some(CleanToken(FieldSearch(Strip(text), 0, FirstNameFields).value))
    ensures FieldSearch(Strip(text), 0, FirstNameFields).None? && PhraseSearch(Strip(text), 0, SelfIntroductions).Some? ==>
      r == Some(CleanToken(PhraseSearch(Strip(text), 0, SelfIntroductions).value[0]))
    ensures FieldSearch(Strip(text), 0, FirstNameFields).None? && PhraseSearch(Strip(text), 0, SelfIntroductions).None? ==>
      r == OnlyToken(Strip(text))
    ensures r.None? <==>
      FieldSearch(Strip(text), 0, FirstNameFields).None?
      && PhraseSearch(Strip(text), 0, SelfIntroductions).None?
      && !IsNameToken(Strip(text))
  {
    var t := Strip(text);
    match FieldSearch(t, 0, FirstNameFields)
    case Some(tok) =>
      CleanTokenOfNameToken(tok);
      Some(CleanToken(tok))
    case None =>
      match PhraseSearch(t, 0, SelfIntroductions)
      case Some(toks) =>
        CleanTokenOfNameToken(toks[0]);
        Some(CleanToken(toks[0]))
      case None =>
        StripByIdempotent(text, IsPySpace);
        OnlyToken(t)
  }

  /**
   * The surname a "my name is …" phrase gives: the last of its tokens, cleaned,
   * when there are at least two of them.
   */
  function IntroducedSurname(t: string): (r: Option<string>)
    ensures r.Some? ==> IsCleanName(r.value)
    ensures var m := PhraseSearch(t, 0, NameIntroduction);
            (r.Some? <==> m.Some? && |m.value| >= 2)
            && (r.Some? ==> r.value == CleanToken(m.value[|m.value| - 1]))
  {
    var m := PhraseSearch(t, 0, NameIntroduction);
    if m.Some? && |m.value| >= 2 then
      var last := m.value[|m.value| - 1];
      CleanTokenOfNameToken(last);
      Some(CleanToken(last))
    else None
  }

  /**
   * `extract_last_name_rule`: the token after "last name (is)" / "surname" /
   * "family name", else the last token after "my name is" when there are at
   * least two, else the whole reply when it is a single name token.
   */
  function LastNameRule(text: string): (r: Option<string>)
    ensures r.Some? ==> IsCleanName(r.value)
    ensures FieldSearch(Strip(text), 0, LastNameFields).Some? ==>
      r == Some(CleanToken(FieldSearch(Strip(text), 0, LastNameFields).value))
    ensures FieldSearch(Strip(text), 0, LastNameFields).None? && IntroducedSurname(Strip(text)).Some? ==>
      r == IntroducedSurname(Strip(text))
    ensures FieldSearch(Strip(text), 0, LastNameFields).None? && IntroducedSurname(Strip(text)).None? ==>
      r == OnlyToken(Strip(text))
    ensures r.None? <==>
      FieldSearch(Strip(text), 0, LastNameFields).None?
      && IntroducedSurname(Strip(text)).None?
      && !IsNameToken(Strip(text))
  {
    var t := Strip(text);
    match FieldSearch(t, 0, LastNameFields)
    case Some(tok) =>
      CleanTokenOfNameToken(tok);
      Some(CleanToken(tok))
    case None =>
      if IntroducedSurname(t).Some? then IntroducedSurname(t)
      else
        StripByIdempotent(text, IsPySpace);
        OnlyToken(t)
  }


  // --------------------------------------------------------- yes / no rules

  /** `text.rstrip()` */
  function RStrip(s: string): (r: string)
    ensures r == [] || !IsPySpace(r[|r| - 1])
  {
    RStripBy(s, IsPySpace)
  }

  /** A prefix of a stripped, lower-cased reply starts the reply itself, so the reply is at least as long. */
  lemma PrefixOfStripped(text: string, pre: string)
    requires StartsWith(Lower(Strip(text)), pre)
    ensures |pre| <= |text|
  {
  }

  /** The replies the yes/no rule reads as a plain "Yes". */
  const YesWords: set<string> := {"yes", "y", "yeah", "yep", "yup", "sure", "affirmative"}

  /** The replies the yes/no rule reads as a plain "No". */
  const NoWords: set<string> := {"no", "n", "nope", "nah", "negative"}

  /**
   * `extract_yes_no_rule`: a bare yes or no word becomes "Yes" / "No"; a reply
   * opening with "yes" or "no" keeps the rest of the (unstripped) reply after
   * those letters.
   */
  function YesNoRule(text: string): (r: Option<string>)
    ensures r.Some? ==> (|r.value| >= 3 && r.value[..3] == "Yes") || (|r.value| >= 2 && r.value[..2] == "No")
    ensures Lower(Strip(text)) in YesWords ==> r == Some("Yes")
    ensures Lower(Strip(text)) in NoWords ==> r == Some("No")
    ensures var t := Lower(Strip(text));
            t !in YesWords && t !in NoWords && StartsWith(t, "yes") ==> |text| >= 3 && r == Some("Yes" + RStrip(text[3..]))
    ensures var t := Lower(Strip(text));
            t !in YesWords && t !in NoWords && !StartsWith(t, "yes") && StartsWith(t, "no")
            ==> |text| >= 2 && r == Some("No" + RStrip(text[2..]))
    ensures r.None? <==>
      Lower(Strip(text)) !in YesWords && Lower(Strip(text)) !in NoWords
      && !StartsWith(Lower(Strip(text)), "yes") && !StartsWith(Lower(Strip(text)), "no")
  {
    var t := Lower(Strip(text));
    if t in YesWords then Some("Yes")
    else if t in NoWords then Some("No")
    else if StartsWith(t, "yes") then
      PrefixOfStripped(text, "yes");
      Some("Yes" + RStrip(text[3..]))
    else if StartsWith(t, "no") then
      PrefixOfStripped(text, "no");
      Some("No" + RStrip(text[2..]))
    else None
  }

  /** On a stripped reply that opens with "yes" in any case, the rule keeps every word after those letters. */
  lemma YesNoKeepsDetails(text: string)
    requires Strip(text) == text
    requires StartsWith(Lower(text), "yes") && Lower(text) != "yes"
    ensures YesNoRule(text) == Some("Yes" + text[3..])
  {
    var t := Lower(text);
    StartsWithIff(t, "yes");
    assert |text| > 3 && t[..3] == "yes";
    assert t !in YesWords && t !in NoWords by {
      assert forall w :: w in YesWords + NoWords && |w| >= 3 ==> w[..3] != "yes" || w == "yes";
    }
    RStripByNoop(text[3..], IsPySpace);
  }

  /** The replies a rule reads as a plain "Yes" to the reports question. */
  const ReportYesWords: set<string> := {"yes", "y", "yeah", "yep", "yup", "sure"}

  /** The replies a rule reads as a plain "No" to the reports question. */
  const ReportNoWords: set<string> := {"no", "n", "nope", "nah", "none"}

  predicate IsComma(c: char) { c == ',' }

  /** The authorities the reports rule names, in the order it looks for them. */
  predicate NamesAuthority(t: string) {
    Contains(t, "police") || Contains(t, "authority") || Contains(t, "authorities")
    || Contains(t, "state office") || Contains(t, "helpline") || Contains(t, "insurance")
  }

  /** The report to the first authority `t` names, in the order the reports rule looks for them. */
  function AuthorityReport(t: string): (r: Option<string>)
    ensures r.None? <==> !NamesAuthority(t)
    ensures Contains(t, "police") ==> r == Some("Yes, to police")
    ensures !Contains(t, "police") && (Contains(t, "authority") || Contains(t, "authorities"))
            ==> r == Some("Yes, to authority")
    ensures !Contains(t, "police") && !Contains(t, "authority") && !Contains(t, "authorities")
            && Contains(t, "state office")
            ==> r == Some("Yes, to state office")
    ensures !Contains(t, "police") && !Contains(t, "authority") && !Contains(t, "authorities")
            && !Contains(t, "state office") && Contains(t, "helpline")
            ==> r == Some("Yes, to helpline")
    ensures !Contains(t, "police") && !Contains(t, "authority") && !Contains(t, "authorities")
            && !Contains(t, "state office") && !Contains(t, "helpline") && Contains(t, "insurance")
            ==> r == Some("Yes, to insurance")
  {
    if Contains(t, "police") then Some("Yes, to police")
    else if Contains(t, "authority") || Contains(t, "authorities") then Some("Yes, to authority")
    else if Contains(t, "state office") then Some("Yes, to state office")
    else if Contains(t, "helpline") then Some("Yes, to helpline")
    else if Contains(t, "insurance") then Some("Yes, to insurance")
    else None
  }

  /**
   * `extract_reports_rule`: plain yes/no words, then the first authority
   * mentioned (police, authority, state office, helpline, insurance), then a
   * reply opening with "yes" keeps its remainder, one opening with "no" is "No".
   */
  function ReportsRule(text: string): (r: Option<string>)
    ensures r.Some? ==> r.value == "No" || (|r.value| >= 3 && r.value[..3] == "Yes")
    ensures Lower(Strip(text)) in ReportYesWords ==> r == Some("Yes")
    ensures Lower(Strip(text)) in ReportNoWords ==> r == Some("No")
    ensures var t := Lower(Strip(text));
            t !in ReportYesWords + ReportNoWords && NamesAuthority(t) ==> r == AuthorityReport(t)
    ensures var t := Lower(Strip(text));
            t !in ReportYesWords + ReportNoWords && !NamesAuthority(t) && StartsWith(t, "yes") ==>
              |text| >= 3
              && var remainder := StripBy(Strip(text[3..]), IsComma);
                 r == Some(if remainder != [] then "Yes, " + remainder else "Yes")
    ensures var t := Lower(Strip(text));
            t !in ReportYesWords + ReportNoWords && !NamesAuthority(t) && !StartsWith(t, "yes") && StartsWith(t, "no")
            ==> r == Some("No")
    ensures var t := Lower(Strip(text));
            r.None? <==> t !in ReportYesWords + ReportNoWords && !NamesAuthority(t)
                         && !StartsWith(t, "yes") && !StartsWith(t, "no")
  {
    var t := Lower(Strip(text));
    if t in ReportYesWords then Some("Yes")
    else if t in ReportNoWords then Some("No")
    else if NamesAuthority(t) then AuthorityReport(t)
    else if StartsWith(t, "yes") then
      PrefixOfStripped(text, "yes");
      var remainder := StripBy(Strip(text[3..]), IsComma);
      if remainder != [] then Some("Yes, " + remainder) else Some("Yes")
    else if StartsWith(t, "no") then Some("No")
    else None
  }

  /** The counts the witnesses rule recognises. */
  const WitnessCounts: set<string> := {"No", "One", "Two", "Three"}

  /** The replies the witnesses rule reads as "No". */
  const NoWitnessWords: set<string> := {"no", "none", "no one", "nobody"}

  predicate SaysTwo(t: string) { Contains(t, "two") || Contains(t, "2") }
  predicate SaysOne(t: string) { Contains(t, "one") || Contains(t, "1") }
  predicate SaysThree(t: string) { Contains(t, "three") || Contains(t, "3") }

  /**
   * `extract_witnesses_rule`: "no one" and the like give "No"; a number word
   * or digit gives the count, two before one before three; a reply naming
   * people with " and " is kept whole.
   */
  function WitnessesRule(text: string): (r: Option<string>)
    ensures r.Some? ==> r.value in WitnessCounts || (r.value == Strip(text) && Contains(Lower(Strip(text)), " and "))
    ensures r.None? ==>
      !Contains(Lower(Strip(text)), "one") && !Contains(Lower(Strip(text)), "two")
      && !Contains(Lower(Strip(text)), "three") && !Contains(Lower(Strip(text)), " and ")
    ensures var t := Lower(Strip(text));
            (t in NoWitnessWords ==> r == Some("No"))
            && (t !in NoWitnessWords && SaysTwo(t) ==> r == Some("Two"))
            && (t !in NoWitnessWords && !SaysTwo(t) && SaysOne(t) ==> r == Some("One"))
            && (t !in NoWitnessWords && !SaysTwo(t) && !SaysOne(t) && SaysThree(t) ==> r == Some("Three"))
            && (t !in NoWitnessWords && !SaysTwo(t) && !SaysOne(t) && !SaysThree(t) && Contains(t, " and ")
                ==> r == Some(Strip(text)))
            && (r.None? <==> t !in NoWitnessWords && !SaysTwo(t) && !SaysOne(t) && !SaysThree(t)
                             && !Contains(t, " and "))
  {
    var t := Lower(Strip(text));
    if t in NoWitnessWords then Some("No")
    else if SaysTwo(t) then Some("Two")
    else if SaysOne(t) then Some("One")
    else if SaysThree(t) then Some("Three")
    else if Contains(t, " and ") then Some(Strip(text))
    else None
  }

  /** The replies the witness-names rule reads as "Unknown names". */
  const DontKnowReplies: set<string> := {"no", "none", "don't know", "unknown", "i don't know"}

  /**
   * `extract_witness_names_rule`: an "I don't know" gives "Unknown names"; a
   * reply of several words or with " and " is kept whole; one word is left to
   * the language model.
   */
  function WitnessNamesRule(text: string): (r: Option<string>)
    ensures r.Some? ==> r.value == "Unknown names" || r.value == Strip(text)
    ensures Lower(Strip(text)) in DontKnowReplies ==> r == Some("Unknown names")
    ensures Lower(Strip(text)) !in DontKnowReplies && r.Some? ==> r.value == Strip(text)
    ensures r.None? <==>
      Lower(Strip(text)) !in DontKnowReplies
      && !Contains(Strip(text), " and ") && |SplitWs(Strip(text))| < 2
  {
    var t := Strip(text);
    if Lower(t) in DontKnowReplies then Some("Unknown names")
    else if Contains(t, " and ") || |SplitWs(t)| >= 2 then Some(t)
    else None
  }

  // ------------------------------------------------------------ date rule

  predicate IsCommaOrDot(c: char) { c == ',' || c == '.' }

  /** `extract_date_rule`: the leftmost date-like substring, stripped of spaces and trailing `,`/`.`. */
  function DateRule(text: string): (r: Option<string>)
    ensures r.None? <==> DateSearch(text, 0).None?
  {
    match DateSearch(text, 0)
    case Some((i, e)) => Some(CleanDate(text[i..e]))
    case None => None
  }

  /** The clean-up of a date match: surrounding spaces, then trailing `,` and `.`. */
  function CleanDate(m: string): string {
    RStripBy(Strip(m), IsCommaOrDot)
  }

  /**
   * A date match starts with a letter or digit and ends with a digit, so the
   * clean-up after the search never changes it: the rule returns the match as it is.
   */
  lemma DateRuleIsMatch(text: string)
    requires DateSearch(text, 0).Some?
    ensures DateRule(text) == Some(text[DateSearch(text, 0).value.0..DateSearch(text, 0).value.1])
  {
    var (i, e) := DateSearch(text, 0).value;
    CleanSpan(text, i, e);
  }

  /** A date match survives the clean-up unchanged. */
  lemma CleanSpan(t: string, i: nat, e: nat)
    requires DateSpan(t, i, e)
    ensures CleanDate(t[i..e]) == t[i..e]
  {
    var m := t[i..e];
    assert m[0] == t[i] && m[|m| - 1] == t[e - 1];
    StripByNoop(m, IsPySpace);
    RStripByNoop(m, IsCommaOrDot);
  }

  // ---------------------------------------------------- question classifier

  /** The question types the classifier tells apart. */
  datatype QuestionType =
    | FirstName | LastName | IncidentDate | OtherReports | IncidentLocation | Injuries
    | MedicalTreatment | IncidentDescription | WitnessNames | Witnesses | General

  /** `_get_question_type`: the first keyword group found in the lower-cased question decides. */
  function TypeOf(question: string): (r: QuestionType)
    ensures r == FirstName <==> Contains(Lower(question), "first name") || Contains(Lower(question), "given name")
    ensures r == General ==> !Contains(Lower(question), "witness")
  {
    var q := Lower(question);
    if Contains(q, "first name") || Contains(q, "given name") then FirstName
    else if Contains(q, "last name") || Contains(q, "surname") || Contains(q, "family name") then LastName
    else if Contains(q, "when") || Contains(q, "date") || Contains(q, "time") then IncidentDate
    else if (Contains(q, "report") || Contains(q, "filed") || Contains(q, "contacted"))
            && !(Contains(q, "where did you report") || Contains(q, "location of report")) then OtherReports
    else if (Contains(q, "where") || Contains(q, "location") || Contains(q, "place")) && !Contains(q, "anywhere")
    then IncidentLocation
    else if Contains(q, "injur") || Contains(q, "hurt") || Contains(q, "harm") then Injuries
    else if Contains(q, "medical") || Contains(q, "treatment") || Contains(q, "doctor") || Contains(q, "hospital")
    then MedicalTreatment
    else if Contains(q, "what happened") || Contains(q, "describe") || Contains(q, "tell me about")
            || Contains(q, "incident") || Contains(q, "accident") || Contains(q, "event") || Contains(q, "share what")
    then IncidentDescription
    else if Contains(q, "witness") then (if Contains(q, "name") || Contains(q, "who") then WitnessNames else Witnesses)
    else General
  }

  // -------------------------------------------------------- rule dispatch

  /**
   * `_rule_extract`: the rule for the question type; names are normalised,
   * a description is kept when it is longer than five characters, and the
   * types without a rule give nothing.
   */
  function RuleExtract(qtype: QuestionType, text: string): (r: Option<string>)
    ensures qtype in {IncidentLocation, Injuries, General} ==> r.None?
    ensures qtype == IncidentDescription ==> (r.Some? <==> |Strip(text)| > 5) && (r.Some? ==> r.value == Strip(text))
    ensures qtype == MedicalTreatment ==> r == YesNoRule(text)
    ensures qtype == IncidentDate ==> r == DateRule(text)
    ensures qtype == OtherReports ==> r == ReportsRule(text)
    ensures qtype == Witnesses ==> r == WitnessesRule(text)
    ensures qtype == WitnessNames ==> r == WitnessNamesRule(text)
  {
    match qtype
    case FirstName =>
      var v := FirstNameRule(text);
      if v.Some? && v.value != [] then Some(NormalizeName(v.value)) else None
    case LastName =>
      var v := LastNameRule(text);
      if v.Some? && v.value != [] then Some(NormalizeName(v.value)) else None
    case MedicalTreatment => YesNoRule(text)
    case IncidentDate => DateRule(text)
    case IncidentDescription =>
      var cleaned := Strip(text);
      if cleaned != [] && |cleaned| > 5 then Some(cleaned) else None
    case OtherReports => ReportsRule(text)
    case Witnesses => WitnessesRule(text)
    case WitnessNames => WitnessNamesRule(text)
    case _ => None
  }

  /** The name rules already produce normalised names, so dispatch hands them on unchanged. */
  lemma RuleExtractNames(text: string)
    ensures RuleExtract(FirstName, text) == FirstNameRule(text)
    ensures RuleExtract(LastName, text) == LastNameRule(text)
  {
    var f := FirstNameRule(text);
    if f.Some? {
      NormalizeCleanName(f.value);
    }
    var l := LastNameRule(text);
    if l.Some? {
      NormalizeCleanName(l.value);
    }
  }

  // --------------------------------------------------- extract & validate

  /** `(is_valid, extracted_info, error_message_if_invalid)` */
  datatype Verdict = Verdict(valid: bool, value: string, message: string)

  const CorrectedTag: string := "VALID_CORRECTED:"
  const InvalidTag: string := "INVALID:"

  /** `_parse_validation_result`: the validator's verdict on `extracted`. */
  function ParseValidation(v: string, extracted: string): (r: Verdict)
    ensures !r.valid <==> StartsWith(v, InvalidTag)
    ensures r.valid ==> r.message == []
    ensures !r.valid ==> r.value == []
    ensures r.valid && !StartsWith(v, CorrectedTag) ==> r.value == extracted
    ensures StartsWith(v, CorrectedTag) ==> r.value == Strip(v[|CorrectedTag|..])
    ensures StartsWith(v, InvalidTag) ==> r.message == Strip(v[|InvalidTag|..])
  {
    StartsWithIff(v, CorrectedTag);
    StartsWithIff(v, "VALID");
    StartsWithIff(v, InvalidTag);
    if StartsWith(v, CorrectedTag) then Verdict(true, Strip(v[|CorrectedTag|..]), [])
    else if StartsWith(v, "VALID") then Verdict(true, extracted, [])
    else if StartsWith(v, InvalidTag) then Verdict(false, [], Strip(v[|InvalidTag|..]))
    else Verdict(true, extracted, [])
  }

  /**
   * `extract_and_validate`: a reply the rule for the question's type
   * understands is accepted without the language model; otherwise
   * `extraction` is the model's extraction of the stripped reply and
   * `validation` its verdict on that extraction (`None`: the call raised).
   */
  function ExtractAndValidate(question: string, response: string,
                              extraction: Option<string>, validation: Option<string>): (r: Verdict)
    ensures question == [] || response == [] ==> r == Verdict(true, response, [])
    ensures question != [] && response != [] && Strip(response) == [] ==> r == Verdict(true, [], [])
    ensures r.valid ==> r.message == []
    ensures !r.valid ==> validation.Some? && StartsWith(Strip(validation.value), InvalidTag)
  {
    if question == [] || response == [] then Verdict(true, response, [])
    else
      var qtype := TypeOf(question);
      var raw := Strip(response);
      if raw == [] then Verdict(true, [], [])
      else
        var rule := RuleExtract(qtype, raw);
        if rule.Some? && rule.value != [] then Verdict(true, rule.value, [])
        else
          var extracted := match extraction case Some(x) => Strip(x) case None => raw;
          match validation
          case None => Verdict(true, extracted, [])
          case Some(v) =>
            ParseValidation(Strip(v), extracted)
  }

  /**
   * When the rule for the question's type yields a value, that value is the
   * answer whatever the language model would have said.
   */
  lemma RuleDecides(question: string, response: string, extraction: Option<string>, validation: Option<string>)
    requires question != [] && Strip(response) != []
    requires RuleExtract(TypeOf(question), Strip(response)).Some?
    requires RuleExtract(TypeOf(question), Strip(response)).value != []
    ensures ExtractAndValidate(question, response, extraction, validation)
            == Verdict(true, RuleExtract(TypeOf(question), Strip(response)).value, [])
  {
  }

  /**
   * Without a rule value, the model's extraction (stripped; the reply itself
   * when that call raised) is accepted unless the validator rejects it.
   */
  lemma FallBackToModel(question: string, response: string, extraction: Option<string>, validation: Option<string>)
    requires question != [] && Strip(response) != []
    requires RuleExtract(TypeOf(question), Strip(response)).None?
    requires validation.None? || !StartsWith(Strip(validation.value), InvalidTag)
    requires validation.None? || !StartsWith(Strip(validation.value), CorrectedTag)
    ensures ExtractAndValidate(question, response, extraction, validation)
            == Verdict(true, if extraction.Some? then Strip(extraction.value) else Strip(response), [])
  {
  }

  /**
   * Without a usable rule value, a validator that answers decides the
   * verdict on the model's extraction (the stripped reply when that call raised).
   */
  lemma ValidatorDecides(question: string, response: string, extraction: Option<string>, v: string)
    requires question != [] && Strip(response) != []
    requires RuleExtract(TypeOf(question), Strip(response)).None? || RuleExtract(TypeOf(question), Strip(response)).value == []
    ensures ExtractAndValidate(question, response, extraction, Some(v))
            == ParseValidation(Strip(v), if extraction.Some? then Strip(extraction.value) else Strip(response))
  {
  }

  // ------------------------------------------------------ memoised rewrites

  /**
   * The text a fresh rewrite of a non-empty `text` stores: the model's
   * stripped reply, or `text` itself when that reply is blank or the call raised.
   */
  function FreshRewrite(text: string, reply: Option<string>): (r: string)
    ensures text != [] ==> r != []
    ensures r == text || (reply.Some? && r == Strip(reply.value))
  {
    match reply
    case Some(o) => if Strip(o) != [] then Strip(o) else text
    case None => text
  }

  /** The cache key of the greeting for `agent` at `firm`. */
  function GreetingKey(agent: string, firm: string): string {
    "greet::" + agent + "::" + firm
  }

  /** The greeting used when the model call raises. */
  function FallbackGreeting(agent: string, firm: string): (r: string)
    ensures OccursAt(r, firm, |"Thank you for calling "|)
  {
    "Thank you for calling " + firm + ". My name is " + agent
    + ", and I'm here to support you through this difficult time."
  }

  /** The greeting a fresh call stores: the stripped reply, or the fall-back when the call raised. */
  function FreshGreeting(agent: string, firm: string, reply: Option<string>): string {
    match reply
    case Some(o) => Strip(o)
    case None => FallbackGreeting(agent, firm)
  }

  /** `after` never drops or changes an entry of `before`. */
  predicate Extends(before: map<string, string>, after: map<string, string>) {
    forall k :: k in before ==> k in after && after[k] == before[k]
  }

  /**
   * `EmpatheticRewriter`'s memo of rewritten questions and greetings. Each
   * method's `reply` is what the model would answer if it were asked
   * (`None`: the call raises); it is used only on a cache miss.
   */
  class Rewriter {
    var cache: map<string, string>

    constructor()
      ensures cache == map[]
    {
      cache := map[];
    }

    /** `rewrite`: the empty text is left alone; otherwise the first answer for a text is kept for good. */
    method Rewrite(text: string, reply: Option<string>) returns (out: string)
      modifies this
      ensures text == [] ==> out == [] && cache == old(cache)
      ensures text != [] && text in old(cache) ==> out == old(cache)[text] && cache == old(cache)
      ensures text != [] && text !in old(cache) ==> out == FreshRewrite(text, reply) && cache == old(cache)[text := out]
      ensures Extends(old(cache), cache)
      ensures text != [] ==> text in cache && cache[text] == out
    {
      if text == [] {
        return [];
      }
      if text in cache {
        return cache[text];
      }
      out := FreshRewrite(text, reply);
      cache := cache[text := out];
    }

    /** `greeting`: memoised under `greet::<agent>::<firm>` in the same cache. */
    method Greeting(agent: string, firm: string, reply: Option<string>) returns (out: string)
      modifies this
      ensures GreetingKey(agent, firm) in old(cache) ==> out == old(cache)[GreetingKey(agent, firm)] && cache == old(cache)
      ensures GreetingKey(agent, firm) !in old(cache) ==>
        out == FreshGreeting(agent, firm, reply) && cache == old(cache)[GreetingKey(agent, firm) := out]
      ensures Extends(old(cache), cache)
      ensures GreetingKey(agent, firm) in cache && cache[GreetingKey(agent, firm)] == out
    {
      var key := GreetingKey(agent, firm);
      if key in cache {
        return cache[key];
      }
      out := FreshGreeting(agent, firm, reply);
      cache := cache[key := out];
    }
  }

  /** Asking twice for the same rewrite gives the first answer, whatever the model says the second time. */
  method RewriteIsStable(r: Rewriter, text: string, first: Option<string>, second: Option<string>)
    returns (a: string, b: string)
    modifies r
    ensures a == b
  {
    a := r.Rewrite(text, first);
    b := r.Rewrite(text, second);
  }
}

