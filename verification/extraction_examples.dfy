/**
 * Worked examples of the extraction rules on the sample answers the
 * rewriter's self-test lists, each proved from the rules' definitions.
 * Literal text is expensive for the verifier, so each example is split into
 * small facts (a strip, a lower-casing, one scanner step) that a final lemma
 * puts together.
 */
module ExtractionExamples {
  import opened Wrappers
  import opened Text
  import opened Patterns
  import opened EmpatheticRewriter

  // ------------------------------------------------------ general steps

  /** A pattern that matches at no position does not occur. */
  lemma NoMatchNoContains(s: string, sub: string)
    requires forall j :: 0 <= j <= |s| - |sub| ==> !MatchAt(s, sub, j, 0)
    ensures !Contains(s, sub)
  {
    ContainsIff(s, sub);
    forall j: nat | OccursAt(s, sub, j)
      ensures false
    {
      MatchAtIff(s, sub, j, 0);
    }
  }

  /** A keyword phrase that matches at `i` and is followed by a value gives that value's start. */
  lemma PhraseValueHit(t: string, i: nat, ph: Phrase, a: nat, p: nat)
    requires i <= |t| && WordsEnd(t, i, ph.words, ph.minGap) == Some(a) && FieldValueAt(t, a) == Some(p)
    ensures PhraseValue(t, i, ph) == Some(p)
  {
  }

  /** The first alternative of a field pattern that matches at `i` decides the field. */
  lemma FieldAtHead(t: string, i: nat, alts: seq<Phrase>, p: nat)
    requires i <= |t| && alts != [] && p <= |t| && TokenAt(t, p).Some?
    requires PhraseValue(t, i, alts[0]) == Some(p)
    ensures FieldAt(t, i, alts) == Some(TokenText(t, p))
  {
  }

  /** The search moves past a position where no field starts. */
  lemma FieldSearchSkip(t: string, i: nat, alts: seq<Phrase>)
    requires i <= |t| && (!Boundary(t, i) || FieldAt(t, i, alts).None?)
    ensures FieldSearch(t, i, alts) == FieldSearch(t, i + 1, alts)
  {
  }

  /** The search stops at the first position where a field starts. */
  lemma FieldSearchHit(t: string, i: nat, alts: seq<Phrase>)
    requires i <= |t| && Boundary(t, i) && FieldAt(t, i, alts).Some?
    ensures FieldSearch(t, i, alts) == FieldAt(t, i, alts)
  {
  }

  // ------------------------------ "My first name is Srushti Jagtap"

  lemma SrushtiToken(t: string)
    requires t == "My first name is Srushti Jagtap"
    ensures TokenAt(t, 17) == Some(7)
  {
    assert TokRun(t, 24) == 0;
    assert TokRun(t, 18) == 6;
  }

  lemma SrushtiFirstWord(t: string)
    requires t == "My first name is Srushti Jagtap"
    ensures WordCI(t, 3, "first")
  {
  }

  lemma SrushtiGap(t: string)
    requires t == "My first name is Srushti Jagtap"
    ensures WsRun(t, 8) == 1
  {
    assert t[8] == ' ' && t[9] == 'n';
    assert WsRun(t, 9) == 0;
  }

  lemma SrushtiNameWord(t: string)
    requires t == "My first name is Srushti Jagtap"
    ensures WordCI(t, 9, "name")
  {
  }

  lemma SrushtiKeyword(t: string)
    requires t == "My first name is Srushti Jagtap"
    ensures WordsEnd(t, 3, ["first", "name"], 0) == Some(13)
  {
    SrushtiFirstWord(t);
    SrushtiGap(t);
    SrushtiNameWord(t);
    assert ["first", "name"][1..] == ["name"];
  }

  lemma SrushtiIs(t: string)
    requires t == "My first name is Srushti Jagtap"
    ensures WsRun(t, 13) == 1 && WordCI(t, 14, "is")
  {
  }

  lemma SrushtiAfterIs(t: string)
    requires t == "My first name is Srushti Jagtap"
    ensures TokenAfterSpace(t, 16) == Some(17)
  {
    assert WsRun(t, 16) == 1;
    SrushtiToken(t);
  }

  lemma SrushtiValue(t: string)
    requires t == "My first name is Srushti Jagtap"
    ensures FieldValueAt(t, 13) == Some(17)
  {
    SrushtiIs(t);
    SrushtiAfterIs(t);
  }

  lemma SrushtiSlice(t: string)
    requires t == "My first name is Srushti Jagtap"
    ensures |t| == 31 && t[17..24] == "Srushti"
  {
  }

  lemma FirstField()
    ensures FirstNameFields != [] && FirstNameFields[0] == Phrase(["first", "name"], 0)
  {
  }

  lemma SrushtiField(t: string)
    requires t == "My first name is Srushti Jagtap"
    ensures FieldAt(t, 3, FirstNameFields) == Some("Srushti")
  {
    SrushtiSlice(t);
    FirstField();
    SrushtiKeyword(t);
    SrushtiValue(t);
    SrushtiToken(t);
    PhraseValueHit(t, 3, FirstNameFields[0], 13, 17);
    FieldAtHead(t, 3, FirstNameFields, 17);
  }

  lemma SrushtiMisses(t: string)
    requires t == "My first name is Srushti Jagtap"
    ensures FieldAt(t, 0, FirstNameFields) == None
    ensures !Boundary(t, 1)
    ensures FieldAt(t, 2, FirstNameFields) == None
    ensures Boundary(t, 3)
  {
    assert !WordCI(t, 0, "first") && !WordCI(t, 0, "given");
    assert !WordCI(t, 2, "first") && !WordCI(t, 2, "given");
  }

  lemma SrushtiSearch(t: string)
    requires t == "My first name is Srushti Jagtap"
    ensures FieldSearch(t, 0, FirstNameFields) == Some("Srushti")
  {
    SrushtiSlice(t);
    SrushtiField(t);
    SrushtiMisses(t);
    FieldSearchHit(t, 3, FirstNameFields);
    FieldSearchSkip(t, 0, FirstNameFields);
    FieldSearchSkip(t, 1, FirstNameFields);
    FieldSearchSkip(t, 2, FirstNameFields);
  }

  /** "My first name is Srushti Jagtap" answers the first-name question with "Srushti". */
  lemma SrushtiExample()
    ensures FirstNameRule("My first name is Srushti Jagtap") == Some("Srushti")
  {
    StripByNoop("My first name is Srushti Jagtap", IsPySpace);
    SrushtiSearch("My first name is Srushti Jagtap");
    assert IsCleanName("Srushti");
    CleanTokenOfCleanName("Srushti");
  }

  // ----------------------------------------------- "No reports made"

  lemma NoReportsText()
    ensures Strip("No reports made") == "No reports made"
    ensures Lower("No reports made") == "no reports made"
  {
    StripByNoop("No reports made", IsPySpace);
  }

  lemma NoReportsNoPolice()
    ensures !Contains("no reports made", "police") && !Contains("no reports made", "authority")
  {
    NoMatchNoContains("no reports made", "police");
    NoMatchNoContains("no reports made", "authority");
  }

  lemma NoReportsNoOffice()
    ensures !Contains("no reports made", "authorities") && !Contains("no reports made", "state office")
  {
    NoMatchNoContains("no reports made", "authorities");
    NoMatchNoContains("no reports made", "state office");
  }

  lemma NoReportsNoHelpline()
    ensures !Contains("no reports made", "helpline") && !Contains("no reports made", "insurance")
  {
    NoMatchNoContains("no reports made", "helpline");
    NoMatchNoContains("no reports made", "insurance");
  }

  /** "No reports made" names no authority and starts with "no", so it reads as "No". */
  lemma NoReportsExample()
    ensures ReportsRule("No reports made") == Some("No")
  {
    NoReportsText();
    NoReportsNoPolice();
    NoReportsNoOffice();
    NoReportsNoHelpline();
  }

  // --------------------------------------- "Yes, I called the police"

  lemma PoliceLower()
    ensures Lower("Yes, I called the police") == "yes, i called the police"
  {
  }

  lemma PoliceStrip()
    ensures Strip("Yes, I called the police") == "Yes, I called the police"
  {
    StripByNoop("Yes, I called the police", IsPySpace);
  }

  lemma PoliceNotExact()
    ensures "yes, i called the police" !in ReportYesWords + ReportNoWords
  {
  }

  lemma PoliceNamed()
    ensures Contains("yes, i called the police", "police")
  {
    ContainsAt("yes, i called the police", "police", 18);
  }

  /** "Yes, I called the police" is reported as "Yes, to police". */
  lemma PoliceExample()
    ensures ReportsRule("Yes, I called the police") == Some("Yes, to police")
  {
    PoliceLower();
    PoliceStrip();
    PoliceNotExact();
    PoliceNamed();
  }

  // ------------------------------------------ "Yes, I went to the ER"

  lemma YesErStrip()
    ensures Strip("Yes, I went to the ER") == "Yes, I went to the ER"
  {
    StripByNoop("Yes, I went to the ER", IsPySpace);
  }

  lemma YesErLower()
    ensures Lower("Yes, I went to the ER") == "yes, i went to the er"
  {
  }

  lemma YesErSplice()
    ensures StartsWith("yes, i went to the er", "yes")
    ensures "Yes" + "Yes, I went to the ER"[3..] == "Yes, I went to the ER"
  {
    StartsWithIff("yes, i went to the er", "yes");
  }

  /** "Yes, I went to the ER" keeps its details after the normalised "Yes". */
  lemma YesErExample()
    ensures YesNoRule("Yes, I went to the ER") == Some("Yes, I went to the ER")
  {
    YesErStrip();
    YesErLower();
    YesErSplice();
    YesNoKeepsDetails("Yes, I went to the ER");
  }

  // ------------------------------------------------------ "One or two"

  lemma OneOrTwoText()
    ensures Strip("One or two") == "One or two"
    ensures Lower("One or two") == "one or two"
  {
    StripByNoop("One or two", IsPySpace);
  }

  lemma OneOrTwoNotNone()
    ensures "one or two" !in {"no", "none", "no one", "nobody"}
  {
  }

  lemma OneOrTwoHasTwo()
    ensures Contains("one or two", "two")
  {
    ContainsAt("one or two", "two", 7);
  }

  /** "two" is looked for before "one", so "One or two" counts as "Two". */
  lemma OneOrTwoExample()
    ensures WitnessesRule("One or two") == Some("Two")
  {
    OneOrTwoText();
    OneOrTwoNotNone();
    OneOrTwoHasTwo();
  }

  // --------------------------------------------------- "Unknown names"

  lemma UnknownNamesText()
    ensures Strip("Unknown names") == "Unknown names"
    ensures Lower("Unknown names") == "unknown names"
  {
    StripByNoop("Unknown names", IsPySpace);
  }

  lemma UnknownNamesWords()
    ensures |SplitWs("Unknown names")| == 2
  {
    assert "Unknown names" == "Unknown" + " " + "names";
    SplitWsJoin("Unknown", "names");
  }

  lemma UnknownNamesNotDontKnow()
    ensures "unknown names" !in DontKnowReplies
  {
  }

  /**
   * A reply that happens to read "Unknown names" is not one of the
   * don't-know replies, yet it is kept as two names and so gives the same
   * answer as "I don't know".
   */
  lemma UnknownNamesExample()
    ensures Lower(Strip("Unknown names")) !in DontKnowReplies
    ensures WitnessNamesRule("Unknown names") == Some("Unknown names")
  {
    UnknownNamesText();
    UnknownNamesWords();
    UnknownNamesNotDontKnow();
  }

  // ------------------------------------------------------------- dates

  /** The month alternatives move past the first `m` spellings when none of them matches. */
  lemma {:induction false} MonthDateSkip(t: string, i: nat, forms: seq<string>, m: nat)
    requires i <= |t| && m <= |forms|
    requires forall j :: 0 <= j < |forms| ==> |forms[j]| > 0 && IsLower(forms[j][0])
    requires forall j :: 0 <= j < m ==> !WordCI(t, i, forms[j])
    ensures MonthDateAt(t, i, forms) == MonthDateAt(t, i, forms[m..])
    decreases m
  {
    if m > 0 {
      assert !WordCI(t, i, forms[0]);
      MonthDateSkip(t, i, forms[1..], m - 1);
      assert forms[1..][m - 1..] == forms[m..];
    }
  }

  /** The month alternatives all fail where none of the spellings matches. */
  lemma MonthDateMiss(t: string, i: nat, forms: seq<string>)
    requires i <= |t|
    requires forall j :: 0 <= j < |forms| ==> |forms[j]| > 0 && IsLower(forms[j][0])
    requires forall j :: 0 <= j < |forms| ==> !WordCI(t, i, forms[j])
    ensures MonthDateAt(t, i, forms).None?
  {
    MonthDateSkip(t, i, forms, |forms|);
    assert forms[|forms|..] == [];
  }

  /** The month spellings start with one of eight letters, and the ones starting with `o` go on with `c`. */
  /** The month spellings start with one of eight letters, and the ones starting with `o` go on with `c`. */
  lemma MonthInitials()
    ensures forall j :: 0 <= j < |MonthForms| ==> |MonthForms[j]| >= 3 && MonthForms[j][0] in "jfmasond"
    ensures forall j :: 0 <= j < |MonthForms| && MonthForms[j][0] == 'o' ==> MonthForms[j][1] == 'c'
  {
  }

  /** No month spelling starts at a word opening with a letter no spelling opens with, or with `o` but not `oc`. */
  lemma NoMonthAtWord(t: string, i: nat)
    requires i + 1 < |t|
    requires LowerChar(t[i]) !in "jfmasond" || (LowerChar(t[i]) == 'o' && LowerChar(t[i + 1]) != 'c')
    ensures MonthDateAt(t, i, MonthForms).None?
  {
    MonthFormsInitials();
    MonthInitials();
    forall j | 0 <= j < |MonthForms|
      ensures !WordCI(t, i, MonthForms[j])
    {
    }
    MonthDateMiss(t, i, MonthForms);
  }

  /** No month spelling starts at a character that is not a letter. */
  lemma NoMonthAtNonLetter(t: string, i: nat)
    requires i < |t| && !IsLetter(t[i])
    ensures MonthDateAt(t, i, MonthForms).None?
  {
    MonthFormsInitials();
    forall j | 0 <= j < |MonthForms|
      ensures !WordCI(t, i, MonthForms[j])
    {
    }
    MonthDateMiss(t, i, MonthForms);
  }

  /** No date starts inside a word: after its first letter there is no word boundary. */
  lemma NoDateInWord(t: string, a: nat, w: string)
    requires a + |w| <= |t| && t[a..a + |w|] == w
    requires forall k :: 0 <= k < |w| ==> IsLetter(w[k])
    ensures forall k :: a < k < a + |w| ==> DateMatcher(t)(k).None?
  {
    forall k | a < k < a + |w|
      ensures DateMatcher(t)(k).None?
    {
      assert t[k - 1] == w[k - 1 - a] && t[k] == w[k - a];
    }
  }

  /** No date starts at a space. */
  lemma NoDateAtSpace(t: string, k: nat)
    requires k < |t| && t[k] == ' '
    ensures DateMatcher(t)(k).None?
  {
    NoMonthAtNonLetter(t, k);
  }

  /** No date starts at a word whose first two letters begin no month spelling. */
  lemma NoDateAtWord(t: string, k: nat)
    requires k + 1 < |t| && IsLetter(t[k])
    requires LowerChar(t[k]) !in "jfmasond" || (LowerChar(t[k]) == 'o' && LowerChar(t[k + 1]) != 'c')
    ensures DateMatcher(t)(k).None?
  {
    NoMonthAtWord(t, k);
  }

  /** The first spelling that matches, followed by a boundary, spaces and a digit, gives the date's end. */
  lemma MonthDateHit(t: string, i: nat, forms: seq<string>)
    requires i <= |t| && forms != []
    requires forall j :: 0 <= j < |forms| ==> |forms[j]| > 0 && IsLower(forms[j][0])
    requires WordCI(t, i, forms[0]) && Boundary(t, i + |forms[0]|) && WsRun(t, i + |forms[0]|) >= 1
    requires DigitsAt(t, i + |forms[0]| + WsRun(t, i + |forms[0]|), 1)
    ensures MonthDateAt(t, i, forms) == Some(DayYearEnd(t, i + |forms[0]| + WsRun(t, i + |forms[0]|)))
  {
  }

  /** The leftmost search moves past a position without a match. */
  lemma LeftmostSkip(at: nat -> Option<nat>, i: nat, n: nat)
    requires i <= n && at(i).None?
    ensures Leftmost(at, i, n) == Leftmost(at, i + 1, n)
  {
  }

  lemma IsoNotNumeric(t: string)
    requires t == "2025-09-04"
    ensures NumericDateAt(t, 0).None?
  {
    assert SlashDayEnd(t, 2).None?;
    assert SlashDayEnd(t, 1).None?;
  }

  lemma IsoWhole(t: string)
    requires t == "2025-09-04"
    ensures IsoDateAt(t, 0) == Some(10)
  {
    assert DigitsAt(t, 0, 4) && t[4] == '-' && DigitsAt(t, 5, 2) && t[7] == '-' && DigitsAt(t, 8, 2);
    assert Boundary(t, 10);
  }

  lemma IsoDateAtStart(t: string)
    requires t == "2025-09-04"
    ensures DateSearch(t, 0) == Some((0, 10))
  {
    assert Boundary(t, 0);
    NoMonthAtNonLetter(t, 0);
    IsoNotNumeric(t);
    IsoWhole(t);
    assert DateAt(t, 0) == Some(10);
    assert DateMatcher(t)(0) == Some(10);
  }

  /** The first fifteen characters of "It happened on March 15th, 2024", as the date search sees them. */
  predicate MarchOpening(t: string) {
    |t| == 31 && t[2] == ' ' && t[11] == ' ' && t[14] == ' '
    && t[0..2] == "It" && t[3..11] == "happened" && t[12..14] == "on"
    && IsLetter(t[0]) && LowerChar(t[0]) == 'i'
    && IsLetter(t[3]) && LowerChar(t[3]) == 'h'
    && IsLetter(t[12]) && LowerChar(t[12]) == 'o' && LowerChar(t[13]) == 'n'
  }

  lemma MarchFirstWords(t: string)
    requires t == "It happened on March 15th, 2024"
    ensures |t| == 31 && t[0..2] == "It" && t[12..14] == "on"
  {
    assert t[0..2] == [t[0], t[1]];
    assert t[12..14] == [t[12], t[13]];
  }

  lemma MarchHappened(t: string)
    requires t == "It happened on March 15th, 2024"
    ensures t[3..11] == "happened"
  {
    var pre, post := "It ", " on March 15th, 2024";
    assert t == pre + "happened" + post;
    assert (pre + "happened" + post)[3..11] == "happened";
  }

  lemma MarchWords(t: string)
    requires t == "It happened on March 15th, 2024"
    ensures MarchOpening(t)
  {
    MarchFirstWords(t);
    MarchHappened(t);
    assert t[2] == ' ' && t[11] == ' ' && t[14] == ' ';
    assert t[0] == 'I' && t[3] == 'h' && t[12] == 'o' && t[13] == 'n';
  }

  lemma MarchNoDateAtWords(t: string)
    requires MarchOpening(t)
    ensures DateMatcher(t)(0).None? && DateMatcher(t)(3).None? && DateMatcher(t)(12).None?
  {
    NoDateAtWord(t, 0);
    NoDateAtWord(t, 3);
    NoDateAtWord(t, 12);
  }

  lemma MarchNoDateAtSpaces(t: string)
    requires MarchOpening(t)
    ensures DateMatcher(t)(2).None? && DateMatcher(t)(11).None? && DateMatcher(t)(14).None?
  {
    NoDateAtSpace(t, 2);
    NoDateAtSpace(t, 11);
    NoDateAtSpace(t, 14);
  }

  lemma MarchNoDateInWords(t: string)
    requires MarchOpening(t)
    ensures DateMatcher(t)(1).None? && DateMatcher(t)(13).None?
    ensures forall k :: 3 < k < 11 ==> DateMatcher(t)(k).None?
  {
    NoDateInWord(t, 0, "It");
    NoDateInWord(t, 3, "happened");
    NoDateInWord(t, 12, "on");
  }

  lemma MarchNotJanuaryOrFebruary(t: string)
    requires t == "It happened on March 15th, 2024"
    ensures forall j :: 0 <= j < 4 ==> !WordCI(t, 15, MonthForms[j])
  {
    assert MonthForms[..4] == ["january", "jan", "february", "feb"];
    assert !WordCI(t, 15, "january") && !WordCI(t, 15, "jan");
    assert !WordCI(t, 15, "february") && !WordCI(t, 15, "feb");
  }

  lemma MarchMonthWord(t: string)
    requires t == "It happened on March 15th, 2024"
    ensures MonthDateAt(t, 15, MonthForms) == MonthDateAt(t, 15, MonthForms[4..])
    ensures MonthForms[4..][0] == "march"
  {
    MonthFormsInitials();
    MarchNotJanuaryOrFebruary(t);
    MonthDateSkip(t, 15, MonthForms, 4);
  }

  lemma MarchWord(t: string)
    requires t == "It happened on March 15th, 2024"
    ensures |t| == 31 && Boundary(t, 15) && WordCI(t, 15, "march") && Boundary(t, 20)
  {
  }

  lemma MarchDay(t: string)
    requires t == "It happened on March 15th, 2024"
    ensures WsRun(t, 20) == 1 && DigitsAt(t, 21, 1) && DayYearEnd(t, 21) == 23
  {
    assert WsRun(t, 21) == 0;
    assert DigitsAt(t, 21, 2) && t[23] == 't';
  }

  /** A month date at a boundary is what the date matcher reports there. */
  lemma DateAtMonth(t: string, i: nat, e: nat)
    requires i <= |t| && Boundary(t, i) && MonthDateAt(t, i, MonthForms) == Some(e)
    ensures DateMatcher(t)(i) == Some(e)
  {
  }

  /** The month alternative at a boundary, once its spelling is known to be the fifth, matches up to `e`. */
  lemma MonthDateAtFifth(t: string, i: nat, e: nat)
    requires i < |t| && Boundary(t, i)
    requires MonthDateAt(t, i, MonthForms) == MonthDateAt(t, i, MonthForms[4..]) && MonthForms[4..][0] == "march"
    requires WordCI(t, i, "march") && Boundary(t, i + 5) && WsRun(t, i + 5) == 1 && DigitsAt(t, i + 6, 1)
    requires DayYearEnd(t, i + 6) == e
    ensures DateMatcher(t)(i) == Some(e)
  {
    var forms := MonthForms[4..];
    MonthFormsInitials();
    assert forall j :: 0 <= j < |forms| ==> forms[j] == MonthForms[j + 4];
    MonthDateHit(t, i, forms);
    DateAtMonth(t, i, e);
  }

  lemma MarchAt(t: string)
    requires t == "It happened on March 15th, 2024"
    ensures DateMatcher(t)(15) == Some(23)
  {
    MarchMonthWord(t);
    MarchWord(t);
    MarchDay(t);
    MonthDateAtFifth(t, 15, 23);
  }

  lemma MarchSearch(t: string)
    requires t == "It happened on March 15th, 2024"
    ensures DateSearch(t, 0) == Some((15, 23))
  {
    MarchWords(t);
    MarchNoDateAtWords(t);
    MarchNoDateAtSpaces(t);
    MarchNoDateInWords(t);
    MarchAt(t);
    var at := DateMatcher(t);
    var k := 0;
    while k < 15
      invariant 0 <= k <= 15
      invariant Leftmost(at, 0, |t|) == Leftmost(at, k, |t|)
    {
      LeftmostSkip(at, k, |t|);
      k := k + 1;
    }
  }

  lemma MarchDateSlice(t: string)
    requires t == "It happened on March 15th, 2024"
    ensures t[15..23] == "March 15"
  {
    assert t[15..23] == [t[15], t[16], t[17], t[18], t[19], t[20], t[21], t[22]];
  }

  /** The rule returns the match the search finds. */
  lemma DateRuleOfSearch(t: string, i: nat, e: nat)
    requires DateSearch(t, 0) == Some((i, e))
    ensures i <= e <= |t| && DateRule(t) == Some(t[i..e])
  {
    DateRuleIsMatch(t);
  }

  /** A spelled-out date in a sentence: the ordinal suffix and the year are left behind. */
  lemma MarchDateExample(t: string)
    requires t == "It happened on March 15th, 2024"
    ensures DateRule(t) == Some("March 15")
  {
    MarchSearch(t);
    DateRuleOfSearch(t, 15, 23);
    MarchDateSlice(t);
  }

  /** An ISO date is taken whole. */
  lemma IsoDateExample()
    ensures DateRule("2025-09-04") == Some("2025-09-04")
  {
    IsoDateAtStart("2025-09-04");
    DateRuleIsMatch("2025-09-04");
    assert "2025-09-04"[0..10] == "2025-09-04";
  }
}
