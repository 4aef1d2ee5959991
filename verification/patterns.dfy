/**
 * Hand-written scanners for the regular expressions the answer rules use:
 * the name token, the "first name is …" and "my name is …" phrases, and the
 * date pattern. Each scanner follows the regular-expression engine's
 * leftmost search and its backtracking order (greedy quantifiers try the
 * longest extent first, alternatives are tried in order), over ASCII
 * letters, digits and Python's whitespace. Keywords compare case-blind.
 */
module Patterns {
  import opened Wrappers
  import opened Text

  // ---------------------------------------------------------------- runs

  /** The characters a name token continues with: letters, `-`, `'` and `.`. */
  predicate IsTokenChar(c: char) {
    IsLetter(c) || c == '-' || c == '\'' || c == '.'
  }

  /** Length of the whitespace run starting at `p`. */
  function WsRun(t: string, p: nat): (r: nat)
    requires p <= |t|
    ensures p + r <= |t|
    ensures forall k :: p <= k < p + r ==> IsPySpace(t[k])
    ensures p + r < |t| ==> !IsPySpace(t[p + r])
    decreases |t| - p
  {
    if p < |t| && IsPySpace(t[p]) then 1 + WsRun(t, p + 1) else 0
  }

  /** Length of the run of token characters starting at `p`. */
  function TokRun(t: string, p: nat): (r: nat)
    requires p <= |t|
    ensures p + r <= |t|
    ensures forall k :: p <= k < p + r ==> IsTokenChar(t[k])
    ensures p + r < |t| ==> !IsTokenChar(t[p + r])
    decreases |t| - p
  {
    if p < |t| && IsTokenChar(t[p]) then 1 + TokRun(t, p + 1) else 0
  }

  /** `t` holds `w` (lower case) at `p`, ignoring case, compared from index `k` of `w` on. */
  predicate MatchCI(t: string, w: string, p: nat, k: nat)
    requires p + |w| <= |t| && k <= |w|
    decreases |w| - k
  {
    k == |w| || (LowerChar(t[p + k]) == w[k] && MatchCI(t, w, p, k + 1))
  }

  predicate WordCI(t: string, p: nat, w: string) {
    p + |w| <= |t| && MatchCI(t, w, p, 0)
  }

  /** `t[p..p + n]` are all digits. */
  predicate DigitsAt(t: string, p: nat, n: nat) {
    p + n <= |t| && forall k :: p <= k < p + n ==> IsDigit(t[k])
  }

  // --------------------------------------------------------------- tokens

  /** A whole name token: a letter followed by token characters. */
  predicate IsNameToken(s: string) {
    |s| > 0 && IsLetter(s[0]) && forall k :: 1 <= k < |s| ==> IsTokenChar(s[k])
  }

  /** The longest of the lengths `L, L - 1, …, 1` after which a word boundary holds. */
  function BoundedLen(t: string, p: nat, L: nat): (r: Option<nat>)
    requires p + L <= |t|
    ensures r.Some? ==> 1 <= r.value <= L && Boundary(t, p + r.value)
    ensures r.None? ==> forall m :: p + 1 <= m <= p + L ==> !Boundary(t, m)
    ensures r.Some? ==> forall m :: p + r.value < m <= p + L ==> !Boundary(t, m)
    decreases L
  {
    if L == 0 then None
    else if Boundary(t, p + L) then Some(L)
    else BoundedLen(t, p, L - 1)
  }

  /** A name token at `p` followed by `\b`, its length chosen longest first. */
  function TokenAt(t: string, p: nat): (r: Option<nat>)
    requires p <= |t|
    ensures r.Some? ==> p + r.value <= |t| && IsNameToken(t[p..p + r.value]) && Boundary(t, p + r.value)
  {
    if p < |t| && IsLetter(t[p]) then BoundedLen(t, p, 1 + TokRun(t, p + 1)) else None
  }

  // -------------------------------------------------------------- phrases

  /** A keyword phrase: its words, separated by `\s*` (`minGap` 0) or `\s+` (`minGap` 1). */
  datatype Phrase = Phrase(words: seq<string>, minGap: nat)

  /** Where `words` end when they match at `p`. */
  function WordsEnd(t: string, p: nat, words: seq<string>, minGap: nat): (r: Option<nat>)
    requires p <= |t|
    ensures r.Some? ==> p <= r.value <= |t|
    decreases |words|
  {
    if words == [] then Some(p)
    else if !WordCI(t, p, words[0]) then None
    else if |words| == 1 then Some(p + |words[0]|)
    else
      var q := p + |words[0]|;
      var r := WsRun(t, q);
      if r < minGap then None else WordsEnd(t, q + r, words[1..], minGap)
  }

  /** `\s+` then a name token at `q`: where the token starts. */
  function TokenAfterSpace(t: string, q: nat): (r: Option<nat>)
    requires q <= |t|
    ensures r.Some? ==> r.value <= |t| && TokenAt(t, r.value).Some?
  {
    var s := WsRun(t, q);
    if s >= 1 && TokenAt(t, q + s).Some? then Some(q + s) else None
  }

  /** `\s*(is|:)?\s+(?P<n>TOKEN)\b` after a field keyword ending at `a`: where the token starts. */
  function FieldValueAt(t: string, a: nat): (r: Option<nat>)
    requires a <= |t|
    ensures r.Some? ==> r.value <= |t| && TokenAt(t, r.value).Some?
  {
    var w := WsRun(t, a);
    var b := a + w;
    if WordCI(t, b, "is") && TokenAfterSpace(t, b + 2).Some? then TokenAfterSpace(t, b + 2)
    else if b < |t| && t[b] == ':' then TokenAfterSpace(t, b + 1)
    else if w >= 1 && TokenAt(t, b).Some? then Some(b)
    else None
  }

  /** The text of the name token at `p`. */
  function TokenText(t: string, p: nat): (r: string)
    requires p <= |t| && TokenAt(t, p).Some?
    ensures IsNameToken(r)
  {
    t[p..p + TokenAt(t, p).value]
  }

  /** Where the field value starts when the keyword phrase `ph` matches at `i`. */
  function PhraseValue(t: string, i: nat, ph: Phrase): (r: Option<nat>)
    requires i <= |t|
    ensures r.Some? ==> r.value <= |t| && TokenAt(t, r.value).Some?
  {
    var a := WordsEnd(t, i, ph.words, ph.minGap);
    if a.Some? then FieldValueAt(t, a.value) else None
  }

  /** The first alternative among `alts` matching at `i` together with the field value after it. */
  function FieldAt(t: string, i: nat, alts: seq<Phrase>): (r: Option<string>)
    requires i <= |t|
    ensures r.Some? ==> IsNameToken(r.value)
    decreases |alts|
  {
    if alts == [] then None
    else
      var v := PhraseValue(t, i, alts[0]);
      if v.Some? then Some(TokenText(t, v.value)) else FieldAt(t, i, alts[1..])
  }

  /** `re.search(r"\b(<alts>)\s*(is|:)?\s+(?P<n>TOKEN)\b", t, re.I)`, from offset `i` on: group `n`. */
  function FieldSearch(t: string, i: nat, alts: seq<Phrase>): (r: Option<string>)
    ensures r.Some? ==> IsNameToken(r.value)
    decreases |t| - i
  {
    if i > |t| then None
    else
      var here := if Boundary(t, i) then FieldAt(t, i, alts) else None;
      if here.Some? then here else FieldSearch(t, i + 1, alts)
  }

  /**
   * A first token at `p` of length at most `L` (tried longest first),
   * followed by `(?:\s+TOKEN){0,k}\b`: the tokens matched.
   */
  function TokensFrom(t: string, p: nat, L: nat, k: nat): (r: Option<seq<string>>)
    requires p < |t| && IsLetter(t[p]) && L <= 1 + TokRun(t, p + 1)
    ensures r.Some? ==> 1 <= |r.value| <= k + 1 && forall j :: 0 <= j < |r.value| ==> IsNameToken(r.value[j])
    decreases k, 1, L
  {
    if L == 0 then None
    else
      assert IsNameToken(t[p..p + L]);
      match MoreTokens(t, p + L, k)
      case Some(rest) => Some([t[p..p + L]] + rest)
      case None => TokensFrom(t, p, L - 1, k)
  }

  /** `(?:\s+TOKEN){0,k}\b` at `q`, with as many repetitions as possible: the tokens matched. */
  function MoreTokens(t: string, q: nat, k: nat): (r: Option<seq<string>>)
    requires q <= |t|
    ensures r.Some? ==> |r.value| <= k && forall j :: 0 <= j < |r.value| ==> IsNameToken(r.value[j])
    decreases k, 0, 0
  {
    var more :=
      if k > 0 then
        var s := WsRun(t, q);
        var p := q + s;
        if s >= 1 && p < |t| && IsLetter(t[p]) then TokensFrom(t, p, 1 + TokRun(t, p + 1), k - 1) else None
      else None;
    if more.Some? then more
    else if Boundary(t, q) then Some([])
    else None
  }

  /** The first alternative among `alts` matching at `i`, then `\s+` and one to four tokens. */
  function PhraseAt(t: string, i: nat, alts: seq<Phrase>): (r: Option<seq<string>>)
    requires i <= |t|
    ensures r.Some? ==> 1 <= |r.value| <= 4 && forall j :: 0 <= j < |r.value| ==> IsNameToken(r.value[j])
    decreases |alts|
  {
    if alts == [] then None
    else
      var v := match WordsEnd(t, i, alts[0].words, alts[0].minGap)
               case Some(a) =>
                 var s := WsRun(t, a);
                 var p := a + s;
                 if s >= 1 && p < |t| && IsLetter(t[p]) then TokensFrom(t, p, 1 + TokRun(t, p + 1), 3) else None
               case None => None;
      if v.Some? then v else PhraseAt(t, i, alts[1..])
  }

  /**
   * `re.search(r"\b(<alts>)\s+(?P<full>(TOKEN)(?:\s+TOKEN){0,3})\b", t, re.I)`,
   * from offset `i` on: the tokens of group `full`, which are its whitespace-split parts.
   */
  function PhraseSearch(t: string, i: nat, alts: seq<Phrase>): (r: Option<seq<string>>)
    ensures r.Some? ==> 1 <= |r.value| <= 4 && forall j :: 0 <= j < |r.value| ==> IsNameToken(r.value[j])
    decreases |t| - i
  {
    if i > |t| then None
    else
      var here := if Boundary(t, i) then PhraseAt(t, i, alts) else None;
      if here.Some? then here else PhraseSearch(t, i + 1, alts)
  }

  // ----------------------------------------------------------- name tidy-up

  /** The characters of `string.punctuation + " "`. */
  predicate IsPunctOrSpace(c: char) { IsPunct(c) || c == ' ' }

  /** `_clean_token`: trims punctuation and spaces from both ends and upper-cases the first letter. */
  function CleanToken(tok: string): (r: string)
    ensures |r| <= |tok|
  {
    var s := StripBy(tok, IsPunctOrSpace);
    if s == [] then [] else [UpperChar(s[0])] + s[1..]
  }

  /** A tidy name: capitalised, made of token characters, ending in a letter. */
  predicate IsCleanName(v: string) {
    |v| > 0 && IsUpper(v[0]) && IsLetter(v[|v| - 1]) && forall k :: 0 <= k < |v| ==> IsTokenChar(v[k])
  }

  /** Cleaning a name token drops its trailing `-`, `'` and `.` and capitalises it. */
  lemma CleanTokenOfNameToken(tok: string)
    requires IsNameToken(tok)
    ensures IsCleanName(CleanToken(tok))
    ensures CleanToken(tok) == [UpperChar(tok[0])] + StripBy(tok, IsPunctOrSpace)[1..]
  {
    var s := StripBy(tok, IsPunctOrSpace);
    assert !IsPunctOrSpace(tok[0]);
    assert LeadCount(tok, IsPunctOrSpace) == 0;
    assert s == tok[..|s|];
    assert s != [];
    assert forall k :: 0 <= k < |s| ==> s[k] == tok[k];
  }

  /** A tidy name is left as it is by cleaning. */
  lemma CleanTokenOfCleanName(v: string)
    requires IsCleanName(v)
    ensures CleanToken(v) == v
  {
    assert !IsPunctOrSpace(v[0]) && !IsPunctOrSpace(v[|v| - 1]);
    StripByNoop(v, IsPunctOrSpace);
    assert UpperChar(v[0]) == v[0];
    assert [v[0]] + v[1..] == v;
  }

  /** `_only_token(t, NAME_TOKEN)`: the whole text, up to surrounding whitespace, is one name token. */
  function OnlyToken(text: string): (r: Option<string>)
    ensures r.Some? <==> IsNameToken(Strip(text))
    ensures r.Some? ==> IsCleanName(r.value)
  {
    var s := Strip(text);
    if IsNameToken(s) then
      CleanTokenOfNameToken(s);
      Some(CleanToken(s))
    else None
  }

  predicate IsQuoteOrDot(c: char) { c == '.' || c == '"' || c == '\'' }

  /** Cleaning a word keeps it free of whitespace. */
  lemma CleanTokenWord(tok: string)
    requires IsWord(tok)
    ensures IsWord(CleanToken(tok))
  {
    var a := LeadCount(tok, IsPunctOrSpace);
    var s := StripBy(tok, IsPunctOrSpace);
    assert s == tok[a..a + |s|];
    if s != [] {
      var r := [UpperChar(s[0])] + s[1..];
      forall k | 0 <= k < |r|
        ensures !IsPySpace(r[k])
      {
        if k > 0 {
          assert r[k] == s[k] == tok[a + k];
        } else {
          assert !IsPySpace(tok[a]);
        }
      }
    }
  }

  /** The cleaned words, with the ones cleaning empties dropped. */
  function CleanedWords(parts: seq<string>): (r: seq<string>)
    ensures |r| <= |parts|
  {
    if parts == [] then [] else WordParts(CleanToken(parts[0])) + CleanedWords(parts[1..])
  }

  /** `" ".join(_clean_token(p) for p in parts[:2])` for at least one part. */
  function JoinFirstTwo(parts: seq<string>): (r: string)
    requires parts != [] && forall i :: 0 <= i < |parts| ==> IsWord(parts[i])
    ensures SplitWs(r) == CleanedWords(parts[..if |parts| < 2 then |parts| else 2])
  {
    CleanTokenWord(parts[0]);
    if |parts| == 1 then
      assert parts[..1] == [parts[0]];
      SplitWsWordParts(CleanToken(parts[0]));
      CleanToken(parts[0])
    else
      CleanTokenWord(parts[1]);
      assert parts[..2] == [parts[0], parts[1]];
      assert parts[..2][1..] == [parts[1]];
      SplitWsJoin(CleanToken(parts[0]), CleanToken(parts[1]));
      CleanToken(parts[0]) + " " + CleanToken(parts[1])
  }

  /**
   * `normalize_name`: at most the first two words, each cleaned, joined by one
   * space. The words of the result are the cleaned first two words of the
   * input, after surrounding whitespace, quotes and dots are trimmed.
   */
  function NormalizeName(s: string): (r: string)
    ensures |SplitWs(r)| <= 2
    ensures var parts := SplitWs(StripBy(Strip(s), IsQuoteOrDot));
            SplitWs(r) == CleanedWords(parts[..if |parts| < 2 then |parts| else 2])
  {
    var s1 := StripBy(Strip(s), IsQuoteOrDot);
    var parts := SplitWs(s1);
    if parts == [] then s1 else JoinFirstTwo(parts)
  }

  /** A tidy single name passes through normalisation unchanged. */
  lemma NormalizeCleanName(v: string)
    requires IsCleanName(v)
    ensures NormalizeName(v) == v
  {
    CleanNameTrimmed(v);
    SplitWsOfWord(v);
    CleanTokenOfCleanName(v);
  }

  /** A tidy name has no surrounding spaces, quotes or dots, and no whitespace inside. */
  lemma CleanNameTrimmed(v: string)
    requires IsCleanName(v)
    ensures StripBy(Strip(v), IsQuoteOrDot) == v && IsWord(v)
  {
    CleanNameStripped(v);
    CleanNameUnquoted(v);
    CleanNameWord(v);
  }

  lemma CleanNameStripped(v: string)
    requires IsCleanName(v)
    ensures Strip(v) == v
  {
    assert !IsPySpace(v[0]) && !IsPySpace(v[|v| - 1]);
    StripByNoop(v, IsPySpace);
  }

  lemma CleanNameUnquoted(v: string)
    requires IsCleanName(v)
    ensures StripBy(v, IsQuoteOrDot) == v
  {
    assert !IsQuoteOrDot(v[0]) && !IsQuoteOrDot(v[|v| - 1]);
    StripByNoop(v, IsQuoteOrDot);
  }

  lemma CleanNameWord(v: string)
    requires IsCleanName(v)
    ensures IsWord(v)
  {
    forall k | 0 <= k < |v|
      ensures !IsPySpace(v[k])
    {
      assert IsTokenChar(v[k]);
    }
  }

  // ------------------------------------------------------------------ dates

  /** The month spellings in the order the pattern tries them. */
  const MonthForms: seq<string> := [
    "january", "jan", "february", "feb", "march", "mar", "april", "apr", "may",
    "june", "jun", "july", "jul", "august", "aug", "sept.", "sept", "september", "sep",
    "october", "oct", "november", "nov", "december", "dec"]

  /** `\d{1,2}(?:,\s*\d{4})?` after the digit at `p`: where the match ends. */
  function DayYearEnd(t: string, p: nat): (e: nat)
    requires DigitsAt(t, p, 1)
    ensures p < e <= |t| && IsDigit(t[e - 1])
  {
    var q := if DigitsAt(t, p, 2) then p + 2 else p + 1;
    if q < |t| && t[q] == ',' && DigitsAt(t, q + 1 + WsRun(t, q + 1), 4) then q + 1 + WsRun(t, q + 1) + 4
    else q
  }

  /** A date match spans `t[i..e]`: it starts with a letter or digit and ends with a digit. */
  predicate DateSpan(t: string, i: nat, e: nat) {
    i < e <= |t| && IsDigit(t[e - 1]) && (IsLetter(t[i]) || IsDigit(t[i]))
  }

  /** Every month spelling starts with a lower-case letter. */
  lemma MonthFormsInitials()
    ensures forall j :: 0 <= j < |MonthForms| ==> |MonthForms[j]| > 0 && IsLower(MonthForms[j][0])
  {
  }

  /** `(?:<month>)\b\s+\d{1,2}(?:,\s*\d{4})?` at `i`, trying the spellings in `forms` in order. */
  function MonthDateAt(t: string, i: nat, forms: seq<string>): (r: Option<nat>)
    requires i <= |t|
    requires forall j :: 0 <= j < |forms| ==> |forms[j]| > 0 && IsLower(forms[j][0])
    ensures r.Some? ==> DateSpan(t, i, r.value)
    decreases |forms|
  {
    if forms == [] then None
    else
      var f := forms[0];
      if WordCI(t, i, f) && Boundary(t, i + |f|) && WsRun(t, i + |f|) >= 1
         && DigitsAt(t, i + |f| + WsRun(t, i + |f|), 1)
      then Some(DayYearEnd(t, i + |f| + WsRun(t, i + |f|)))
      else MonthDateAt(t, i, forms[1..])
  }

  /** `(?:/\d{2,4})?\b` at `q`, the longest digit group first. */
  function SlashYearEnd(t: string, q: nat): (r: Option<nat>)
    requires q <= |t|
    ensures r.Some? ==> q <= r.value <= |t| && Boundary(t, r.value)
    ensures r.Some? && r.value > q ==> IsDigit(t[r.value - 1])
  {
    if q < |t| && t[q] == '/' && DigitsAt(t, q + 1, 4) && Boundary(t, q + 5) then Some(q + 5)
    else if q < |t| && t[q] == '/' && DigitsAt(t, q + 1, 3) && Boundary(t, q + 4) then Some(q + 4)
    else if q < |t| && t[q] == '/' && DigitsAt(t, q + 1, 2) && Boundary(t, q + 3) then Some(q + 3)
    else if Boundary(t, q) then Some(q)
    else None
  }

  /** `/\d{1,2}(?:/\d{2,4})?\b` at `q`. */
  function SlashDayEnd(t: string, q: nat): (r: Option<nat>)
    requires q <= |t|
    ensures r.Some? ==> q + 1 < r.value <= |t| && IsDigit(t[r.value - 1])
  {
    if !(q < |t| && t[q] == '/') then None
    else if DigitsAt(t, q + 1, 2) && SlashYearEnd(t, q + 3).Some? then SlashYearEnd(t, q + 3)
    else if DigitsAt(t, q + 1, 1) then SlashYearEnd(t, q + 2)
    else None
  }

  /** `\d{1,2}/\d{1,2}(?:/\d{2,4})?\b` at `i`. */
  function NumericDateAt(t: string, i: nat): (r: Option<nat>)
    requires i <= |t|
    ensures r.Some? ==> DateSpan(t, i, r.value)
  {
    if DigitsAt(t, i, 2) && SlashDayEnd(t, i + 2).Some? then SlashDayEnd(t, i + 2)
    else if DigitsAt(t, i, 1) then SlashDayEnd(t, i + 1)
    else None
  }

  /** `\d{4}-\d{2}-\d{2}\b` at `i`. */
  function IsoDateAt(t: string, i: nat): (r: Option<nat>)
    requires i <= |t|
    ensures r.Some? ==> DateSpan(t, i, r.value)
  {
    if DigitsAt(t, i, 4) && i + 4 < |t| && t[i + 4] == '-' && DigitsAt(t, i + 5, 2)
       && i + 7 < |t| && t[i + 7] == '-' && DigitsAt(t, i + 8, 2) && Boundary(t, i + 10)
    then Some(i + 10)
    else None
  }

  /** The date pattern at `i`: its three alternatives, each behind a leading `\b`, in order. */
  function DateAt(t: string, i: nat): (r: Option<nat>)
    requires i <= |t|
    ensures r.Some? ==> DateSpan(t, i, r.value)
  {
    MonthFormsInitials();
    if !Boundary(t, i) then None
    else if MonthDateAt(t, i, MonthForms).Some? then MonthDateAt(t, i, MonthForms)
    else if NumericDateAt(t, i).Some? then NumericDateAt(t, i)
    else IsoDateAt(t, i)
  }

  /** The leftmost position from `i` up to `n` at which `at` finds a match, with where that match ends. */
  function Leftmost(at: nat -> Option<nat>, i: nat, n: nat): (r: Option<(nat, nat)>)
    ensures r.Some? ==> i <= r.value.0 <= n && at(r.value.0) == Some(r.value.1)
    decreases n + 1 - i
  {
    if i > n then None
    else if at(i).Some? then Some((i, at(i).value))
    else Leftmost(at, i + 1, n)
  }

  /** Nothing matches before the position found, and nothing at all when none is found. */
  lemma {:induction false} LeftmostFirst(at: nat -> Option<nat>, i: nat, n: nat, k: nat)
    requires i <= k <= n
    requires Leftmost(at, i, n).None? || k < Leftmost(at, i, n).value.0
    ensures at(k).None?
    decreases k - i
  {
    if k > i {
      assert at(i).None?;
      LeftmostFirst(at, i + 1, n, k);
    }
  }

  /** The date pattern tried at each position of `t`. */
  function DateMatcher(t: string): nat -> Option<nat> {
    (k: nat) => if k <= |t| then DateAt(t, k) else None
  }

  /** `re.search(DATE_PAT, t, re.I)` from offset `i` on: the span of the leftmost match. */
  function DateSearch(t: string, i: nat): (r: Option<(nat, nat)>)
    ensures r.Some? ==> i <= r.value.0 <= |t| && DateAt(t, r.value.0) == Some(r.value.1)
  {
    Leftmost(DateMatcher(t), i, |t|)
  }

  /** The search finds the leftmost match: no date starts between `i` and the match, and none at all when it fails. */
  lemma DateSearchLeftmost(t: string, i: nat, k: nat)
    requires i <= k <= |t|
    requires DateSearch(t, i).None? || k < DateSearch(t, i).value.0
    ensures DateAt(t, k).None?
  {
    LeftmostFirst(DateMatcher(t), i, |t|, k);
  }
}
