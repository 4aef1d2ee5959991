/**
 * String primitives of the two host languages, over `seq<char>`:
 * Python's `str.strip`, `str.lower`, `str.split`, `in`, `startswith`,
 * `replace` and the `\b` word boundary of `re`, and JavaScript's
 * `String.prototype.trim`. Case mapping covers ASCII letters only.
 */
module Text {

  // ---------------------------------------------------------------- classes

  /** Python's `str.isspace()` (also what `\s` matches in a `str` pattern). */
  predicate IsPySpace(c: char) {
    c == ' ' || ('\t' <= c <= '\r') || ('\U{1C}' <= c <= '\U{1F}')
    || c == '\U{85}' || c == '\U{A0}' || c == '\U{1680}'
    || ('\U{2000}' <= c <= '\U{200A}') || c == '\U{2028}' || c == '\U{2029}'
    || c == '\U{202F}' || c == '\U{205F}' || c == '\U{3000}'
  }

  /** The characters JavaScript's `trim` removes: WhiteSpace and LineTerminator. */
  predicate IsJsSpace(c: char) {
    c == ' ' || ('\t' <= c <= '\r') || c == '\U{A0}' || c == '\U{1680}'
    || ('\U{2000}' <= c <= '\U{200A}') || c == '\U{2028}' || c == '\U{2029}'
    || c == '\U{202F}' || c == '\U{205F}' || c == '\U{3000}' || c == '\U{FEFF}'
  }

  predicate IsUpper(c: char) { 'A' <= c <= 'Z' }
  predicate IsLower(c: char) { 'a' <= c <= 'z' }
  predicate IsLetter(c: char) { IsUpper(c) || IsLower(c) }
  predicate IsDigit(c: char) { '0' <= c <= '9' }

  /** `\w` of `re`, restricted to ASCII. */
  predicate IsWordChar(c: char) { IsLetter(c) || IsDigit(c) || c == '_' }

  /** Python's `string.punctuation`. */
  predicate IsPunct(c: char) {
    ('!' <= c <= '/') || (':' <= c <= '@') || ('[' <= c <= '`') || ('{' <= c <= '~')
  }

  function LowerChar(c: char): char {
    if IsUpper(c) then (c as int + 32) as char else c
  }

  function UpperChar(c: char): char {
    if IsLower(c) then (c as int - 32) as char else c
  }

  /** `s.lower()` */
  function Lower(s: string): (r: string)
    ensures |r| == |s|
    ensures forall i :: 0 <= i < |s| ==> r[i] == LowerChar(s[i])
  {
    seq(|s|, i requires 0 <= i < |s| => LowerChar(s[i]))
  }

  /** `s.upper()` */
  function Upper(s: string): (r: string)
    ensures |r| == |s|
    ensures forall i :: 0 <= i < |s| ==> r[i] == UpperChar(s[i])
  {
    seq(|s|, i requires 0 <= i < |s| => UpperChar(s[i]))
  }

  lemma LowerIdempotent(s: string)
    ensures Lower(Lower(s)) == Lower(s)
  {
  }

  // -------------------------------------------------------------- stripping

  /** Number of leading characters satisfying `p`. */
  function LeadCount(s: string, p: char -> bool): (n: nat)
    ensures n <= |s|
    ensures forall k :: 0 <= k < n ==> p(s[k])
    ensures n < |s| ==> !p(s[n])
  {
    if |s| > 0 && p(s[0]) then 1 + LeadCount(s[1..], p) else 0
  }

  /** Number of trailing characters satisfying `p`. */
  function TrailCount(s: string, p: char -> bool): (n: nat)
    ensures n <= |s|
    ensures forall k :: |s| - n <= k < |s| ==> p(s[k])
    ensures n < |s| ==> !p(s[|s| - 1 - n])
  {
    if |s| > 0 && p(s[|s| - 1]) then 1 + TrailCount(s[..|s| - 1], p) else 0
  }

  /** `s.rstrip(chars)` where `p` says which characters are in `chars`. */
  function RStripBy(s: string, p: char -> bool): (r: string)
    ensures |r| <= |s| && r == s[..|r|]
    ensures r == [] || !p(r[|r| - 1])
    ensures forall k :: |r| <= k < |s| ==> p(s[k])
  {
    s[..|s| - TrailCount(s, p)]
  }

  /** `s.strip(chars)` where `p` says which characters are in `chars`. */
  function StripBy(s: string, p: char -> bool): (r: string)
    ensures |r| <= |s|
    ensures r == [] || (!p(r[0]) && !p(r[|r| - 1]))
    ensures (forall k :: 0 <= k < |s| ==> p(s[k])) <==> r == []
    ensures LeadCount(s, p) + |r| <= |s|
    ensures r == s[LeadCount(s, p)..LeadCount(s, p) + |r|]
    ensures forall k :: LeadCount(s, p) + |r| <= k < |s| ==> p(s[k])
  {
    var a := LeadCount(s, p);
    var r := RStripBy(s[a..], p);
    assert s[a..a + |r|] == r;
    r
  }

  /** Stripping is idempotent. */
  lemma StripByIdempotent(s: string, p: char -> bool)
    ensures StripBy(StripBy(s, p), p) == StripBy(s, p)
  {
    var r := StripBy(s, p);
    if r != [] {
      assert LeadCount(r, p) == 0;
      assert TrailCount(r, p) == 0;
    }
  }

  /** Text whose edge characters are kept is its own strip. */
  lemma StripByNoop(s: string, p: char -> bool)
    requires s == [] || (!p(s[0]) && !p(s[|s| - 1]))
    ensures StripBy(s, p) == s
  {
    if s != [] {
      assert LeadCount(s, p) == 0;
      assert TrailCount(s, p) == 0;
    }
  }

  /** Text whose last character is kept is its own right strip. */
  lemma RStripByNoop(s: string, p: char -> bool)
    requires s == [] || !p(s[|s| - 1])
    ensures RStripBy(s, p) == s
  {
    if s != [] {
      assert TrailCount(s, p) == 0;
    }
  }

  /** Python's `s.strip()`. */
  function Strip(s: string): (r: string)
    ensures |r| <= |s|
    ensures r == [] || (!IsPySpace(r[0]) && !IsPySpace(r[|r| - 1]))
  {
    StripBy(s, IsPySpace)
  }

  /** JavaScript's `s.trim()`. */
  function JsTrim(s: string): (r: string)
    ensures |r| <= |s|
    ensures r == [] || (!IsJsSpace(r[0]) && !IsJsSpace(r[|r| - 1]))
  {
    StripBy(s, IsJsSpace)
  }

  /** Python's truthiness test `s.strip()` on a string: all characters are whitespace. */
  predicate IsBlank(s: string) {
    forall k :: 0 <= k < |s| ==> IsPySpace(s[k])
  }

  lemma BlankIffStripEmpty(s: string)
    ensures IsBlank(s) <==> Strip(s) == []
  {
  }

  // -------------------------------------------------------------- searching

  /** `sub` occurs in `s` at offset `i`, compared from index `k` of `sub` on. */
  predicate MatchAt(s: string, sub: string, i: nat, k: nat)
    requires i + |sub| <= |s| && k <= |sub|
    decreases |sub| - k
  {
    k == |sub| || (s[i + k] == sub[k] && MatchAt(s, sub, i, k + 1))
  }

  lemma {:induction false} MatchAtIff(s: string, sub: string, i: nat, k: nat)
    requires i + |sub| <= |s| && k <= |sub|
    ensures MatchAt(s, sub, i, k) <==> s[i + k..i + |sub|] == sub[k..]
    decreases |sub| - k
  {
    if k < |sub| {
      MatchAtIff(s, sub, i, k + 1);
      assert s[i + k..i + |sub|] == [s[i + k]] + s[i + k + 1..i + |sub|];
      assert sub[k..] == [sub[k]] + sub[k + 1..];
    }
  }

  /** `sub` occurs in `s` at offset `j`. */
  predicate OccursAt(s: string, sub: string, j: nat) {
    j + |sub| <= |s| && s[j..j + |sub|] == sub
  }

  /** `sub` occurs in `s` at some offset `>= i`. */
  predicate ContainsFrom(s: string, sub: string, i: nat)
    decreases |s| - i
  {
    i + |sub| <= |s| && (MatchAt(s, sub, i, 0) || ContainsFrom(s, sub, i + 1))
  }

  /** Python's `sub in s`. */
  predicate Contains(s: string, sub: string) {
    ContainsFrom(s, sub, 0)
  }

  /** Python's `s.startswith(pre)`. */
  predicate StartsWith(s: string, pre: string) {
    |pre| <= |s| && MatchAt(s, pre, 0, 0)
  }

  lemma StartsWithIff(s: string, pre: string)
    ensures StartsWith(s, pre) <==> |pre| <= |s| && s[..|pre|] == pre
  {
    if |pre| <= |s| {
      MatchAtIff(s, pre, 0, 0);
    }
  }

  lemma {:induction false} ContainsFromIff(s: string, sub: string, i: nat)
    ensures ContainsFrom(s, sub, i) <==> exists j: nat :: i <= j && OccursAt(s, sub, j)
    decreases |s| - i
  {
    if i + |sub| <= |s| {
      MatchAtIff(s, sub, i, 0);
      assert sub[0..] == sub;
      assert MatchAt(s, sub, i, 0) <==> OccursAt(s, sub, i);
      ContainsFromIff(s, sub, i + 1);
      if ContainsFrom(s, sub, i) {
        if MatchAt(s, sub, i, 0) {
          assert OccursAt(s, sub, i);
        }
      } else {
        assert !exists j: nat :: i <= j && OccursAt(s, sub, j);
      }
    }
  }

  /** `Contains` is the existence of an occurrence. */
  lemma ContainsIff(s: string, sub: string)
    ensures Contains(s, sub) <==> exists j: nat :: OccursAt(s, sub, j)
  {
    ContainsFromIff(s, sub, 0);
  }

  /** An occurrence at a known offset gives `Contains`. */
  lemma ContainsAt(s: string, sub: string, j: nat)
    requires OccursAt(s, sub, j)
    ensures Contains(s, sub)
  {
    ContainsIff(s, sub);
  }

  /** Every character of a contained pattern occurs in the text. */
  lemma ContainsChars(s: string, sub: string, k: nat)
    requires Contains(s, sub) && k < |sub|
    ensures sub[k] in s
  {
    ContainsIff(s, sub);
    var j: nat :| OccursAt(s, sub, j);
    assert s[j..j + |sub|][k] == s[j + k];
  }

  // ---------------------------------------------------------------- replace

  /** Python's `s.replace(pat, v)`: non-overlapping occurrences, left to right. */
  function Replace(s: string, pat: string, v: string): (r: string)
    requires |pat| > 0
    decreases |s|
  {
    if |s| < |pat| then s
    else if s[..|pat|] == pat then v + Replace(s[|pat|..], pat, v)
    else [s[0]] + Replace(s[1..], pat, v)
  }

  /** Replacing a pattern that does not occur leaves the text unchanged. */
  lemma {:induction false} ReplaceAbsent(s: string, pat: string, v: string)
    requires |pat| > 0
    requires !Contains(s, pat)
    ensures Replace(s, pat, v) == s
    decreases |s|
  {
    ContainsIff(s, pat);
    if |s| >= |pat| {
      assert !OccursAt(s, pat, 0);
      assert s[0..|pat|] == s[..|pat|];
      ContainsIff(s[1..], pat);
      if exists j: nat :: OccursAt(s[1..], pat, j) {
        var j: nat :| OccursAt(s[1..], pat, j);
        assert s[j + 1..j + 1 + |pat|] == s[1..][j..j + |pat|];
        assert OccursAt(s, pat, j + 1);
      }
      ReplaceAbsent(s[1..], pat, v);
      assert s == [s[0]] + s[1..];
    }
  }

  /** Replacing a pattern by itself leaves the text unchanged. */
  lemma {:induction false} ReplaceSelf(s: string, pat: string)
    requires |pat| > 0
    ensures Replace(s, pat, pat) == s
    decreases |s|
  {
    if |s| >= |pat| {
      if s[..|pat|] == pat {
        ReplaceSelf(s[|pat|..], pat);
        assert s == s[..|pat|] + s[|pat|..];
      } else {
        ReplaceSelf(s[1..], pat);
        assert s == [s[0]] + s[1..];
      }
    }
  }

  /** A text without an occurrence has none in its tail either. */
  lemma NotContainsTail(q: string, pat: string)
    requires |q| > 0 && !Contains(q, pat)
    ensures !Contains(q[1..], pat)
  {
    ContainsIff(q[1..], pat);
    ContainsIff(q, pat);
    if exists j: nat :: OccursAt(q[1..], pat, j) {
      var j: nat :| OccursAt(q[1..], pat, j);
      assert q[j + 1..j + 1 + |pat|] == q[1..][j..j + |pat|];
      assert OccursAt(q, pat, j + 1);
    }
  }

  /** The first occurrence is replaced and the scan resumes after it. */
  lemma {:induction false} ReplaceFirst(pre: string, pat: string, v: string, post: string)
    requires |pat| > 0
    requires !Contains(pre + pat[..|pat| - 1], pat)
    ensures Replace(pre + pat + post, pat, v) == pre + v + Replace(post, pat, v)
    decreases |pre|
  {
    if pre == [] {
      ReplaceAtHead(pat, v, post);
    } else {
      var q := pre + pat[..|pat| - 1];
      HeadNotPattern(pre, pat, post);
      NotContainsTail(q, pat);
      assert q[1..] == pre[1..] + pat[..|pat| - 1];
      ReplaceFirst(pre[1..], pat, v, post);
      ReplaceSkipsHead(pre, pat, v, post);
    }
  }

  /** Text that starts with the pattern has it replaced at once. */
  lemma ReplaceAtHead(pat: string, v: string, post: string)
    requires |pat| > 0
    ensures Replace(pat + post, pat, v) == v + Replace(post, pat, v)
  {
    var s := pat + post;
    assert s[..|pat|] == pat;
    assert s[|pat|..] == post;
  }

  /** With no occurrence in `pre + pat[..|pat| - 1]`, the pattern does not start the text. */
  lemma HeadNotPattern(pre: string, pat: string, post: string)
    requires |pat| > 0 && pre != []
    requires !Contains(pre + pat[..|pat| - 1], pat)
    ensures (pre + pat + post)[..|pat|] != pat
  {
    var s := pre + pat + post;
    var q := pre + pat[..|pat| - 1];
    assert s[..|pat|] == q[..|pat|];
    if s[..|pat|] == pat {
      assert OccursAt(q, pat, 0);
      ContainsAt(q, pat, 0);
    }
  }

  /** When the pattern does not start the text, the first character is kept. */
  lemma ReplaceSkipsHead(pre: string, pat: string, v: string, post: string)
    requires |pat| > 0 && pre != []
    requires (pre + pat + post)[..|pat|] != pat
    requires Replace(pre[1..] + pat + post, pat, v) == pre[1..] + v + Replace(post, pat, v)
    ensures Replace(pre + pat + post, pat, v) == pre + v + Replace(post, pat, v)
  {
    var s := pre + pat + post;
    assert s[1..] == pre[1..] + pat + post;
    assert Replace(s, pat, v) == [s[0]] + Replace(s[1..], pat, v);
    assert pre == [pre[0]] + pre[1..];
  }

  // ------------------------------------------------------------------ split

  predicate IsNotPySpace(c: char) { !IsPySpace(c) }

  /** Python's `s.split()`: the maximal runs of non-whitespace, in order. */
  function SplitWs(s: string): (parts: seq<string>)
    ensures forall i :: 0 <= i < |parts| ==> parts[i] != [] && IsWord(parts[i])
    decreases |s|
  {
    var a := LeadCount(s, IsPySpace);
    if a == |s| then []
    else
      var rest := s[a..];
      var w := LeadCount(rest, IsNotPySpace);
      assert w > 0;
      var word := rest[..w];
      assert forall k :: 0 <= k < |word| ==> IsNotPySpace(word[k]);
      [word] + SplitWs(rest[w..])
  }

  /** Has no whitespace. */
  predicate IsWord(s: string) {
    forall k :: 0 <= k < |s| ==> !IsPySpace(s[k])
  }

  /** Splitting text without whitespace gives that text as the one part. */
  lemma SplitWsOfWord(s: string)
    requires s != [] && IsWord(s)
    ensures SplitWs(s) == [s]
  {
    assert !IsPySpace(s[0]);
    assert LeadCount(s, IsPySpace) == 0;
    assert s[0..] == s;
    var w := LeadCount(s, IsNotPySpace);
    assert w == |s|;
    assert s[..w] == s;
    assert s[w..] == [];
    assert LeadCount(s[w..], IsPySpace) == 0;
  }

  /** The one-part split of a word, or no part for the empty text. */
  function WordParts(w: string): (parts: seq<string>)
    ensures |parts| <= 1
  {
    if w == [] then [] else [w]
  }

  /** Splitting a possibly empty word gives its one-part split. */
  lemma SplitWsWordParts(w: string)
    requires IsWord(w)
    ensures SplitWs(w) == WordParts(w)
  {
    if w != [] {
      SplitWsOfWord(w);
    }
  }

  /** Whitespace in front of the text adds no part. */
  lemma SplitWsLeadingSpace(s: string)
    ensures SplitWs(" " + s) == SplitWs(s)
  {
    var t := " " + s;
    assert t[1..] == s;
    assert LeadCount(t, IsPySpace) == 1 + LeadCount(s, IsPySpace);
    var a := LeadCount(s, IsPySpace);
    assert t[1 + a..] == s[a..];
  }

  /** Two words joined by one space split back into the words, dropping empty ones. */
  lemma SplitWsJoin(a: string, b: string)
    requires IsWord(a) && IsWord(b)
    ensures SplitWs(a + " " + b) == WordParts(a) + WordParts(b)
  {
    SplitWsLeadingSpace(b);
    SplitWsWordParts(b);
    if a == [] {
      assert a + " " + b == " " + b;
    } else {
      var t := a + " " + b;
      assert !IsPySpace(t[0]);
      assert LeadCount(t, IsPySpace) == 0;
      assert t[0..] == t;
      var w := LeadCount(t, IsNotPySpace);
      assert t[|a|] == ' ';
      assert w == |a|;
      assert t[..w] == a;
      assert t[w..] == " " + b;
    }
  }

  /** `sep.join(parts)` */
  function Join(sep: string, parts: seq<string>): string {
    if parts == [] then []
    else if |parts| == 1 then parts[0]
    else parts[0] + sep + Join(sep, parts[1..])
  }

  // --------------------------------------------------------------- boundary

  /** The `\b` assertion of `re` between `s[i - 1]` and `s[i]`. */
  predicate Boundary(s: string, i: nat)
    requires i <= |s|
  {
    (i > 0 && IsWordChar(s[i - 1])) != (i < |s| && IsWordChar(s[i]))
  }
}
