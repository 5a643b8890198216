/**
 * `should_avoid_number`: whether the text around a number matches one of
 * the NUMBERS_TO_AVOID regular expressions (searched case-insensitively) or
 * contains one of the avoid_contexts keywords once lower-cased.
 *
 * Every expression of that list has the shape `\b P1 P2 ... Pn \b` where
 * each `Pk` is one character class repeated between a lower and an upper
 * number of times, so the list is written here as data: a pattern is a
 * sequence of pieces, `\b` at both ends is implied. `Occurs` gives the
 * meaning of a search (some start and end at word boundaries between which
 * the pieces match one after the other); `Search` is a greedy matcher that
 * backtracks over repeat counts, as Python's engine does, and
 * `SearchMatchesOccurs` proves the two agree on every input.
 */
module Avoid {
  import opened Numeric

  predicate IsLetter(c: char) { 'a' <= c <= 'z' || 'A' <= c <= 'Z' }

  /** `\w` */
  predicate IsWordChar(c: char) { IsLetter(c) || IsDigit(c) || c == '_' }

  /** `\s`: space, tab, line feed, vertical tab, form feed, carriage return and the separators 0x1C-0x1F. */
  predicate IsSpace(c: char) { c == ' ' || 9 <= c as int <= 13 || 28 <= c as int <= 31 }

  /** `str.lower()` on one character. */
  function LowerChar(c: char): char
  {
    if 'A' <= c <= 'Z' then (c as int + 32) as char else c
  }

  /** A character class of the patterns; a literal compares case-insensitively (`re.IGNORECASE`). */
  datatype Class = Digit | Letter | Space | Lit(c: char)

  datatype Bound = AtMost(n: nat) | Unbounded

  /** One piece of a pattern: `cls{lo,hi}`. */
  datatype Piece = Piece(cls: Class, lo: nat, hi: Bound)

  predicate InClass(k: Class, c: char)
  {
    match k
    case Digit => IsDigit(c)
    case Letter => IsLetter(c)
    case Space => IsSpace(c)
    case Lit(x) => LowerChar(c) == LowerChar(x)
  }

  function Once(k: Class): Piece { Piece(k, 1, AtMost(1)) }

  /** `\b\d{4}\b`: four-digit years. */
  const YearPattern: seq<Piece> := [Piece(Digit, 4, AtMost(4))]
  /** `\b\d{1,2}/\d{1,2}/\d{2,4}\b`: dates with slashes. */
  const SlashDatePattern: seq<Piece> :=
    [Piece(Digit, 1, AtMost(2)), Once(Lit('/')), Piece(Digit, 1, AtMost(2)), Once(Lit('/')), Piece(Digit, 2, AtMost(4))]
  /** `\b\d{1,2}-\d{1,2}-\d{2,4}\b`: dates with dashes. */
  const DashDatePattern: seq<Piece> :=
    [Piece(Digit, 1, AtMost(2)), Once(Lit('-')), Piece(Digit, 1, AtMost(2)), Once(Lit('-')), Piece(Digit, 2, AtMost(4))]
  /** `\b[A-Z]\d+[A-Z]*\d*\b`: contract numbers such as N63394. */
  const ContractNumberPattern: seq<Piece> :=
    [Once(Letter), Piece(Digit, 1, Unbounded), Piece(Letter, 0, Unbounded), Piece(Digit, 0, Unbounded)]
  /** `\b\d{1,2}:\d{2}\b`: times of day. */
  const TimePattern: seq<Piece> := [Piece(Digit, 1, AtMost(2)), Once(Lit(':')), Piece(Digit, 2, AtMost(2))]
  /** `\bpage\s+\d+\b` */
  const PagePattern: seq<Piece> :=
    [Once(Lit('p')), Once(Lit('a')), Once(Lit('g')), Once(Lit('e')), Piece(Space, 1, Unbounded), Piece(Digit, 1, Unbounded)]
  /** `\bsection\s+\d+\b` */
  const SectionPattern: seq<Piece> :=
    [Once(Lit('s')), Once(Lit('e')), Once(Lit('c')), Once(Lit('t')), Once(Lit('i')), Once(Lit('o')), Once(Lit('n')),
     Piece(Space, 1, Unbounded), Piece(Digit, 1, Unbounded)]
  /** `\bitem\s+\d+\b` */
  const ItemPattern: seq<Piece> :=
    [Once(Lit('i')), Once(Lit('t')), Once(Lit('e')), Once(Lit('m')), Piece(Space, 1, Unbounded), Piece(Digit, 1, Unbounded)]

  /** NUMBERS_TO_AVOID, in the order it is searched. */
  const NumbersToAvoid: seq<seq<Piece>> :=
    [YearPattern, SlashDatePattern, DashDatePattern, ContractNumberPattern,
     TimePattern, PagePattern, SectionPattern, ItemPattern]

  /** avoid_contexts, in the order it is searched. */
  const AvoidContexts: seq<string> :=
    ["page", "section", "item", "paragraph", "line",
     "version", "revision", "amendment", "modification",
     "contract", "solicitation", "award", "number",
     "date", "year", "month", "day", "time"]

  /** `\b` at position `i`: a word character on exactly one side. */
  predicate Boundary(s: string, i: int)
  {
    0 <= i <= |s| && (0 < i && IsWordChar(s[i - 1])) != (i < |s| && IsWordChar(s[i]))
  }

  // ---- Meaning of a search ------------------------------------------------

  /** `s[i..k]` is one repetition block of piece `p`. */
  ghost predicate Run(p: Piece, s: string, i: int, k: int)
  {
    && 0 <= i <= k <= |s|
    && p.lo <= k - i
    && (p.hi.AtMost? ==> k - i <= p.hi.n)
    && forall t :: i <= t < k ==> InClass(p.cls, s[t])
  }

  /** The pieces `ps`, one after another, match exactly `s[i..j]`. */
  ghost predicate Spans(ps: seq<Piece>, s: string, i: int, j: int)
    decreases |ps|
  {
    if ps == [] then 0 <= i == j <= |s|
    else exists k :: Run(ps[0], s, i, k) && Spans(ps[1..], s, k, j)
  }

  /** `re.search(r'\b' + ps + r'\b', s, re.IGNORECASE)` finds a match. */
  ghost predicate Occurs(ps: seq<Piece>, s: string)
  {
    exists i, j :: Boundary(s, i) && Spans(ps, s, i, j) && Boundary(s, j)
  }

  // ---- The matcher --------------------------------------------------------

  /** Length of the longest run of characters of class `k` starting at `i`. */
  function ClassRun(k: Class, s: string, i: nat): (n: nat)
    requires i <= |s|
    ensures i + n <= |s|
    ensures i + n == |s| || !InClass(k, s[i + n])
    decreases |s| - i
  {
    if i == |s| || !InClass(k, s[i]) then 0 else 1 + ClassRun(k, s, i + 1)
  }

  /** Every character of the run is of the class. */
  lemma {:induction false} ClassRunAll(k: Class, s: string, i: nat)
    requires i <= |s|
    ensures forall t :: i <= t < i + ClassRun(k, s, i) ==> InClass(k, s[t])
    decreases |s| - i
  {
    if i < |s| && InClass(k, s[i]) {
      ClassRunAll(k, s, i + 1);
    }
  }

  /** The pieces `ps` match from `i` on and end at a word boundary. */
  function MatchFrom(ps: seq<Piece>, s: string, i: nat): bool
    requires i <= |s|
    decreases |ps|, 1
  {
    if ps == [] then Boundary(s, i)
    else
      var run := ClassRun(ps[0].cls, s, i);
      var most := if ps[0].hi.AtMost? && ps[0].hi.n < run then ps[0].hi.n else run;
      TryCounts(ps, s, i, most)
  }

  /** Greedy backtracking: repeat the first piece `c`, then `c - 1`, ... down to its minimum times. */
  function TryCounts(ps: seq<Piece>, s: string, i: nat, c: nat): bool
    requires ps != [] && i + c <= |s|
    decreases |ps|, 0, c
  {
    if c < ps[0].lo then false
    else MatchFrom(ps[1..], s, i + c) || (c > 0 && TryCounts(ps, s, i, c - 1))
  }

  /** `re.search` tries every start position from `i` to the end of the string. */
  function SearchFrom(ps: seq<Piece>, s: string, i: nat): bool
    requires i <= |s|
    decreases |s| - i
  {
    (Boundary(s, i) && MatchFrom(ps, s, i)) || (i < |s| && SearchFrom(ps, s, i + 1))
  }

  function Search(ps: seq<Piece>, s: string): bool
  {
    SearchFrom(ps, s, 0)
  }

  // ---- The matcher agrees with the meaning -----------------------------------

  /** When the backtracking succeeds, some repeat count within the bounds lets the rest match. */
  lemma {:induction false} TryCountsSound(ps: seq<Piece>, s: string, i: nat, c: nat)
    requires ps != [] && i + c <= |s|
    requires TryCounts(ps, s, i, c)
    ensures exists k :: i + ps[0].lo <= k <= i + c && MatchFrom(ps[1..], s, k)
    decreases c
  {
    if MatchFrom(ps[1..], s, i + c) {
      assert i + ps[0].lo <= i + c <= i + c;
    } else {
      TryCountsSound(ps, s, i, c - 1);
    }
  }

  /** The backtracking tries every repeat count from `c` down to the minimum. */
  lemma {:induction false} TryCountsComplete(ps: seq<Piece>, s: string, i: nat, c: nat, k: nat)
    requires ps != [] && i + c <= |s|
    requires i + ps[0].lo <= k <= i + c && MatchFrom(ps[1..], s, k)
    ensures TryCounts(ps, s, i, c)
    decreases c
  {
    if k < i + c {
      TryCountsComplete(ps, s, i, c - 1, k);
    }
  }

  /** A block of class characters is never longer than the longest run. */
  lemma {:induction false} RunWithinClassRun(k: Class, s: string, i: nat, j: nat)
    requires i <= j <= |s|
    requires forall t :: i <= t < j ==> InClass(k, s[t])
    ensures j - i <= ClassRun(k, s, i)
    decreases j - i
  {
    if i < j {
      RunWithinClassRun(k, s, i + 1, j);
    }
  }

  lemma {:induction false} MatchFromMeaning(ps: seq<Piece>, s: string, i: nat)
    requires i <= |s|
    ensures MatchFrom(ps, s, i) <==> exists j :: Spans(ps, s, i, j) && Boundary(s, j)
    decreases |ps|
  {
    if ps == [] {
      if MatchFrom(ps, s, i) {
        assert Spans(ps, s, i, i);
      }
    } else {
      var p := ps[0];
      var run := ClassRun(p.cls, s, i);
      var most := if p.hi.AtMost? && p.hi.n < run then p.hi.n else run;
      if MatchFrom(ps, s, i) {
        TryCountsSound(ps, s, i, most);
        var k :| i + p.lo <= k <= i + most && MatchFrom(ps[1..], s, k);
        MatchFromMeaning(ps[1..], s, k);
        var j :| Spans(ps[1..], s, k, j) && Boundary(s, j);
        ClassRunAll(p.cls, s, i);
        assert Run(p, s, i, k);
        assert Spans(ps, s, i, j);
      }
      if exists j :: Spans(ps, s, i, j) && Boundary(s, j) {
        var j :| Spans(ps, s, i, j) && Boundary(s, j);
        var k :| Run(p, s, i, k) && Spans(ps[1..], s, k, j);
        RunWithinClassRun(p.cls, s, i, k);
        MatchFromMeaning(ps[1..], s, k);
        TryCountsComplete(ps, s, i, most, k);
      }
    }
  }

  /** A success of the scan from `i` comes from a match between two boundaries at or after `i`. */
  lemma {:induction false} SearchFromSound(ps: seq<Piece>, s: string, i: nat)
    requires i <= |s| && SearchFrom(ps, s, i)
    ensures exists a, j :: i <= a && Boundary(s, a) && Spans(ps, s, a, j) && Boundary(s, j)
    decreases |s| - i
  {
    if Boundary(s, i) && MatchFrom(ps, s, i) {
      MatchFromMeaning(ps, s, i);
      var j :| Spans(ps, s, i, j) && Boundary(s, j);
      assert i <= i && Boundary(s, i) && Spans(ps, s, i, j) && Boundary(s, j);
    } else {
      SearchFromSound(ps, s, i + 1);
      var a, j :| i + 1 <= a && Boundary(s, a) && Spans(ps, s, a, j) && Boundary(s, j);
      assert i <= a;
    }
  }

  /** A match between two boundaries starting at `a` is found by the scan from any `i <= a`. */
  lemma {:induction false} SearchFromComplete(ps: seq<Piece>, s: string, i: nat, a: nat, j: int)
    requires i <= a && Boundary(s, a) && Spans(ps, s, a, j) && Boundary(s, j)
    ensures SearchFrom(ps, s, i)
    decreases a - i
  {
    if a == i {
      MatchFromMeaning(ps, s, i);
    } else {
      SearchFromComplete(ps, s, i + 1, a, j);
    }
  }

  lemma SearchFromMeaning(ps: seq<Piece>, s: string, i: nat)
    requires i <= |s|
    ensures SearchFrom(ps, s, i)
        <==> exists a, j :: i <= a && Boundary(s, a) && Spans(ps, s, a, j) && Boundary(s, j)
  {
    if SearchFrom(ps, s, i) {
      SearchFromSound(ps, s, i);
    }
    if exists a, j :: i <= a && Boundary(s, a) && Spans(ps, s, a, j) && Boundary(s, j) {
      var a, j :| i <= a && Boundary(s, a) && Spans(ps, s, a, j) && Boundary(s, j);
      SearchFromComplete(ps, s, i, a, j);
    }
  }

  /** The matcher finds a match exactly when the pattern occurs between two word boundaries. */
  lemma SearchMatchesOccurs(ps: seq<Piece>, s: string)
    ensures Search(ps, s) <==> Occurs(ps, s)
  {
    SearchFromMeaning(ps, s, 0);
  }

  // ---- should_avoid_number ------------------------------------------------------

  /** `str.lower()` */
  function Lower(s: string): (r: string)
    ensures |r| == |s| && forall i :: 0 <= i < |s| ==> r[i] == LowerChar(s[i])
  {
    seq(|s|, i requires 0 <= i < |s| => LowerChar(s[i]))
  }

  /** `w in text` */
  predicate Contains(text: string, w: string)
  {
    exists i :: 0 <= i <= |text| && w <= text[i..]
  }

  /** The first loop of `should_avoid_number`: does some pattern of `pats`, tried in order, find a match? */
  function AnyPatternFound(pats: seq<seq<Piece>>, context: string): bool
  {
    pats != [] && (Search(pats[0], context) || AnyPatternFound(pats[1..], context))
  }

  /** The second loop: is some keyword of `words`, tried in order, a substring of the lowered context? */
  function AnyKeywordIn(words: seq<string>, lowered: string): bool
  {
    words != [] && (Contains(lowered, words[0]) || AnyKeywordIn(words[1..], lowered))
  }

  /**
   * `should_avoid_number(text_context, number_match)`: it stops at the first
   * pattern or keyword that fits and has no other effect, so its value is
   * the disjunction of both searches. The match argument is never read.
   */
  function ShouldAvoid(context: string): bool
  {
    AnyPatternFound(NumbersToAvoid, context) || AnyKeywordIn(AvoidContexts, Lower(context))
  }

  lemma {:induction false} AnyPatternFoundMeaning(pats: seq<seq<Piece>>, context: string)
    ensures AnyPatternFound(pats, context) <==> exists k :: 0 <= k < |pats| && Search(pats[k], context)
    decreases |pats|
  {
    if pats != [] {
      AnyPatternFoundMeaning(pats[1..], context);
      if exists k :: 0 <= k < |pats| && Search(pats[k], context) {
        var k :| 0 <= k < |pats| && Search(pats[k], context);
        if k > 0 {
          assert pats[1..][k - 1] == pats[k];
        }
      }
      if AnyPatternFound(pats[1..], context) {
        var k :| 0 <= k < |pats| - 1 && Search(pats[1..][k], context);
        assert pats[k + 1] == pats[1..][k];
      }
    }
  }

  lemma {:induction false} AnyKeywordInMeaning(words: seq<string>, lowered: string)
    ensures AnyKeywordIn(words, lowered) <==> exists k :: 0 <= k < |words| && Contains(lowered, words[k])
    decreases |words|
  {
    if words != [] {
      AnyKeywordInMeaning(words[1..], lowered);
      if exists k :: 0 <= k < |words| && Contains(lowered, words[k]) {
        var k :| 0 <= k < |words| && Contains(lowered, words[k]);
        if k > 0 {
          assert words[1..][k - 1] == words[k];
        }
      }
      if AnyKeywordIn(words[1..], lowered) {
        var k :| 0 <= k < |words| - 1 && Contains(lowered, words[1..][k]);
        assert words[k + 1] == words[1..][k];
      }
    }
  }

  /** The first loop of `should_avoid_number`, returning as soon as a pattern matches. */
  method FindPattern(pats: seq<seq<Piece>>, context: string) returns (found: bool)
    ensures found == AnyPatternFound(pats, context)
  {
    var i := 0;
    while i < |pats|
      invariant 0 <= i <= |pats|
      invariant AnyPatternFound(pats, context) == AnyPatternFound(pats[i..], context)
    {
      assert pats[i..][1..] == pats[i + 1..];
      if Search(pats[i], context) {
        return true;
      }
      i := i + 1;
    }
    return false;
  }

  /** The second loop of `should_avoid_number`, returning as soon as a keyword is found. */
  method FindKeyword(words: seq<string>, lowered: string) returns (found: bool)
    ensures found == AnyKeywordIn(words, lowered)
  {
    var j := 0;
    while j < |words|
      invariant 0 <= j <= |words|
      invariant AnyKeywordIn(words, lowered) == AnyKeywordIn(words[j..], lowered)
    {
      assert words[j..][1..] == words[j + 1..];
      if Contains(lowered, words[j]) {
        return true;
      }
      j := j + 1;
    }
    return false;
  }

  /** `should_avoid_number` as written: the pattern loop, then the keyword loop on the lowered context. */
  method ShouldAvoidNumber(context: string) returns (avoid: bool)
    ensures avoid == ShouldAvoid(context)
  {
    avoid := FindPattern(NumbersToAvoid, context);
    if !avoid {
      avoid := FindKeyword(AvoidContexts, Lower(context));
    }
  }

  /** What `ShouldAvoid` decides, stated with the meaning of each pattern. */
  lemma ShouldAvoidMeaning(context: string)
    ensures ShouldAvoid(context) <==>
              ((exists k :: 0 <= k < |NumbersToAvoid| && Occurs(NumbersToAvoid[k], context))
               || (exists k :: 0 <= k < |AvoidContexts| && Contains(Lower(context), AvoidContexts[k])))
  {
    AnyPatternFoundMeaning(NumbersToAvoid, context);
    AnyKeywordInMeaning(AvoidContexts, Lower(context));
    forall k | 0 <= k < |NumbersToAvoid|
      ensures Search(NumbersToAvoid[k], context) <==> Occurs(NumbersToAvoid[k], context)
    {
      SearchMatchesOccurs(NumbersToAvoid[k], context);
    }
  }

  /** `s[i..i + 4]` is four digits with a word boundary on both sides. */
  ghost predicate FourDigitsAt(s: string, i: int)
  {
    && 0 <= i && i + 4 <= |s|
    && Boundary(s, i) && Boundary(s, i + 4)
    && forall t :: i <= t < i + 4 ==> IsDigit(s[t])
  }

  /** Four digits standing alone somewhere in the text, as a year would. */
  ghost predicate StandaloneFourDigits(s: string)
  {
    exists i :: FourDigitsAt(s, i)
  }

  /** The year pattern, searched, finds exactly the standalone four-digit runs. */
  lemma YearPatternMeaning(s: string)
    ensures Occurs(YearPattern, s) <==> StandaloneFourDigits(s)
  {
    assert YearPattern[1..] == [];
    if Occurs(YearPattern, s) {
      var i, j :| Boundary(s, i) && Spans(YearPattern, s, i, j) && Boundary(s, j);
      var k :| Run(YearPattern[0], s, i, k) && Spans(YearPattern[1..], s, k, j);
      assert FourDigitsAt(s, i);
    }
    if StandaloneFourDigits(s) {
      var i :| FourDigitsAt(s, i);
      assert Run(YearPattern[0], s, i, i + 4) && Spans(YearPattern[1..], s, i + 4, i + 4);
      assert Spans(YearPattern, s, i, i + 4);
    }
  }

  /** A number that stands alone as four digits, such as a year, is always left unchanged. */
  lemma FourDigitsAvoided(context: string)
    ensures StandaloneFourDigits(context) ==> ShouldAvoid(context)
  {
    YearPatternMeaning(context);
    ShouldAvoidMeaning(context);
    assert NumbersToAvoid[0] == YearPattern;
  }

  /** A character that can take part in neither a keyword nor a pattern other than the year one. */
  predicate Unmarked(c: char)
  {
    !IsLetter(c) && c != '/' && c != '-' && c != ':'
  }

  /** The classes that only match marked characters. */
  predicate Marking(k: Class)
  {
    k == Letter || (k.Lit? && (IsLetter(k.c) || k.c == '/' || k.c == '-' || k.c == ':'))
  }

  lemma MarkingClassesMatchMarked()
    ensures forall k, c :: Marking(k) && InClass(k, c) ==> !Unmarked(c)
  {
  }

  lemma {:induction false} SpansWithin(ps: seq<Piece>, s: string, i: int, j: int)
    ensures Spans(ps, s, i, j) ==> 0 <= i <= j <= |s|
    decreases |ps|
  {
    if ps != [] && Spans(ps, s, i, j) {
      var k :| Run(ps[0], s, i, k) && Spans(ps[1..], s, k, j);
      SpansWithin(ps[1..], s, k, j);
    }
  }

  /** A piece that must repeat at least once leaves a character of its class inside the match. */
  lemma {:induction false} SpansCover(ps: seq<Piece>, s: string, i: int, j: int, n: nat)
    requires n < |ps| && 1 <= ps[n].lo
    ensures Spans(ps, s, i, j) ==> 0 <= i <= j <= |s| && exists t :: i <= t < j && InClass(ps[n].cls, s[t])
    decreases n
  {
    SpansWithin(ps, s, i, j);
    if Spans(ps, s, i, j) {
      var k :| Run(ps[0], s, i, k) && Spans(ps[1..], s, k, j);
      SpansWithin(ps[1..], s, k, j);
      if n == 0 {
        assert InClass(ps[0].cls, s[i]);
      } else {
        SpansCover(ps[1..], s, k, j, n - 1);
      }
    }
  }

  /** Every pattern but the year one needs a letter, a slash, a dash or a colon. */
  lemma {:induction false} MarkedPatternAbsent(s: string, k: nat)
    requires 1 <= k < |NumbersToAvoid|
    requires forall t :: 0 <= t < |s| ==> Unmarked(s[t])
    ensures !Occurs(NumbersToAvoid[k], s)
  {
    var ps := NumbersToAvoid[k];
    var n := if k == 3 || 5 <= k then 0 else 1;
    assert 1 <= ps[n].lo && Marking(ps[n].cls);
    MarkingClassesMatchMarked();
    forall i, j ensures !(Boundary(s, i) && Spans(ps, s, i, j) && Boundary(s, j)) {
      SpansCover(ps, s, i, j, n);
    }
  }

  /** Every keyword starts with a letter, so none can be found where there is no letter. */
  lemma KeywordAbsent(s: string)
    requires forall t :: 0 <= t < |s| ==> Unmarked(s[t])
    ensures forall k :: 0 <= k < |AvoidContexts| ==> !Contains(Lower(s), AvoidContexts[k])
  {
    var low := Lower(s);
    assert forall k :: 0 <= k < |AvoidContexts| ==> |AvoidContexts[k]| > 0 && IsLetter(AvoidContexts[k][0]);
    forall k, i | 0 <= k < |AvoidContexts| && 0 <= i <= |low|
      ensures !(AvoidContexts[k] <= low[i..])
    {
      if i < |low| {
        assert low[i..][0] == LowerChar(s[i]);
      }
    }
  }

  /**
   * In a context with no letter, slash, dash or colon, the only reason to
   * leave a number alone is a four-digit run standing by itself.
   */
  lemma UnmarkedContextAvoided(context: string)
    requires forall t :: 0 <= t < |context| ==> Unmarked(context[t])
    ensures ShouldAvoid(context) <==> StandaloneFourDigits(context)
  {
    ShouldAvoidMeaning(context);
    FourDigitsAvoided(context);
    KeywordAbsent(context);
    YearPatternMeaning(context);
    forall k | 1 <= k < |NumbersToAvoid|
      ensures !Occurs(NumbersToAvoid[k], context)
    {
      MarkedPatternAbsent(context, k);
    }
  }
}
