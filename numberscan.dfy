/**
 * The number rewriting of `modify_prices_from_mod` (main.py) for "mod"
 * documents: every match of `\$?[\d,]+\.?\d*` in a text span, in the order
 * `re.finditer` reports them; the text up to 20 characters either side of a
 * match; the decision to skip it (`should_avoid_number`); the rewrite by
 * `alter_price` for a match starting with `$` and by `alter_number` for any
 * other; and the per-page count of matches whose text actually changed.
 *
 * The page itself (redaction boxes, re-inserted text, fonts) belongs to the
 * PDF library; a page is given here as the texts of its spans, in reading
 * order, and the result is the list of edits the loop would make.
 */
module NumberScan {
  import opened Wrappers
  import opened Numeric
  import opened Perturb
  import opened Avoid

  /** `[\d,]` */
  predicate IsRunChar(c: char) { IsDigit(c) || c == ',' }

  /** End of the longest `[\d,]*` starting at `j`. */
  function RunEnd(s: string, j: nat): (e: nat)
    requires j <= |s|
    ensures j <= e <= |s|
    ensures e == |s| || !IsRunChar(s[e])
    decreases |s| - j
  {
    if j == |s| || !IsRunChar(s[j]) then j else RunEnd(s, j + 1)
  }

  /** Every character up to the run's end is a digit or a comma. */
  lemma {:induction false} RunEndAll(s: string, j: nat)
    requires j <= |s|
    ensures forall t :: j <= t < RunEnd(s, j) ==> IsRunChar(s[t])
    decreases |s| - j
  {
    if j < |s| && IsRunChar(s[j]) {
      RunEndAll(s, j + 1);
    }
  }

  lemma {:induction false} RunWithinRunEnd(s: string, j: nat, e: nat)
    requires j <= e <= |s|
    requires forall t :: j <= t < e ==> IsRunChar(s[t])
    ensures e <= RunEnd(s, j)
    decreases e - j
  {
    if j < e {
      RunWithinRunEnd(s, j + 1, e);
    }
  }

  // ---- The number pattern -------------------------------------------------------

  /** `s[i..e]` has the shape `\$?[\d,]+\.?\d*`, the `$` ending at `a` and the `[\d,]+` at `b`. */
  ghost predicate ShapeAt(s: string, i: int, e: int, a: int, b: int)
  {
    && 0 <= i <= a <= i + 1
    && a < b <= e <= |s|
    && (a == i + 1 ==> s[i] == '$')
    && (forall t :: a <= t < b ==> IsRunChar(s[t]))
    && (b < e ==> s[b] == '.' && forall t :: b < t < e ==> IsDigit(s[t]))
  }

  /** `s[i..e]` is a match of the number pattern. */
  ghost predicate NumberAt(s: string, i: int, e: int)
  {
    exists a, b :: ShapeAt(s, i, e, a, b)
  }

  /** The whole text is one match of the number pattern. */
  ghost predicate IsNumberText(t: string)
  {
    NumberAt(t, 0, |t|)
  }

  /** The pattern can match at `i`: a `[\d,]` there, or a `$` followed by one. */
  predicate StartsNumber(s: string, i: nat)
  {
    i < |s| && (IsRunChar(s[i]) || (s[i] == '$' && i + 1 < |s| && IsRunChar(s[i + 1])))
  }

  /**
   * Where the match starting at `i` ends. Every quantifier of the pattern is
   * greedy and nothing follows the last one, so no backtracking happens: the
   * optional `$`, the longest `[\d,]+`, then the point and the longest `\d*`
   * if a point comes next.
   */
  function MatchEnd(s: string, i: nat): (e: nat)
    requires StartsNumber(s, i)
    ensures i < e <= |s|
  {
    var a := if s[i] == '$' then i + 1 else i;
    var b := RunEnd(s, a);
    if b < |s| && s[b] == '.' then b + 1 + ClassRun(Digit, s, b + 1) else b
  }

  lemma GreedyShape(s: string, i: nat)
    requires StartsNumber(s, i)
    ensures NumberAt(s, i, MatchEnd(s, i))
  {
    var a := if s[i] == '$' then i + 1 else i;
    var b := RunEnd(s, a);
    RunEndAll(s, a);
    if b < |s| && s[b] == '.' {
      ClassRunAll(Digit, s, b + 1);
    }
    assert ShapeAt(s, i, MatchEnd(s, i), a, b);
  }

  /** Any match of the pattern at `i` is at most as long as the greedy one. */
  lemma ShapeWithinGreedy(s: string, i: nat, e: int, a: int, b: int)
    requires ShapeAt(s, i, e, a, b)
    ensures StartsNumber(s, i) && e <= MatchEnd(s, i)
  {
    assert IsRunChar(s[a]);
    var a0 := if s[i] == '$' then i + 1 else i;
    assert a == a0;
    RunWithinRunEnd(s, a, b);
    if b < e {
      RunEndAll(s, a);
      assert b == RunEnd(s, a);
      RunWithinClassRun(Digit, s, b + 1, e);
    }
  }

  /** `re.finditer` tries a match at `i` exactly when some match of the pattern starts there. */
  lemma StartsNumberMeaning(s: string, i: nat)
    ensures StartsNumber(s, i) <==> exists e :: NumberAt(s, i, e)
  {
    if StartsNumber(s, i) {
      GreedyShape(s, i);
    }
    forall e, a, b | ShapeAt(s, i, e, a, b)
      ensures StartsNumber(s, i)
    {
      ShapeWithinGreedy(s, i, e, a, b);
    }
  }

  /** The greedy match is a match, and the longest one starting at `i`. */
  lemma LongestMatch(s: string, i: nat)
    requires StartsNumber(s, i)
    ensures NumberAt(s, i, MatchEnd(s, i))
    ensures forall e :: MatchEnd(s, i) < e <= |s| ==> !NumberAt(s, i, e)
  {
    GreedyShape(s, i);
    forall e, a, b | ShapeAt(s, i, e, a, b)
      ensures e <= MatchEnd(s, i)
    {
      ShapeWithinGreedy(s, i, e, a, b);
    }
  }

  /** The text of a greedy match, taken out of its span, is a whole number text. */
  lemma MatchTextIsNumber(s: string, i: nat)
    requires StartsNumber(s, i)
    ensures IsNumberText(s[i..MatchEnd(s, i)])
  {
    var e := MatchEnd(s, i);
    GreedyShape(s, i);
    var a, b :| ShapeAt(s, i, e, a, b);
    var t := s[i..e];
    assert forall k :: 0 <= k < |t| ==> t[k] == s[i + k];
    assert ShapeAt(t, 0, |t|, a - i, b - i);
  }

  // ---- finditer -----------------------------------------------------------------

  datatype NumberMatch = NumberMatch(start: nat, end: nat)

  /** `m` is the match the scanner reports when it tries position `m.start` of `s`. */
  predicate IsMatchIn(s: string, m: NumberMatch)
  {
    StartsNumber(s, m.start) && m.end == MatchEnd(s, m.start)
  }

  /**
   * `re.finditer(number_pattern, s)` from position `i`: try a match at each
   * position; after a match resume at its end. The matches are in increasing
   * order and do not overlap.
   */
  function FindFrom(s: string, i: nat): (r: seq<NumberMatch>)
    requires i <= |s|
    ensures forall k :: 0 <= k < |r| ==> i <= r[k].start && IsMatchIn(s, r[k])
    decreases |s| - i
  {
    if i == |s| then []
    else if StartsNumber(s, i) then [NumberMatch(i, MatchEnd(s, i))] + FindFrom(s, MatchEnd(s, i))
    else FindFrom(s, i + 1)
  }

  /** Matches in increasing order that do not overlap: each starts at or after the end of every earlier one. */
  predicate Ordered(ms: seq<NumberMatch>)
  {
    forall a, b :: 0 <= a < b < |ms| ==> ms[a].end <= ms[b].start
  }

  /** A match that ends before every match of an ordered list can go in front of it. */
  lemma OrderedCons(m: NumberMatch, rest: seq<NumberMatch>)
    requires Ordered(rest)
    requires forall k :: 0 <= k < |rest| ==> m.end <= rest[k].start
    ensures Ordered([m] + rest)
  {
    var r := [m] + rest;
    forall a, b | 0 <= a < b < |r|
      ensures r[a].end <= r[b].start
    {
      assert r[b] == rest[b - 1];
      if a > 0 {
        assert r[a] == rest[a - 1];
      }
    }
  }

  /** The matches come in increasing order and do not overlap, as finditer resumes at the end of each. */
  lemma {:induction false} FindFromOrdered(s: string, i: nat)
    requires i <= |s|
    ensures Ordered(FindFrom(s, i))
    decreases |s| - i
  {
    if i < |s| {
      if StartsNumber(s, i) {
        var e := MatchEnd(s, i);
        FindFromOrdered(s, e);
        OrderedCons(NumberMatch(i, e), FindFrom(s, e));
      } else {
        FindFromOrdered(s, i + 1);
      }
    }
  }

  /** Position `q` lies inside one of the matches `ms`. */
  predicate Covered(ms: seq<NumberMatch>, q: nat)
  {
    exists k :: 0 <= k < |ms| && ms[k].start <= q < ms[k].end
  }

  /** A position covered by a list stays covered when a match goes in front. */
  lemma CoveredCons(m: NumberMatch, rest: seq<NumberMatch>, q: nat)
    requires Covered(rest, q)
    ensures Covered([m] + rest, q)
  {
    var k :| 0 <= k < |rest| && rest[k].start <= q < rest[k].end;
    assert ([m] + rest)[k + 1] == rest[k];
  }

  /** No position where a match could start is passed over: each lies inside a reported match. */
  lemma {:induction false} FindFromCovers(s: string, i: nat, q: nat)
    requires i <= q && StartsNumber(s, q)
    ensures Covered(FindFrom(s, i), q)
    decreases |s| - i
  {
    if StartsNumber(s, i) {
      var e := MatchEnd(s, i);
      assert FindFrom(s, i) == [NumberMatch(i, e)] + FindFrom(s, e);
      if q < e {
        assert FindFrom(s, i)[0] == NumberMatch(i, e);
      } else {
        FindFromCovers(s, e, q);
        CoveredCons(NumberMatch(i, e), FindFrom(s, e), q);
      }
    } else {
      FindFromCovers(s, i + 1, q);
    }
  }

  function Matches(s: string): seq<NumberMatch>
  {
    FindFrom(s, 0)
  }

  /**
   * What finditer reports, stated with the pattern's meaning: every match is
   * the longest match of the pattern at its start, starts with `$`, a digit or
   * a comma, and every match of the pattern anywhere in the text overlaps a
   * reported one.
   */
  lemma MatchesMeaning(s: string)
    ensures forall m :: m in Matches(s) ==>
              && m.start < m.end <= |s|
              && (s[m.start] == '$' || IsDigit(s[m.start]) || s[m.start] == ',')
              && NumberAt(s, m.start, m.end)
              && forall e :: m.end < e <= |s| ==> !NumberAt(s, m.start, e)
    ensures forall q, e :: NumberAt(s, q, e) ==>
              exists k :: 0 <= k < |Matches(s)| && Matches(s)[k].start <= q < Matches(s)[k].end
  {
    forall m | m in Matches(s)
      ensures NumberAt(s, m.start, m.end) && forall e :: m.end < e <= |s| ==> !NumberAt(s, m.start, e)
    {
      LongestMatch(s, m.start);
    }
    forall q, e | NumberAt(s, q, e)
      ensures exists k :: 0 <= k < |Matches(s)| && Matches(s)[k].start <= q < Matches(s)[k].end
    {
      var a, b :| ShapeAt(s, q, e, a, b);
      ShapeWithinGreedy(s, q, e, a, b);
      FindFromCovers(s, 0, q);
    }
  }

  // ---- The context window ---------------------------------------------------------

  /** How far the context reaches on either side of a match. */
  const ContextRadius: nat := 20

  datatype Window = Window(lo: nat, hi: nat)

  /** `max(0, start - 20)` and `min(len(text), end + 20)`. */
  function ContextWindow(m: NumberMatch, len: nat): (w: Window)
    requires m.start <= m.end <= len
    ensures w.lo <= m.start && m.end <= w.hi <= len
    ensures m.start - w.lo <= ContextRadius && (w.lo == 0 || m.start - w.lo == ContextRadius)
    ensures w.hi - m.end <= ContextRadius && (w.hi == len || w.hi - m.end == ContextRadius)
  {
    Window(if m.start < ContextRadius then 0 else m.start - ContextRadius,
           if len - m.end < ContextRadius then len else m.end + ContextRadius)
  }

  function Context(text: string, m: NumberMatch): string
    requires m.start <= m.end <= |text|
  {
    var w := ContextWindow(m, |text|);
    text[w.lo..w.hi]
  }

  // ---- Rewriting one match --------------------------------------------------------------

  /** Trimming the trailing point of a cleaned token loses no digit. */
  lemma DigitBeforeTrailingPoint(c: string, t: string)
    requires c == t || c == t + "."
    requires HasDigit(c)
    ensures HasDigit(t)
  {
    var k :| 0 <= k < |c| && IsDigit(c[k]);
    assert k < |t| && t[k] == c[k];
  }

  /** A cleaned text with no digit and at most one point is "" or ".". */
  lemma NoDigitFewPoints(c: string)
    ensures AllNumChars(c) && !HasDigit(c) && multiset(c)['.'] <= 1 ==> c == [] || c == "."
  {
    if AllNumChars(c) && !HasDigit(c) && |c| >= 2 {
      assert c == [c[0], c[1]] + c[2..];
      assert c[0] == '.' && c[1] == '.';
      assert multiset(c)['.'] >= 2;
    }
  }

  /** A match of the number pattern holds at most one point. */
  lemma NumberTextPoints(t: string)
    requires IsNumberText(t)
    ensures multiset(t)['.'] <= 1
  {
    var a, b :| ShapeAt(t, 0, |t|, a, b);
    assert t == t[..b] + t[b..];
    assert forall k :: 0 <= k < b ==> t[..b][k] != '.';
    assert '.' !in multiset(t[..b]);
    if b < |t| {
      var digits := t[b + 1..];
      assert t[b..] == [t[b]] + digits;
      assert forall k :: 0 <= k < |digits| ==> digits[k] != '.';
      assert '.' !in multiset(digits);
    }
  }

  /** The unguarded `float()` of `alter_price` never fails on a match of the number pattern. */
  lemma PriceMatchParses(token: string, p: Percent)
    requires IsNumberText(token)
    ensures AlterPrice(token, p).Ok?
    ensures Prepare(token).Some? ==> ParseDecimal(Prepare(token).value).Some?
  {
    if Prepare(token).Some? {
      var c := Clean(token);
      var t := Prepare(token).value;
      CleanKeepsPoints(token);
      CleanKeepsDigits(token);
      NumberTextPoints(token);
      NoDigitFewPoints(c);
      DigitBeforeTrailingPoint(c, t);
      if c == t + "." {
        assert multiset(c) == multiset(t) + multiset{'.'};
      }
      AlterPriceRaises(token, p);
    }
  }

  /**
   * The dispatch of main.py: a match that starts with `$` goes to
   * `alter_price`, which then cannot raise, and any other to `alter_number`.
   */
  function Rewrite(token: string, p: Percent): (r: string)
    requires IsNumberText(token)
    ensures token[0] == '$' ==> AlterPrice(token, p) == Ok(r)
    ensures token[0] != '$' ==> r == AlterNumber(token, p)
  {
    if token[0] == '$' then
      PriceMatchParses(token, p);
      AlterPrice(token, p).value
    else AlterNumber(token, p)
  }

  /** The loop body for one match: skip it, or replace its text with the new one when that differs. */
  function EditFor(text: string, m: NumberMatch, p: Percent): Option<string>
    requires IsMatchIn(text, m)
  {
    if ShouldAvoid(Context(text, m)) then None
    else
      var number := text[m.start..m.end];
      MatchTextIsNumber(text, m.start);
      var replacement := Rewrite(number, p);
      if replacement != number then Some(replacement) else None
  }

  // ---- One page -------------------------------------------------------------------

  /** A replacement made on the page: span index, matched range, new text. */
  datatype Edit = Edit(span: nat, at: NumberMatch, text: string)

  /** The edits for the matches `ms` of span number `k`, in order, given what is decided for each match. */
  function Collect(k: nat, ms: seq<NumberMatch>, decide: NumberMatch --> Option<string>): seq<Edit>
    requires forall m :: m in ms ==> decide.requires(m)
  {
    if ms == [] then []
    else
      var m := ms[|ms| - 1];
      Collect(k, ms[..|ms| - 1], decide)
        + match decide(m)
          case Some(r) => [Edit(k, m, r)]
          case None => []
  }

  /** The edits made for the matches `ms` of span number `k`, in order. */
  function MatchEdits(k: nat, text: string, ms: seq<NumberMatch>, p: Percent): seq<Edit>
    requires forall m :: m in ms ==> IsMatchIn(text, m)
  {
    Collect(k, ms, m requires IsMatchIn(text, m) => EditFor(text, m, p))
  }

  /** The edits made on a page whose spans have the texts `spans`, in order. */
  function PageEdits(spans: seq<string>, p: Percent): seq<Edit>
  {
    if spans == [] then []
    else
      var k := |spans| - 1;
      PageEdits(spans[..k], p) + MatchEdits(k, spans[k], Matches(spans[k]), p)
  }

  /**
   * The body of the inner loop of `modify_prices_from_mod` for one match:
   * the context check, the dispatch on a leading `$`, and whether the text
   * changed.
   */
  method EditMatch(text: string, m: NumberMatch, p: Percent) returns (edit: Option<string>)
    requires IsMatchIn(text, m)
    ensures edit == EditFor(text, m, p)
  {
    var w := ContextWindow(m, |text|);
    var avoid := ShouldAvoidNumber(text[w.lo..w.hi]);
    if avoid {
      return None;
    }
    var number := text[m.start..m.end];
    MatchTextIsNumber(text, m.start);
    var replacement := Rewrite(number, p);
    if replacement != number {
      edit := Some(replacement);
    } else {
      edit := None;
    }
  }

  /**
   * The inner loop of `modify_prices_from_mod` over the matches of one span,
   * recording and counting each match whose text changed.
   */
  method ModifyNumbersInSpan(k: nat, text: string, p: Percent) returns (edits: seq<Edit>, made: nat)
    ensures edits == MatchEdits(k, text, Matches(text), p)
    ensures made == |edits|
  {
    var ms := Matches(text);
    edits := [];
    made := 0;
    var j := 0;
    while j < |ms|
      invariant 0 <= j <= |ms|
      invariant edits == MatchEdits(k, text, ms[..j], p)
      invariant made == |edits|
    {
      var edit := EditMatch(text, ms[j], p);
      if edit.Some? {
        edits := edits + [Edit(k, ms[j], edit.value)];
        made := made + 1;
      }
      assert ms[..j + 1][..j] == ms[..j];
      j := j + 1;
    }
    assert ms[..j] == ms;
  }

  /** The per-page body of `modify_prices_from_mod`: every span in order, with the page's running count. */
  method ModifyNumbersOnPage(spans: seq<string>, p: Percent) returns (edits: seq<Edit>, modificationsMade: nat)
    ensures edits == PageEdits(spans, p)
    ensures modificationsMade == |edits|
  {
    edits := [];
    modificationsMade := 0;
    var k := 0;
    while k < |spans|
      invariant 0 <= k <= |spans|
      invariant edits == PageEdits(spans[..k], p)
      invariant modificationsMade == |edits|
    {
      var spanEdits, made := ModifyNumbersInSpan(k, spans[k], p);
      edits := edits + spanEdits;
      modificationsMade := modificationsMade + made;
      assert spans[..k + 1][..k] == spans[..k];
      k := k + 1;
    }
    assert spans[..k] == spans;
  }

  /** The edits of each page of a document, page by page. */
  function DocumentEdits(pages: seq<seq<string>>, p: Percent): (r: seq<seq<Edit>>)
    ensures |r| == |pages|
  {
    if pages == [] then []
    else DocumentEdits(pages[..|pages| - 1], p) + [PageEdits(pages[|pages| - 1], p)]
  }

  /** `modify_prices_from_mod` over a document: each page separately, with its own count. */
  method ModifyNumbersInDocument(pages: seq<seq<string>>, p: Percent) returns (edits: seq<seq<Edit>>, counts: seq<nat>)
    ensures edits == DocumentEdits(pages, p)
    ensures |counts| == |pages| && forall n :: 0 <= n < |counts| ==> counts[n] == |edits[n]|
  {
    edits := [];
    counts := [];
    var n := 0;
    while n < |pages|
      invariant 0 <= n <= |pages|
      invariant edits == DocumentEdits(pages[..n], p)
      invariant |counts| == n && forall i :: 0 <= i < n ==> counts[i] == |edits[i]|
    {
      var pageEdits, made := ModifyNumbersOnPage(pages[n], p);
      edits := edits + [pageEdits];
      counts := counts + [made];
      assert pages[..n + 1][..n] == pages[..n];
      n := n + 1;
    }
    assert pages[..n] == pages;
  }

  /** Page `n` of the document gets exactly the edits the page on its own would get. */
  lemma {:induction false} DocumentEditsPerPage(pages: seq<seq<string>>, p: Percent, n: nat)
    requires n < |pages|
    ensures DocumentEdits(pages, p)[n] == PageEdits(pages[n], p)
    decreases |pages|
  {
    var k := |pages| - 1;
    if n < k {
      DocumentEditsPerPage(pages[..k], p, n);
    }
  }

  // ---- What the edits are ----------------------------------------------------------

  lemma {:induction false} CollectMembers(k: nat, ms: seq<NumberMatch>, decide: NumberMatch --> Option<string>, e: Edit)
    requires forall m :: m in ms ==> decide.requires(m)
    ensures e in Collect(k, ms, decide) <==> e.span == k && e.at in ms && decide(e.at) == Some(e.text)
  {
    if ms != [] {
      var init := ms[..|ms| - 1];
      var last := ms[|ms| - 1];
      assert forall m :: m in init ==> m in ms;
      CollectMembers(k, init, decide, e);
      assert ms == init + [last];
    }
  }

  lemma MatchEditsMembers(k: nat, text: string, ms: seq<NumberMatch>, p: Percent, e: Edit)
    requires forall m :: m in ms ==> IsMatchIn(text, m)
    ensures e in MatchEdits(k, text, ms, p) <==> e.span == k && e.at in ms && EditFor(text, e.at, p) == Some(e.text)
  {
    CollectMembers(k, ms, m requires IsMatchIn(text, m) => EditFor(text, m, p), e);
  }

  /**
   * The edits of a page are exactly the matches whose context is not avoided
   * and whose rewritten text differs, with its new text.
   */
  lemma {:induction false} PageEditsMembers(spans: seq<string>, p: Percent, e: Edit)
    ensures e in PageEdits(spans, p)
        <==> e.span < |spans| && e.at in Matches(spans[e.span]) && EditFor(spans[e.span], e.at, p) == Some(e.text)
  {
    if spans != [] {
      var k := |spans| - 1;
      PageEditsMembers(spans[..k], p, e);
      MatchEditsMembers(k, spans[k], Matches(spans[k]), p, e);
    }
  }

  /** The number of matches in all spans of a page. */
  function MatchCount(spans: seq<string>): nat
  {
    if spans == [] then 0 else MatchCount(spans[..|spans| - 1]) + |Matches(spans[|spans| - 1])|
  }

  lemma {:induction false} CollectAtMostMatches(k: nat, ms: seq<NumberMatch>, decide: NumberMatch --> Option<string>)
    requires forall m :: m in ms ==> decide.requires(m)
    ensures |Collect(k, ms, decide)| <= |ms|
  {
    if ms != [] {
      CollectAtMostMatches(k, ms[..|ms| - 1], decide);
    }
  }

  /** The count of modifications never exceeds the number of matches on the page. */
  lemma {:induction false} PageEditsAtMostMatches(spans: seq<string>, p: Percent)
    ensures |PageEdits(spans, p)| <= MatchCount(spans)
  {
    if spans != [] {
      var k := |spans| - 1;
      PageEditsAtMostMatches(spans[..k], p);
      CollectAtMostMatches(k, Matches(spans[k]), m requires IsMatchIn(spans[k], m) => EditFor(spans[k], m, p));
    }
  }

  /** A match with no digit, such as a lone ",", is never changed, so never redacted nor counted. */
  lemma DigitlessMatchUntouched(text: string, m: NumberMatch, p: Percent)
    requires IsMatchIn(text, m)
    requires !HasDigit(text[m.start..m.end])
    ensures EditFor(text, m, p) == None
  {
    var number := text[m.start..m.end];
    MatchTextIsNumber(text, m.start);
    CleanKeepsPoints(number);
    CleanKeepsDigits(number);
    NumberTextPoints(number);
    NoDigitFewPoints(Clean(number));
  }

  /**
   * A match of four digits standing alone in its span (no word character
   * right before or after it), such as a year, is never changed.
   */
  lemma StandaloneYearUntouched(text: string, m: NumberMatch, p: Percent)
    requires IsMatchIn(text, m)
    requires m.end == m.start + 4 && Boundary(text, m.start) && Boundary(text, m.end)
    requires forall t :: m.start <= t < m.end ==> IsDigit(text[t])
    ensures EditFor(text, m, p) == None
  {
    var w := ContextWindow(m, |text|);
    var c := Context(text, m);
    var x := m.start - w.lo;
    assert forall t :: 0 <= t < |c| ==> c[t] == text[w.lo + t];
    assert Boundary(c, x) && Boundary(c, x + 4);
    assert FourDigitsAt(c, x);
    FourDigitsAvoided(c);
  }

  /**
   * An edit of a match starting with `$` is a price as "${:,.2f}" prints it:
   * "$", the comma-grouped whole part, a point and two digits.
   */
  lemma PriceEditShape(text: string, m: NumberMatch, p: Percent)
    requires IsMatchIn(text, m) && text[m.start] == '$'
    requires EditFor(text, m, p).Some?
    ensures exists cents: nat :: PriceLayout(EditFor(text, m, p).value, cents)
  {
    var number := text[m.start..m.end];
    MatchTextIsNumber(text, m.start);
    assert EditFor(text, m, p) == Some(Rewrite(number, p));
    assert number[0] == '$';
    PriceRewriteShape(number, p);
  }

  /** A price token that `alter_price` changes comes back as "$", the grouped whole part, a point and two digits. */
  lemma PriceRewriteShape(token: string, p: Percent)
    requires IsNumberText(token) && token[0] == '$' && Rewrite(token, p) != token
    ensures exists cents: nat :: PriceLayout(Rewrite(token, p), cents)
  {
    PriceMatchParses(token, p);
    var d := ParseDecimal(Prepare(token).value).value;
    PriceTextLayout(Reduce(d, p, 2));
  }
}
