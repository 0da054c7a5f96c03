/** The three regular expressions of src/unit-scraper.ts as explicit
    backtracking matchers. Each matcher returns where its match lies (a span);
    its contract says the span is a match, and the lemmas beside it say it is
    the one the JavaScript engine reaches first (the leftmost start, then
    every greedy quantifier as long as it can be), and that no match means
    there is no span of that shape anywhere in the text.

    Each `Last...` search below is one greedy quantifier giving characters
    back (JsRegex.GiveBack) until the rest of its pattern matches, and each
    `...Reaches` lemma says it skips no end position that works. Each
    `Match...At` tries its pattern at one start, and each `Exec...` tries the
    starts from left to right (JsRegex.FirstStart). */
module Patterns {
  import opened JsRegex
  import opened Types

  const CodeSeparator := " - "
  const ReleaseOpen := " (Release "

  // ---------------------------------------------------------------------------
  // /(?<code>.*) - (?<title>.*) \(Release (?<release>.*)\)/
  // ---------------------------------------------------------------------------

  /** One match of the heading pattern: code is s[start..codeEnd], title is
      s[codeEnd + 3..titleEnd], release is s[titleEnd + 10..releaseEnd], and
      s[releaseEnd] is the closing parenthesis. */
  datatype HeadingSpan = HeadingSpan(start: nat, codeEnd: nat, titleEnd: nat, releaseEnd: nat)

  /** `(?<release>.*)\)` matches from `from` with the parenthesis at `k`. */
  predicate ReleaseFits(s: string, from: nat, k: int) {
    from <= k < |s| && Covers(s, from, k, Dot) && s[k] == ')'
  }

  /** `(?<title>.*) \(Release (?<release>.*)\)` matches from `from` with the
      title ending at `j` and the parenthesis at `k`. */
  predicate TitleFits(s: string, from: nat, j: int, k: int) {
    from <= j && j + 10 <= |s| && Covers(s, from, j, Dot)
    && s[j..j + 10] == ReleaseOpen && ReleaseFits(s, j + 10, k)
  }

  /** The whole heading pattern matches from `p` with the code ending at `i`. */
  predicate CodeFits(s: string, p: nat, i: int, j: int, k: int) {
    p <= i && i + 3 <= |s| && Covers(s, p, i, Dot)
    && s[i..i + 3] == CodeSeparator && TitleFits(s, i + 3, j, k)
  }

  predicate IsHeadingSpan(s: string, m: HeadingSpan) {
    CodeFits(s, m.start, m.codeEnd, m.titleEnd, m.releaseEnd)
  }

  /** The order in which the engine reaches the matches: an earlier start
      first, then a longer code, a longer title, a longer release. */
  predicate HeadingTriedFirst(m: HeadingSpan, n: HeadingSpan) {
    || m.start < n.start
    || (m.start == n.start && m.codeEnd > n.codeEnd)
    || (m.start == n.start && m.codeEnd == n.codeEnd && m.titleEnd > n.titleEnd)
    || (m.start == n.start && m.codeEnd == n.codeEnd && m.titleEnd == n.titleEnd && m.releaseEnd > n.releaseEnd)
  }
  /** The search found n or a match the engine tries before n. */
  predicate HeadingReached(r: Option<HeadingSpan>, n: HeadingSpan) {
    r.Some? && (r.value == n || HeadingTriedFirst(r.value, n))
  }


  /** What `\)` checks after a release ending at `k`. */
  predicate ClosesAt(s: string, k: int) {
    0 <= k < |s| && s[k] == ')'
  }

  /** `(?<release>.*)` giving back characters down to `lo`, until `\)` matches at its end. */
  function LastClose(s: string, lo: int, hi: int): (r: Option<int>)
    ensures r.Some? ==> lo <= r.value <= hi && ClosesAt(s, r.value)
  {
    GiveBack(k => ClosesAt(s, k), lo, hi)
  }

  lemma LastCloseReaches(s: string, lo: int, hi: int, k: int)
    requires lo <= k <= hi && ClosesAt(s, k)
    ensures LastClose(s, lo, hi).Some? && k <= LastClose(s, lo, hi).value
  {
    GiveBackReaches(k => ClosesAt(s, k), lo, hi, k);
  }

  /** Greedy `(?<release>.*)` followed by `\)`. */
  function MatchRelease(s: string, from: nat): (r: Option<int>)
    requires from <= |s|
    ensures r.Some? ==> ReleaseFits(s, from, r.value)
  {
    match LastClose(s, from, RunEnd(s, from, Dot))
    case None => None
    case Some(k) => RunEndCovers(s, from, k, Dot); Some(k)
  }

  lemma MatchReleaseLongest(s: string, from: nat, k: int)
    requires ReleaseFits(s, from, k)
    ensures MatchRelease(s, from).Some? && k <= MatchRelease(s, from).value
  {
    RunEndBound(s, from, k, Dot);
    LastCloseReaches(s, from, RunEnd(s, from, Dot), k);
  }

  /** What ` \(Release ` and the release part check after a title ending at `j`. */
  predicate OpensRelease(s: string, j: int) {
    0 <= j && j + 10 <= |s| && s[j..j + 10] == ReleaseOpen && MatchRelease(s, j + 10).Some?
  }

  /** `(?<title>.*)` giving back characters down to `lo`, until the rest matches. */
  function LastTitleEnd(s: string, lo: int, hi: int): (r: Option<int>)
    ensures r.Some? ==> lo <= r.value <= hi && OpensRelease(s, r.value)
  {
    GiveBack(j => OpensRelease(s, j), lo, hi)
  }

  lemma LastTitleEndReaches(s: string, lo: int, hi: int, j: int)
    requires lo <= j <= hi && OpensRelease(s, j)
    ensures LastTitleEnd(s, lo, hi).Some? && j <= LastTitleEnd(s, lo, hi).value
  {
    GiveBackReaches(j => OpensRelease(s, j), lo, hi, j);
  }

  /** Greedy `(?<title>.*)` followed by ` \(Release ` and the release part:
      where the title ends and where the closing parenthesis lies. */
  function MatchTitle(s: string, from: nat): (r: Option<(int, int)>)
    requires from <= |s|
    ensures r.Some? ==> TitleFits(s, from, r.value.0, r.value.1)
  {
    match LastTitleEnd(s, from, RunEnd(s, from, Dot))
    case None => None
    case Some(j) => RunEndCovers(s, from, j, Dot); Some((j, MatchRelease(s, j + 10).value))
  }

  /** The title search found a title end and closing parenthesis that come no
      later, in the engine's order, than (j, k): a longer title, or the same
      title and a release no shorter. */
  predicate TitleReached(r: Option<(int, int)>, j: int, k: int) {
    r.Some? && (j < r.value.0 || (j == r.value.0 && k <= r.value.1))
  }

  /** The title and release the engine keeps come no later, in its order,
      than any others that fit. */
  lemma MatchTitleFirst(s: string, from: nat, j: int, k: int)
    requires TitleFits(s, from, j, k)
    ensures TitleReached(MatchTitle(s, from), j, k)
  {
    RunEndBound(s, from, j, Dot);
    MatchReleaseLongest(s, j + 10, k);
    LastTitleEndReaches(s, from, RunEnd(s, from, Dot), j);
  }

  /** What ` - ` and the title part check after a code ending at `i`. */
  predicate Separates(s: string, i: int) {
    0 <= i && i + 3 <= |s| && s[i..i + 3] == CodeSeparator && MatchTitle(s, i + 3).Some?
  }

  /** `(?<code>.*)` giving back characters down to `lo`, until the rest matches. */
  function LastCodeEnd(s: string, lo: int, hi: int): (r: Option<int>)
    ensures r.Some? ==> lo <= r.value <= hi && Separates(s, r.value)
  {
    GiveBack(i => Separates(s, i), lo, hi)
  }

  lemma LastCodeEndReaches(s: string, lo: int, hi: int, i: int)
    requires lo <= i <= hi && Separates(s, i)
    ensures LastCodeEnd(s, lo, hi).Some? && i <= LastCodeEnd(s, lo, hi).value
  {
    GiveBackReaches(i => Separates(s, i), lo, hi, i);
  }

  /** The heading pattern tried at start `p` only: greedy `(?<code>.*)`
      followed by ` - ` and the title part. */
  function MatchHeadingAt(s: string, p: nat): (r: Option<HeadingSpan>)
    requires p <= |s|
    ensures r.Some? ==> r.value.start == p && IsHeadingSpan(s, r.value)
  {
    match LastCodeEnd(s, p, RunEnd(s, p, Dot))
    case None => None
    case Some(i) =>
      RunEndCovers(s, p, i, Dot);
      var t := MatchTitle(s, i + 3).value;
      Some(HeadingSpan(p, i, t.0, t.1))
  }

  /** At one start, the engine keeps the longest code, then the longest title,
      then the longest release: every other match there is tried later. */
  lemma MatchHeadingAtFirst(s: string, n: HeadingSpan)
    requires IsHeadingSpan(s, n)
    ensures HeadingReached(MatchHeadingAt(s, n.start), n)
  {
    CodeEndFirst(s, n);
    var i := LastCodeEnd(s, n.start, RunEnd(s, n.start, Dot)).value;
    if i == n.codeEnd {
      MatchTitleFirst(s, n.codeEnd + 3, n.titleEnd, n.releaseEnd);
    }
  }

  /** The greedy code keeps at least as many characters as any match at the
      same start. */
  lemma CodeEndFirst(s: string, n: HeadingSpan)
    requires IsHeadingSpan(s, n)
    ensures LastCodeEnd(s, n.start, RunEnd(s, n.start, Dot)).Some?
    ensures n.codeEnd <= LastCodeEnd(s, n.start, RunEnd(s, n.start, Dot)).value
  {
    RunEndBound(s, n.start, n.codeEnd, Dot);
    MatchTitleFirst(s, n.codeEnd + 3, n.titleEnd, n.releaseEnd);
    LastCodeEndReaches(s, n.start, RunEnd(s, n.start, Dot), n.codeEnd);
  }

  /** The heading pattern matches at start `q`. */
  predicate HeadingStartsAt(s: string, q: int) {
    0 <= q <= |s| && MatchHeadingAt(s, q).Some?
  }

  /** `pattern.exec(s)` for the heading pattern: the match at the first start that has one. */
  function ExecHeading(s: string): (r: Option<HeadingSpan>)
    ensures r.Some? ==> IsHeadingSpan(s, r.value)
  {
    match FirstStart(q => HeadingStartsAt(s, q), 0, |s|)
    case None => None
    case Some(q) => MatchHeadingAt(s, q)
  }

  /** ExecHeading returns exactly the match the engine reaches first: every
      other match comes later in the engine's order, and there is no match at
      all when it returns nothing. */
  lemma ExecHeadingFirst(s: string, n: HeadingSpan)
    requires IsHeadingSpan(s, n)
    ensures ExecHeading(s).Some?
    ensures n == ExecHeading(s).value || HeadingTriedFirst(ExecHeading(s).value, n)
  {
    MatchHeadingAtFirst(s, n);
    FirstStartReaches(q => HeadingStartsAt(s, q), 0, |s|, n.start);
  }

  // ---------------------------------------------------------------------------
  // /(?<id>\d+).\s(?<title>.*)/
  // ---------------------------------------------------------------------------

  /** One match of the element pattern: id is s[start..idEnd], the unescaped
      `.` matched s[idEnd], `\s` matched s[idEnd + 1], and title is
      s[idEnd + 2..titleEnd]. */
  datatype ElementSpan = ElementSpan(start: nat, idEnd: nat, titleEnd: nat)

  predicate IsElementSpan(s: string, m: ElementSpan) {
    m.start < m.idEnd && m.idEnd + 2 <= m.titleEnd <= |s|
    && Covers(s, m.start, m.idEnd, Digit)
    && IsDot(s[m.idEnd]) && IsSpace(s[m.idEnd + 1])
    && Covers(s, m.idEnd + 2, m.titleEnd, Dot)
  }

  /** An earlier start first, then a longer id (`\d+` backtracks), then a longer title. */
  predicate ElementTriedFirst(m: ElementSpan, n: ElementSpan) {
    || m.start < n.start
    || (m.start == n.start && m.idEnd > n.idEnd)
    || (m.start == n.start && m.idEnd == n.idEnd && m.titleEnd > n.titleEnd)
  }
  /** The search found n or a match the engine tries before n. */
  predicate ElementReached(r: Option<ElementSpan>, n: ElementSpan) {
    r.Some? && (r.value == n || ElementTriedFirst(r.value, n))
  }


  /** What `.\s` checks after an id ending at `e`. */
  predicate DotSpace(s: string, e: int) {
    0 <= e && e + 2 <= |s| && IsDot(s[e]) && IsSpace(s[e + 1])
  }

  /** `\d+` giving back digits down to `lo`, until `.\s` matches after it. */
  function LastDotSpace(s: string, lo: int, hi: int): (r: Option<int>)
    ensures r.Some? ==> lo <= r.value <= hi && DotSpace(s, r.value)
  {
    GiveBack(e => DotSpace(s, e), lo, hi)
  }

  lemma LastDotSpaceReaches(s: string, lo: int, hi: int, e: int)
    requires lo <= e <= hi && DotSpace(s, e)
    ensures LastDotSpace(s, lo, hi).Some? && e <= LastDotSpace(s, lo, hi).value
  {
    GiveBackReaches(e => DotSpace(s, e), lo, hi, e);
  }

  /** The element pattern tried at start `p` only. */
  function MatchElementAt(s: string, p: nat): (r: Option<ElementSpan>)
    requires p <= |s|
    ensures r.Some? ==> r.value.start == p && IsElementSpan(s, r.value)
  {
    match LastDotSpace(s, p + 1, RunEnd(s, p, Digit))
    case None => None
    case Some(e) =>
      RunEndCovers(s, p, e, Digit);
      Some(ElementSpan(p, e, RunEnd(s, e + 2, Dot)))
  }

  lemma MatchElementAtFirst(s: string, n: ElementSpan)
    requires IsElementSpan(s, n)
    ensures ElementReached(MatchElementAt(s, n.start), n)
  {
    RunEndBound(s, n.start, n.idEnd, Digit);
    LastDotSpaceReaches(s, n.start + 1, RunEnd(s, n.start, Digit), n.idEnd);
    var e := MatchElementAt(s, n.start).value.idEnd;
    if n.idEnd == e {
      RunEndBound(s, e + 2, n.titleEnd, Dot);
    }
  }

  /** The element pattern matches at start `q`. */
  predicate ElementStartsAt(s: string, q: int) {
    0 <= q <= |s| && MatchElementAt(s, q).Some?
  }

  /** `regex.exec(s)` for the element pattern: the match at the first start that has one. */
  function ExecElement(s: string): (r: Option<ElementSpan>)
    ensures r.Some? ==> IsElementSpan(s, r.value)
  {
    match FirstStart(q => ElementStartsAt(s, q), 0, |s|)
    case None => None
    case Some(q) => MatchElementAt(s, q)
  }

  /** ExecElement returns exactly the match the engine reaches first. */
  lemma ExecElementFirst(s: string, n: ElementSpan)
    requires IsElementSpan(s, n)
    ensures ExecElement(s).Some?
    ensures n == ExecElement(s).value || ElementTriedFirst(ExecElement(s).value, n)
  {
    MatchElementAtFirst(s, n);
    FirstStartReaches(q => ElementStartsAt(s, q), 0, |s|, n.start);
  }

  // ---------------------------------------------------------------------------
  // /(?<id>\d+\.\d+)\s(?<criteria>.*)/
  // ---------------------------------------------------------------------------

  /** One match of the criteria pattern: id is s[start..idEnd] with its period
      at pointAt, `\s` matched s[idEnd], and criteria is s[idEnd + 1..textEnd]. */
  datatype CriteriaSpan = CriteriaSpan(start: nat, pointAt: nat, idEnd: nat, textEnd: nat)

  /** `\d+\s` matches from `from` with the `\s` at `e`. */
  predicate MinorFits(s: string, from: nat, e: int) {
    from < e < |s| && Covers(s, from, e, Digit) && IsSpace(s[e])
  }

  predicate IsCriteriaSpan(s: string, m: CriteriaSpan) {
    m.start < m.pointAt && MinorFits(s, m.pointAt + 1, m.idEnd)
    && m.idEnd + 1 <= m.textEnd <= |s|
    && Covers(s, m.start, m.pointAt, Digit) && s[m.pointAt] == '.'
    && Covers(s, m.idEnd + 1, m.textEnd, Dot)
  }

  /** An earlier start first, then a longer first number, a longer second
      number, a longer criteria text. */
  predicate CriteriaTriedFirst(m: CriteriaSpan, n: CriteriaSpan) {
    || m.start < n.start
    || (m.start == n.start && m.pointAt > n.pointAt)
    || (m.start == n.start && m.pointAt == n.pointAt && m.idEnd > n.idEnd)
    || (m.start == n.start && m.pointAt == n.pointAt && m.idEnd == n.idEnd && m.textEnd > n.textEnd)
  }
  /** The search found n or a match the engine tries before n. */
  predicate CriteriaReached(r: Option<CriteriaSpan>, n: CriteriaSpan) {
    r.Some? && (r.value == n || CriteriaTriedFirst(r.value, n))
  }


  /** What `\s` checks after a second number ending at `e`. */
  predicate SpaceAt(s: string, e: int) {
    0 <= e < |s| && IsSpace(s[e])
  }

  /** The second `\d+` giving back digits down to `lo`, until `\s` matches after it. */
  function LastSpace(s: string, lo: int, hi: int): (r: Option<int>)
    ensures r.Some? ==> lo <= r.value <= hi && SpaceAt(s, r.value)
  {
    GiveBack(e => SpaceAt(s, e), lo, hi)
  }

  lemma LastSpaceReaches(s: string, lo: int, hi: int, e: int)
    requires lo <= e <= hi && SpaceAt(s, e)
    ensures LastSpace(s, lo, hi).Some? && e <= LastSpace(s, lo, hi).value
  {
    GiveBackReaches(e => SpaceAt(s, e), lo, hi, e);
  }

  /** The second greedy `\d+`, followed by `\s`. */
  function MatchMinor(s: string, from: nat): (r: Option<int>)
    requires from <= |s|
    ensures r.Some? ==> MinorFits(s, from, r.value)
  {
    match LastSpace(s, from + 1, RunEnd(s, from, Digit))
    case None => None
    case Some(e) => RunEndCovers(s, from, e, Digit); Some(e)
  }

  lemma MatchMinorLongest(s: string, from: nat, e: int)
    requires MinorFits(s, from, e)
    ensures MatchMinor(s, from).Some? && e <= MatchMinor(s, from).value
  {
    RunEndBound(s, from, e, Digit);
    LastSpaceReaches(s, from + 1, RunEnd(s, from, Digit), e);
  }

  /** What `\.\d+\s` checks after a first number ending at `d`. */
  predicate PointAt(s: string, d: int) {
    0 <= d < |s| && s[d] == '.' && MatchMinor(s, d + 1).Some?
  }

  /** The first `\d+` giving back digits down to `lo`, until the rest matches. */
  function LastPoint(s: string, lo: int, hi: int): (r: Option<int>)
    ensures r.Some? ==> lo <= r.value <= hi && PointAt(s, r.value)
  {
    GiveBack(d => PointAt(s, d), lo, hi)
  }

  lemma LastPointReaches(s: string, lo: int, hi: int, d: int)
    requires lo <= d <= hi && PointAt(s, d)
    ensures LastPoint(s, lo, hi).Some? && d <= LastPoint(s, lo, hi).value
  {
    GiveBackReaches(d => PointAt(s, d), lo, hi, d);
  }

  /** The criteria pattern tried at start `p` only. */
  function MatchCriteriaAt(s: string, p: nat): (r: Option<CriteriaSpan>)
    requires p <= |s|
    ensures r.Some? ==> r.value.start == p && IsCriteriaSpan(s, r.value)
  {
    match LastPoint(s, p + 1, RunEnd(s, p, Digit))
    case None => None
    case Some(d) =>
      RunEndCovers(s, p, d, Digit);
      var e := MatchMinor(s, d + 1).value;
      Some(CriteriaSpan(p, d, e, RunEnd(s, e + 1, Dot)))
  }

  /** The span MatchCriteriaAt builds from the point and the `\s` its
      searches find. */
  lemma MatchCriteriaAtBuilds(s: string, p: nat, d: nat, e: nat)
    requires p <= |s| && LastPoint(s, p + 1, RunEnd(s, p, Digit)) == Some(d) && MatchMinor(s, d + 1) == Some(e)
    ensures MatchCriteriaAt(s, p) == Some(CriteriaSpan(p, d, e, RunEnd(s, e + 1, Dot)))
  {
  }

  lemma MatchCriteriaAtFirst(s: string, n: CriteriaSpan)
    requires IsCriteriaSpan(s, n)
    ensures CriteriaReached(MatchCriteriaAt(s, n.start), n)
  {
    PointFirst(s, n);
    var d: nat := LastPoint(s, n.start + 1, RunEnd(s, n.start, Digit)).value;
    var e: nat := MatchMinor(s, d + 1).value;
    MatchCriteriaAtBuilds(s, n.start, d, e);
    if d == n.pointAt {
      MatchMinorLongest(s, n.pointAt + 1, n.idEnd);
      if e == n.idEnd {
        RunEndBound(s, e + 1, n.textEnd, Dot);
      }
    }
  }

  /** The greedy first number keeps at least as many digits as any match at
      the same start. */
  lemma PointFirst(s: string, n: CriteriaSpan)
    requires IsCriteriaSpan(s, n)
    ensures LastPoint(s, n.start + 1, RunEnd(s, n.start, Digit)).Some?
    ensures n.pointAt <= LastPoint(s, n.start + 1, RunEnd(s, n.start, Digit)).value
  {
    RunEndBound(s, n.start, n.pointAt, Digit);
    MatchMinorLongest(s, n.pointAt + 1, n.idEnd);
    LastPointReaches(s, n.start + 1, RunEnd(s, n.start, Digit), n.pointAt);
  }

  /** The criteria pattern matches at start `q`. */
  predicate CriteriaStartsAt(s: string, q: int) {
    0 <= q <= |s| && MatchCriteriaAt(s, q).Some?
  }

  /** `regex.exec(s)` for the criteria pattern: the match at the first start that has one. */
  function ExecCriteria(s: string): (r: Option<CriteriaSpan>)
    ensures r.Some? ==> IsCriteriaSpan(s, r.value)
  {
    match FirstStart(q => CriteriaStartsAt(s, q), 0, |s|)
    case None => None
    case Some(q) => MatchCriteriaAt(s, q)
  }

  /** ExecCriteria returns exactly the match the engine reaches first. */
  lemma ExecCriteriaFirst(s: string, n: CriteriaSpan)
    requires IsCriteriaSpan(s, n)
    ensures ExecCriteria(s).Some?
    ensures n == ExecCriteria(s).value || CriteriaTriedFirst(ExecCriteria(s).value, n)
  {
    MatchCriteriaAtFirst(s, n);
    FirstStartReaches(q => CriteriaStartsAt(s, q), 0, |s|, n.start);
  }
}
