/** What Scrape.CodeTitleAndRelease promises about the heading it parses:
    its result is decided by the first match of the heading pattern alone,
    on a single line that match is the start of the heading, and a heading
    written in the template form gives back exactly the pieces it was written
    from, with the longest code the rest allows. */
module HeadingProperties {
  import opened JsRegex
  import opened Patterns
  import opened Types
  import opened Scrape

  /** m is the heading match the engine reaches first: it comes before every
      other match in the engine's order. */
  ghost predicate IsFirstHeading(s: string, m: HeadingSpan) {
    IsHeadingSpan(s, m) && forall n :: IsHeadingSpan(s, n) ==> n == m || HeadingTriedFirst(m, n)
  }

  /** The result is that of the first match. */
  lemma FirstHeadingDecides(s: string, m: HeadingSpan)
    requires IsFirstHeading(s, m)
    ensures CodeTitleAndRelease(s) == HeadingOf(s, m)
  {
    ExecHeadingFirst(s, m);
    var e := ExecHeading(s).value;
    assert e == m || HeadingTriedFirst(m, e);
  }

  /** CodeTitleAndRelease succeeds exactly when the heading has a first match
      whose three groups are non-empty, and then returns those groups. */
  lemma CodeTitleAndReleaseOk(s: string)
    ensures CodeTitleAndRelease(s).Ok? <==>
      exists m :: IsFirstHeading(s, m) && WellFormedHeading(HeadingGroups(s, m))
    ensures forall m :: IsFirstHeading(s, m) ==> CodeTitleAndRelease(s) == HeadingOf(s, m)
  {
    forall m | IsFirstHeading(s, m)
      ensures CodeTitleAndRelease(s) == HeadingOf(s, m)
    {
      FirstHeadingDecides(s, m);
    }
    if CodeTitleAndRelease(s).Ok? {
      var e := ExecHeading(s).value;
      forall n | IsHeadingSpan(s, n)
        ensures n == e || HeadingTriedFirst(e, n)
      {
        ExecHeadingFirst(s, n);
      }
      assert IsFirstHeading(s, e);
    }
  }

  /** The line the heading template writes from a code, a title and a release. */
  function Written(c: string, t: string, r: string): string {
    c + CodeSeparator + t + ReleaseOpen + r + ")"
  }

  lemma SliceSplit(s: string, a: nat, b: nat, c: nat)
    requires a <= b <= c <= |s|
    ensures s[a..c] == s[a..b] + s[b..c]
  {
  }

  /** A match keeps the text it spans: the template line of its groups. */
  lemma SpanIsHeadingLine(s: string, m: HeadingSpan)
    requires IsHeadingSpan(s, m)
    ensures var h := HeadingGroups(s, m); s[m.start..m.releaseEnd + 1] == Written(h.code, h.title, h.release)
  {
    var h := HeadingGroups(s, m);
    SliceSplit(s, m.start, m.codeEnd, m.codeEnd + 3);
    assert s[m.start..m.codeEnd + 3] == h.code + CodeSeparator;
    SliceSplit(s, m.start, m.codeEnd + 3, m.titleEnd);
    assert s[m.start..m.titleEnd] == h.code + CodeSeparator + h.title;
    SliceSplit(s, m.start, m.titleEnd, m.titleEnd + 10);
    assert s[m.start..m.titleEnd + 10] == h.code + CodeSeparator + h.title + ReleaseOpen;
    SliceSplit(s, m.start, m.titleEnd + 10, m.releaseEnd);
    assert s[m.start..m.releaseEnd] == h.code + CodeSeparator + h.title + ReleaseOpen + h.release;
    SliceSplit(s, m.start, m.releaseEnd, m.releaseEnd + 1);
    assert s[m.releaseEnd..m.releaseEnd + 1] == ")";
  }

  /** On a heading of one line, a successful result is read from the start of
      the heading: the heading begins with the template line of the result. */
  lemma SingleLineHeading(s: string)
    requires AllIn(s, Dot) && CodeTitleAndRelease(s).Ok?
    ensures var h := CodeTitleAndRelease(s).value; var line := Written(h.code, h.title, h.release);
      |line| <= |s| && s[..|line|] == line
  {
    var e := ExecHeading(s).value;
    var n := e.(start := 0);
    assert IsHeadingSpan(s, n);
    ExecHeadingFirst(s, n);
    assert e.start == 0;
    SpanIsHeadingLine(s, e);
  }

  /** `pat` occurs in `u` at position k. */
  predicate OccursAt(pat: string, u: string, k: int) {
    0 <= k && k + |pat| <= |u| && u[k..k + |pat|] == pat
  }

  /** `pat` occurs somewhere in `u`. */
  predicate Occurs(pat: string, u: string) {
    exists k :: 0 <= k <= |u| && OccursAt(pat, u, k)
  }

  /** A title without a hyphen holds no separator, even after a space. */
  lemma NoDashNoSeparator(t: string)
    requires '-' !in t
    ensures !Occurs(CodeSeparator, " " + t)
  {
    var u := " " + t;
    forall k | 0 <= k && k + 3 <= |u|
      ensures !OccursAt(CodeSeparator, u, k)
    {
      assert u[k..k + 3][1] == u[k + 1] == t[k];
      assert t[k] in t;
    }
  }

  /** A release without an opening parenthesis holds no " (Release ". */
  lemma NoOpenNoReleaseOpen(r: string)
    requires '(' !in r
    ensures !Occurs(ReleaseOpen, " " + r)
  {
    var u := " " + r;
    forall k | 0 <= k && k + 10 <= |u|
      ensures !OccursAt(ReleaseOpen, u, k)
    {
      assert u[k..k + 10][1] == u[k + 1] == r[k];
      assert r[k] in r;
    }
  }

  /** A " (Release " after the title of a written heading, with a ")" still
      after it, lies inside " " + release. */
  lemma ReleaseOpenInRelease(c: string, t: string, r: string, k: int)
    requires |c| + 3 + |t| < k && k + 10 < |Written(c, t, r)|
    requires Written(c, t, r)[k..k + 10] == ReleaseOpen
    ensures Occurs(ReleaseOpen, " " + r)
  {
    var s := Written(c, t, r);
    var j := |c| + 3 + |t|;
    var front := c + CodeSeparator + t + " (Release";
    var u := " " + r;
    assert s == front + u + ")";
    assert s[k] == s[k..k + 10][0] == ' ';
    var q := k - |front|;
    assert s[k..k + 10] == u[q..q + 10];
    assert OccursAt(ReleaseOpen, u, q);
  }

  /** A " - " that starts after the hyphen of the written separator and ends
      inside the written title lies inside " " + title. */
  lemma SeparatorInTitle(c: string, t: string, r: string, i: int)
    requires |c| < i && i + 3 <= |c| + 3 + |t|
    requires Written(c, t, r)[i..i + 3] == CodeSeparator
    ensures Occurs(CodeSeparator, " " + t)
  {
    var s := Written(c, t, r);
    var u := " " + t;
    assert s == c + " -" + u + (ReleaseOpen + r + ")");
    assert s[i] == s[i..i + 3][0] == ' ';
    assert s[|c| + 1] == '-';
    var q := i - |c| - 2;
    assert s[i..i + 3] == u[q..q + 3];
    assert OccursAt(CodeSeparator, u, q);
  }

  /** The written heading matches the template with exactly its own pieces. */
  lemma WrittenSpan(c: string, t: string, r: string)
    requires WellFormedHeading(UnitHeading(c, t, r))
    ensures IsHeadingSpan(Written(c, t, r), HeadingSpan(0, |c|, |c| + 3 + |t|, |Written(c, t, r)| - 1))
    ensures HeadingGroups(Written(c, t, r), HeadingSpan(0, |c|, |c| + 3 + |t|, |Written(c, t, r)| - 1)) == UnitHeading(c, t, r)
  {
    var s := Written(c, t, r);
    var j := |c| + 3 + |t|;
    assert s[..|c|] == c && s[|c|..|c| + 3] == CodeSeparator && s[|c| + 3..j] == t;
    assert s[j..j + 10] == ReleaseOpen && s[j + 10..|s| - 1] == r;
  }

  /** No title of a match in a written heading runs past the written title
      when no " (Release " occurs inside " " + release. */
  lemma WrittenTitleEnd(c: string, t: string, r: string, m: HeadingSpan)
    requires !Occurs(ReleaseOpen, " " + r) && IsHeadingSpan(Written(c, t, r), m)
    ensures m.titleEnd <= |c| + 3 + |t|
  {
    if m.titleEnd > |c| + 3 + |t| {
      ReleaseOpenInRelease(c, t, r, m.titleEnd);
    }
  }

  /** No code of a match in a written heading runs past the written code
      when no " - " occurs inside " " + title. */
  lemma WrittenCodeEnd(c: string, t: string, r: string, m: HeadingSpan)
    requires !Occurs(CodeSeparator, " " + t) && !Occurs(ReleaseOpen, " " + r)
    requires IsHeadingSpan(Written(c, t, r), m)
    ensures m.codeEnd <= |c|
  {
    WrittenTitleEnd(c, t, r, m);
    if m.codeEnd > |c| {
      SeparatorInTitle(c, t, r, m.codeEnd);
    }
  }

  /** A heading written in the template form from a non-empty single-line
      code, title and release gives back exactly those pieces, as long as
      " " + title holds no " - " and " " + release holds no " (Release ".
      The code may itself contain " - " (it is the longest code the rest of
      the heading allows), and the title may contain hyphens. */
  lemma WrittenHeading(c: string, t: string, r: string)
    requires WellFormedHeading(UnitHeading(c, t, r))
    requires !Occurs(CodeSeparator, " " + t) && !Occurs(ReleaseOpen, " " + r)
    ensures CodeTitleAndRelease(Written(c, t, r)) == Ok(UnitHeading(c, t, r))
  {
    var s := Written(c, t, r);
    var n := HeadingSpan(0, |c|, |c| + 3 + |t|, |s| - 1);
    WrittenSpan(c, t, r);
    ExecHeadingFirst(s, n);
    var e := ExecHeading(s).value;
    WrittenTitleEnd(c, t, r, e);
    WrittenCodeEnd(c, t, r, e);
    assert e == n;
  }

  /** The greedy code: a heading with two separators keeps the first one in
      the code. */
  lemma GreedyCode(s: string, c: string, t: string, r: string)
    requires s == "A - B - C (Release 1)"
    requires c == "A - B" && t == "C" && r == "1"
    ensures CodeTitleAndRelease(s) == Ok(UnitHeading(c, t, r))
  {
    assert AllIn(c, Dot) && AllIn(t, Dot) && AllIn(r, Dot);
    assert '-' !in t && '(' !in r;
    NoDashNoSeparator(t);
    NoOpenNoReleaseOpen(r);
    assert Written(c, t, r) == s;
    WrittenHeading(c, t, r);
  }

  /** The title of unit UEERE0035 is one line without a hyphen. */
  lemma UnitTitleText(t: string)
    requires t == "Define and apply" + " electrical safety" + " requirements"
    ensures AllIn(t, Dot) && '-' !in t
  {
    var t1, t2, t3 := "Define and apply", " electrical safety", " requirements";
    assert AllIn(t1, Dot) && AllIn(t2, Dot) && AllIn(t3, Dot);
    assert '-' !in t1 && '-' !in t2 && '-' !in t3;
    AllInAppend(t1, t2, Dot);
    AllInAppend(t1 + t2, t3, Dot);
  }

  /** The heading of unit UEERE0035, "UEERE0035 - Define and apply electrical
      safety requirements (Release 2)", its long literals written as
      concatenations of short ones. */
  lemma UnitHeadingExample(s: string, c: string, t: string, r: string)
    requires s == "UEERE0035 - " + "Define and apply" + " electrical safety" + " requirements" + " (Release 2)"
    requires c == "UEERE0035" && t == "Define and apply" + " electrical safety" + " requirements" && r == "2"
    ensures CodeTitleAndRelease(s) == Ok(UnitHeading(c, t, r))
  {
    UnitTitleText(t);
    assert AllIn(c, Dot) && AllIn(r, Dot) && '(' !in r;
    NoDashNoSeparator(t);
    NoOpenNoReleaseOpen(r);
    assert Written(c, t, r) == s by {
      assert c + CodeSeparator == "UEERE0035 - ";
      assert ReleaseOpen + r + ")" == " (Release 2)";
      assert Written(c, t, r) == (c + CodeSeparator) + t + (ReleaseOpen + r + ")");
    }
    WrittenHeading(c, t, r);
  }

  /** A hyphen inside a word of the title is no separator: in " " + a + "-" + b
      the only hyphen follows the last character of `a`, which is not a space. */
  lemma WordHyphenNoSeparator(a: string, b: string)
    requires a != [] && a[|a| - 1] != ' ' && '-' !in a && '-' !in b
    ensures !Occurs(CodeSeparator, " " + (a + "-" + b))
  {
    var u := " " + (a + "-" + b);
    forall k | 0 <= k && k + 3 <= |u|
      ensures !OccursAt(CodeSeparator, u, k)
    {
      if k < |a| {
        assert u[k..k + 3][1] == u[k + 1] == a[k];
      } else if k == |a| {
        assert u[k..k + 3][0] == u[k] == a[|a| - 1];
      } else {
        assert u[k..k + 3][1] == u[k + 1] == b[k - |a| - 1];
      }
    }
  }

  /** A hyphenated title comes back whole: "X1 - first-aid (Release 1)"
      gives code "X1", title "first-aid" and release "1". */
  lemma HyphenatedTitle(s: string, c: string, t: string, r: string)
    requires s == "X1 - " + "first-aid" + " (Release 1)"
    requires c == "X1" && t == "first-aid" && r == "1"
    ensures CodeTitleAndRelease(s) == Ok(UnitHeading(c, t, r))
  {
    FirstAidTitle(t);
    assert '(' !in r;
    NoOpenNoReleaseOpen(r);
    assert AllIn(c, Dot) && AllIn(r, Dot);
    assert Written(c, t, r) == s by {
      assert c + CodeSeparator == "X1 - ";
      assert ReleaseOpen + r + ")" == " (Release 1)";
      assert Written(c, t, r) == (c + CodeSeparator) + t + (ReleaseOpen + r + ")");
    }
    WrittenHeading(c, t, r);
  }

  /** "first-aid" is one line and holds no separator after a space. */
  lemma FirstAidTitle(t: string)
    requires t == "first-aid"
    ensures AllIn(t, Dot) && !Occurs(CodeSeparator, " " + t)
  {
    var a, b := "first", "aid";
    assert '-' !in a && '-' !in b;
    assert t == a + "-" + b;
    WordHyphenNoSeparator(a, b);
  }

  /** A heading with no closing parenthesis, the empty heading among them,
      fails with the heading error. */
  lemma NoCloseFails(s: string)
    requires ')' !in s
    ensures CodeTitleAndRelease(s) == Err(HeadingError)
  {
  }
}
