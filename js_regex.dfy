/** The pieces of ECMAScript string and regular-expression semantics that the
    scraper's three patterns and its call of String.prototype.trim rely on:
    the character classes `.`, `\d` and `\s` (no flags set), runs of one class,
    and the two search orders of a backtracking matcher: the leftmost start
    first, and a greedy quantifier giving characters back one at a time until
    the rest of its pattern matches. */
module JsRegex {
  import opened Types

  /** LineTerminator (section 12.3 of ECMA-262): the characters that `.` does not match. */
  predicate IsLineTerminator(c: char) {
    c == '\n' || c == '\r' || c == '\U{2028}' || c == '\U{2029}'
  }

  /** The class of `.` without the s flag. */
  predicate IsDot(c: char) {
    !IsLineTerminator(c)
  }

  /** The class of `\d`. */
  predicate IsDigit(c: char) {
    '0' <= c <= '9'
  }

  /** The class of `\s`: WhiteSpace (section 12.2 of ECMA-262, with every Zs
      character of Unicode) or LineTerminator. String.prototype.trim strips
      exactly the same characters. */
  predicate IsSpace(c: char) {
    || IsLineTerminator(c)
    || c == '\t' || c == '\U{000B}' || c == '\U{000C}' || c == ' '
    || c == '\U{00A0}' || c == '\U{1680}' || ('\U{2000}' <= c <= '\U{200A}')
    || c == '\U{202F}' || c == '\U{205F}' || c == '\U{3000}' || c == '\U{FEFF}'
  }

  /** The three character classes the patterns use. */
  datatype CharClass = Dot | Digit | Space

  predicate In(cls: CharClass, c: char) {
    match cls
    case Dot => IsDot(c)
    case Digit => IsDigit(c)
    case Space => IsSpace(c)
  }

  /** Every character of s[from..to] is in `cls`. */
  predicate Covers(s: string, from: int, to: int, cls: CharClass)
    requires 0 <= from && to <= |s|
  {
    forall i :: from <= i < to ==> In(cls, s[i])
  }

  predicate AllIn(s: string, cls: CharClass) {
    Covers(s, 0, |s|, cls)
  }

  /** A range covered by a class is a slice made of that class. */
  lemma CoversSlice(s: string, from: nat, to: nat, cls: CharClass)
    requires from <= to <= |s| && Covers(s, from, to, cls)
    ensures AllIn(s[from..to], cls)
  {
    assert forall i :: 0 <= i < to - from ==> s[from..to][i] == s[from + i];
  }

  /** Two texts made of one class joined are made of that class. */
  lemma AllInAppend(a: string, b: string, cls: CharClass)
    requires AllIn(a, cls) && AllIn(b, cls)
    ensures AllIn(a + b, cls)
  {
    assert forall i | 0 <= i < |a + b| :: (a + b)[i] == if i < |a| then a[i] else b[i - |a|];
  }

  /** The end of the longest run of `cls` characters that starts at `from`:
      where a greedy `cls*` or `cls+` first tries to stop. */
  function RunEnd(s: string, from: nat, cls: CharClass): (e: nat)
    requires from <= |s|
    ensures from <= e <= |s|
    ensures Covers(s, from, e, cls)
    ensures e < |s| ==> !In(cls, s[e])
    decreases |s| - from
  {
    if from == |s| || !In(cls, s[from]) then from else RunEnd(s, from + 1, cls)
  }

  /** Every range inside the run from `from` is covered by `cls`. */
  lemma RunEndCovers(s: string, from: nat, to: int, cls: CharClass)
    requires from <= |s| && from <= to <= RunEnd(s, from, cls)
    ensures Covers(s, from, to, cls)
  {
  }

  /** A range from `from` covered by `cls` ends no later than the run. */
  lemma RunEndBound(s: string, from: nat, to: int, cls: CharClass)
    requires from <= to <= |s| && Covers(s, from, to, cls)
    ensures to <= RunEnd(s, from, cls)
  {
  }

  /** A greedy quantifier giving characters back: the end positions from `hi`
      down to `lo` are tried in turn, and the first at which the rest of the
      pattern matches (`fits`) is kept. */
  function GiveBack(fits: int -> bool, lo: int, hi: int): (r: Option<int>)
    ensures r.Some? ==> lo <= r.value <= hi && fits(r.value)
    decreases hi - lo
  {
    if hi < lo then None
    else if fits(hi) then Some(hi)
    else GiveBack(fits, lo, hi - 1)
  }

  /** GiveBack skips no end position at which the rest of the pattern matches. */
  lemma {:induction false} GiveBackReaches(fits: int -> bool, lo: int, hi: int, e: int)
    requires lo <= e <= hi && fits(e)
    ensures GiveBack(fits, lo, hi).Some? && e <= GiveBack(fits, lo, hi).value
    decreases hi - lo
  {
    if !fits(hi) {
      GiveBackReaches(fits, lo, hi - 1, e);
    }
  }

  /** RegExp.prototype.exec without the g or y flag: the start positions from
      `p` up to `end` are tried in turn, and the first at which the pattern
      matches (`matches`) is kept. */
  function FirstStart(matches: int -> bool, p: int, end: int): (r: Option<int>)
    ensures r.Some? ==> p <= r.value <= end && matches(r.value)
    decreases end + 1 - p
  {
    if end < p then None
    else if matches(p) then Some(p)
    else FirstStart(matches, p + 1, end)
  }

  /** FirstStart skips no start position at which the pattern matches. */
  lemma {:induction false} FirstStartReaches(matches: int -> bool, p: int, end: int, q: int)
    requires p <= q <= end && matches(q)
    ensures FirstStart(matches, p, end).Some? && FirstStart(matches, p, end).value <= q
    decreases end + 1 - p
  {
    if !matches(p) {
      FirstStartReaches(matches, p + 1, end, q);
    }
  }

  /** String.prototype.trimStart. */
  function TrimStart(s: string): (r: string)
    ensures |r| <= |s| && r == s[|s| - |r|..]
    ensures AllIn(s[..|s| - |r|], Space)
    ensures r == [] || !IsSpace(r[0])
    decreases |s|
  {
    if |s| > 0 && IsSpace(s[0]) then
      var r := TrimStart(s[1..]);
      assert s[..|s| - |r|] == [s[0]] + s[1..][..|s| - 1 - |r|];
      r
    else s
  }

  /** String.prototype.trimEnd. */
  function TrimEnd(s: string): (r: string)
    ensures |r| <= |s| && r == s[..|r|]
    ensures AllIn(s[|r|..], Space)
    ensures r == [] || !IsSpace(r[|r| - 1])
    decreases |s|
  {
    if |s| > 0 && IsSpace(s[|s| - 1]) then
      var r := TrimEnd(s[..|s| - 1]);
      assert s[|r|..] == s[..|s| - 1][|r|..] + [s[|s| - 1]];
      r
    else s
  }

  /** String.prototype.trim: the text without its leading and trailing `\s` characters. */
  function Trim(s: string): (r: string)
    ensures r == [] || (!IsSpace(r[0]) && !IsSpace(r[|r| - 1]))
  {
    TrimEnd(TrimStart(s))
  }

  /** Trim is determined by what it must do: whatever surrounds a text that
      neither starts nor ends with `\s` is removed, and nothing else. */
  lemma {:induction false} TrimExact(lead: string, core: string, trail: string)
    requires AllIn(lead, Space) && AllIn(trail, Space)
    requires core == [] || (!IsSpace(core[0]) && !IsSpace(core[|core| - 1]))
    ensures Trim(lead + core + trail) == core
  {
    if core == [] {
      assert lead + core + trail == lead + trail;
      TrimAllSpace(lead, trail);
    } else {
      TrimStartExact(lead, core + trail);
      assert lead + core + trail == lead + (core + trail);
      TrimEndExact(core, trail);
    }
  }

  lemma TrimAllSpace(lead: string, trail: string)
    requires AllIn(lead, Space) && AllIn(trail, Space)
    ensures Trim(lead + trail) == []
  {
    assert AllIn(lead + trail, Space);
  }

  lemma {:induction false} TrimStartExact(lead: string, rest: string)
    requires AllIn(lead, Space)
    requires rest == [] || !IsSpace(rest[0])
    ensures TrimStart(lead + rest) == rest
    decreases |lead|
  {
    if lead != [] {
      assert (lead + rest)[1..] == lead[1..] + rest;
      TrimStartExact(lead[1..], rest);
    }
  }

  lemma {:induction false} TrimEndExact(rest: string, trail: string)
    requires AllIn(trail, Space)
    requires rest == [] || !IsSpace(rest[|rest| - 1])
    ensures TrimEnd(rest + trail) == rest
    decreases |trail|
  {
    if trail != [] {
      assert (rest + trail)[..|rest + trail| - 1] == rest + trail[..|trail| - 1];
      TrimEndExact(rest, trail[..|trail| - 1]);
    } else {
      assert rest + trail == rest;
    }
  }
}
