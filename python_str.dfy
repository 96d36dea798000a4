/**
 The Python `str` operations the bot relies on, as pure functions over
 `seq<char>`: `lower`, the `in` substring test, `replace` and `strip`. Each
 is specified independently of its recursive body, and the lemmas relate
 them to one another. `split`, which the bot never calls, is here only as
 the vocabulary in which the line structure of the help text is stated.
 */
module PyStr {

  /* ---------------------------------------------------------------- lower */

  predicate IsUpper(c: char) {
    'A' <= c <= 'Z'
  }

  /** `str.lower` on one character, restricted to the ASCII letters. */
  function LowerChar(c: char): (r: char)
    ensures !IsUpper(r)
    ensures !IsUpper(c) ==> r == c
    ensures IsUpper(c) ==> r as int == c as int + 32
  {
    if IsUpper(c) then (c as int + 32) as char else c
  }

  /** `str.lower`: every character lowered, the length kept. */
  function Lower(s: string): (r: string)
    ensures |r| == |s|
    ensures forall i :: 0 <= i < |s| ==> r[i] == LowerChar(s[i])
  {
    seq(|s|, i requires 0 <= i < |s| => LowerChar(s[i]))
  }

  /** Lowering twice is lowering once. */
  lemma LowerIdempotent(s: string)
    ensures Lower(Lower(s)) == Lower(s)
  {
    var t := Lower(s);
    assert forall i :: 0 <= i < |t| ==> Lower(t)[i] == t[i];
  }

  /** A string with no upper-case letter is its own lower-case form. */
  lemma LowerNoUpper(s: string)
    requires forall i :: 0 <= i < |s| ==> !IsUpper(s[i])
    ensures Lower(s) == s
  {
  }

  /* ------------------------------------------------------------------ in */

  /** `p` occurs in `s` starting at index `i`. */
  ghost predicate OccursAt(s: string, p: string, i: nat) {
    i + |p| <= |s| && s[i..i + |p|] == p
  }

  lemma OccursAtTail(s: string, p: string, i: nat)
    requires |s| > 0
    ensures OccursAt(s, p, i + 1) <==> OccursAt(s[1..], p, i)
  {
    if i + 1 + |p| <= |s| {
      assert s[1..][i..i + |p|] == s[i + 1..i + 1 + |p|];
    }
  }

  /** Python's `p in s`: true exactly when `p` occurs somewhere in `s`. */
  function Contains(s: string, p: string): (r: bool)
    ensures r <==> exists i: nat :: OccursAt(s, p, i)
    decreases |s|
  {
    if |p| > |s| then
      assert forall i: nat :: !OccursAt(s, p, i);
      false
    else if s[..|p|] == p then
      assert OccursAt(s, p, 0);
      true
    else
      OccurrenceShift(s, p);
      Contains(s[1..], p)
  }

  /** Past a mismatch at index 0, the occurrences in `s` are those in `s[1..]`. */
  lemma OccurrenceShift(s: string, p: string)
    requires |p| <= |s| && s[..|p|] != p
    ensures (exists i: nat :: OccursAt(s, p, i)) <==> (exists i: nat :: OccursAt(s[1..], p, i))
  {
    if exists i: nat :: OccursAt(s[1..], p, i) {
      var i: nat :| OccursAt(s[1..], p, i);
      OccursAtTail(s, p, i);
    }
    if exists i: nat :: OccursAt(s, p, i) {
      var i: nat :| OccursAt(s, p, i);
      assert i > 0;
      OccursAtTail(s, p, i - 1);
    }
  }

  /** A one-character pattern is contained exactly when that character is. */
  lemma ContainsChar(s: string, c: char)
    ensures Contains(s, [c]) <==> c in s
  {
    if c in s {
      var i :| 0 <= i < |s| && s[i] == c;
      assert OccursAt(s, [c], i);
    }
    if Contains(s, [c]) {
      var i: nat :| OccursAt(s, [c], i);
      assert s[i..i + 1][0] == s[i];
    }
  }

  /** A pattern holding a character the text lacks does not occur in it. */
  lemma ContainsNeedsChar(s: string, p: string, c: char)
    requires c in p && c !in s
    ensures !Contains(s, p)
  {
    var j :| 0 <= j < |p| && p[j] == c;
    forall i: nat ensures !OccursAt(s, p, i) {
      if i + |p| <= |s| {
        assert s[i..i + |p|][j] == s[i + j] != c;
      }
    }
  }

  /** An occurrence of `p` in `s` is an occurrence of `Lower(p)` in `Lower(s)`:
      `in`, after lowering both sides, ignores case. */
  lemma ContainsLower(s: string, p: string)
    requires Contains(s, p)
    ensures Contains(Lower(s), Lower(p))
  {
    var i: nat :| OccursAt(s, p, i);
    assert Lower(s)[i..i + |p|] == Lower(p);
    assert OccursAt(Lower(s), Lower(p), i);
  }

  /** Occurrences survive appending on either side. */
  lemma ContainsInfix(a: string, s: string, b: string, p: string)
    requires Contains(s, p)
    ensures Contains(a + s + b, p)
  {
    var i: nat :| OccursAt(s, p, i);
    assert (a + s + b)[|a| + i..|a| + i + |p|] == s[i..i + |p|];
    assert OccursAt(a + s + b, p, |a| + i);
  }

  /* ------------------------------------------------------------- replace */

  /** `s.replace(p, rep)` for a non-empty `p`: scans left to right, swaps each
      occurrence for `rep` and resumes after it, so occurrences never overlap
      and the inserted text is not searched again. */
  function ReplaceAll(s: string, p: string, rep: string): (r: string)
    requires |p| > 0
    ensures |rep| <= |p| ==> |r| <= |s|
    decreases |s|
  {
    if |s| < |p| then s
    else if s[..|p|] == p then rep + ReplaceAll(s[|p|..], p, rep)
    else [s[0]] + ReplaceAll(s[1..], p, rep)
  }

  /** The first occurrence of `p` in `s` is at index `k`. */
  ghost predicate FirstOccurrence(s: string, p: string, k: nat) {
    OccursAt(s, p, k) && forall i: nat :: i < k ==> !OccursAt(s, p, i)
  }

  /** `replace` keeps what precedes the leftmost occurrence, substitutes it,
      and carries on after it. */
  lemma {:induction false} ReplaceAllLeftmost(s: string, p: string, k: nat, rep: string)
    requires |p| > 0
    requires FirstOccurrence(s, p, k)
    ensures ReplaceAll(s, p, rep) == s[..k] + rep + ReplaceAll(s[k + |p|..], p, rep)
    decreases k
  {
    if k == 0 {
      ReplaceAllAtStart(s, p, rep);
    } else {
      var t := ReplaceAll(s[k + |p|..], p, rep);
      ReplaceAllSkip(s, p, rep);
      FirstOccurrenceTail(s, p, k);
      ReplaceAllLeftmost(s[1..], p, k - 1, rep);
      Regroup(s, k, |p|, rep, t);
      calc {
        ReplaceAll(s, p, rep);
        [s[0]] + ReplaceAll(s[1..], p, rep);
        [s[0]] + (s[1..][..k - 1] + rep + t);
        s[..k] + rep + t;
      }
    }
  }

  /** One step of `replace` at an occurrence. */
  lemma ReplaceAllAtStart(s: string, p: string, rep: string)
    requires |p| > 0 && OccursAt(s, p, 0)
    ensures ReplaceAll(s, p, rep) == s[..0] + rep + ReplaceAll(s[|p|..], p, rep)
  {
    assert s[..|p|] == p;
    assert s[..0] + rep == rep;
  }

  /** One step of `replace` past a non-occurrence. */
  lemma ReplaceAllSkip(s: string, p: string, rep: string)
    requires |p| > 0 && |s| > 0 && !OccursAt(s, p, 0)
    ensures ReplaceAll(s, p, rep) == [s[0]] + ReplaceAll(s[1..], p, rep)
  {
    if |s| < |p| {
      assert ReplaceAll(s[1..], p, rep) == s[1..];
      assert [s[0]] + s[1..] == s;
    }
  }

  /** Moving the first character back onto the prefix. */
  lemma Regroup(s: string, k: nat, m: nat, rep: string, tail: string)
    requires 0 < k && k + m <= |s|
    ensures [s[0]] + (s[1..][..k - 1] + rep + tail) == s[..k] + rep + tail
    ensures s[1..][k - 1 + m..] == s[k + m..]
  {
    assert [s[0]] + s[1..][..k - 1] == s[..k];
  }

  lemma FirstOccurrenceTail(s: string, p: string, k: nat)
    requires k > 0 && FirstOccurrence(s, p, k)
    ensures FirstOccurrence(s[1..], p, k - 1)
  {
    assert |s| > 0;
    OccursAtTail(s, p, k - 1);
    forall i: nat | i < k - 1 ensures !OccursAt(s[1..], p, i) {
      OccursAtTail(s, p, i);
    }
  }

  /** Replacing a pattern by itself changes nothing. */
  lemma {:induction false} ReplaceAllSelf(s: string, p: string)
    requires |p| > 0
    ensures ReplaceAll(s, p, p) == s
    decreases |s|
  {
    if |s| < |p| {
    } else if s[..|p|] == p {
      ReplaceAllSelf(s[|p|..], p);
      assert p + s[|p|..] == s;
    } else {
      ReplaceAllSelf(s[1..], p);
      assert [s[0]] + s[1..] == s;
    }
  }

  /** Some occurrence of `p` in `s` is the first one. */
  lemma {:induction false} FirstOccurrenceExists(s: string, p: string, i: nat)
    requires OccursAt(s, p, i)
    ensures exists k: nat :: k <= i && FirstOccurrence(s, p, k)
    decreases i
  {
    if exists j: nat :: j < i && OccursAt(s, p, j) {
      var j: nat :| j < i && OccursAt(s, p, j);
      FirstOccurrenceExists(s, p, j);
    } else {
      assert FirstOccurrence(s, p, i);
    }
  }

  /** Without an occurrence, `replace` returns its input. */
  lemma {:induction false} ReplaceAllAbsent(s: string, p: string, rep: string)
    requires |p| > 0 && !Contains(s, p)
    ensures ReplaceAll(s, p, rep) == s
    decreases |s|
  {
    if |s| >= |p| {
      assert s[..|p|] != p;
      ReplaceAllAbsent(s[1..], p, rep);
      assert [s[0]] + s[1..] == s;
    }
  }

  /** Replacing an occurring pattern by something shorter shortens the text. */
  lemma ReplaceAllShrinks(s: string, p: string, rep: string)
    requires |p| > 0 && |rep| < |p| && Contains(s, p)
    ensures |ReplaceAll(s, p, rep)| < |s|
  {
    var i: nat :| OccursAt(s, p, i);
    FirstOccurrenceExists(s, p, i);
    var k: nat :| k <= i && FirstOccurrence(s, p, k);
    ReplaceAllLeftmost(s, p, k, rep);
  }

  /** `replace` on a text whose first occurrence is right after `a`. */
  lemma ReplaceAllAround(a: string, p: string, b: string, rep: string)
    requires |p| > 0 && !Contains(a + p[..|p| - 1], p)
    ensures ReplaceAll(a + p + b, p, rep) == a + rep + ReplaceAll(b, p, rep)
  {
    var s := a + p + b;
    assert s[..|a| + |p| - 1] == a + p[..|p| - 1];
    assert s[|a|..|a| + |p|] == p;
    FirstWhenPrefixFree(s, p, |a|);
    ReplaceAllLeftmost(s, p, |a|, rep);
    assert s[..|a|] == a && s[|a| + |p|..] == b;
  }

  /* --------------------------------------------------------------- split */

  /** `s.split(p)` for a non-empty `p`: the pieces between the
      non-overlapping occurrences found scanning left to right. The bot
      never splits a string; `split` is the vocabulary in which the line
      structure of its help text is stated. */
  function Split(s: string, p: string): (parts: seq<string>)
    requires |p| > 0
    ensures |parts| >= 1
    decreases |s|
  {
    if |s| < |p| then [s]
    else if s[..|p|] == p then [[]] + Split(s[|p|..], p)
    else
      var rest := Split(s[1..], p);
      [[s[0]] + rest[0]] + rest[1..]
  }

  /** Splitting at the leftmost occurrence: the piece before it, then the
      pieces of what follows it. */
  lemma {:induction false} SplitLeftmost(s: string, p: string, k: nat)
    requires |p| > 0
    requires FirstOccurrence(s, p, k)
    ensures Split(s, p) == [s[..k]] + Split(s[k + |p|..], p)
    decreases k
  {
    if k == 0 {
      assert s[..|p|] == p;
    } else {
      assert !OccursAt(s, p, 0) && |p| <= |s|;
      var rest := Split(s[1..], p);
      assert Split(s, p) == [[s[0]] + rest[0]] + rest[1..];
      FirstOccurrenceTail(s, p, k);
      SplitLeftmost(s[1..], p, k - 1);
      assert s[1..][k - 1 + |p|..] == s[k + |p|..];
      assert [s[0]] + s[1..][..k - 1] == s[..k];
      assert rest[0] == s[1..][..k - 1];
      assert rest[1..] == Split(s[k + |p|..], p);
    }
  }

  /** Splitting at an occurrence with none before it. */
  lemma SplitAround(a: string, p: string, b: string)
    requires |p| > 0 && !Contains(a + p[..|p| - 1], p)
    ensures Split(a + p + b, p) == [a] + Split(b, p)
  {
    var s := a + p + b;
    assert s[..|a| + |p| - 1] == a + p[..|p| - 1];
    assert s[|a|..|a| + |p|] == p;
    FirstWhenPrefixFree(s, p, |a|);
    SplitLeftmost(s, p, |a|);
    assert s[..|a|] == a && s[|a| + |p|..] == b;
  }

  /** The pieces, each followed by `sep`: a text of terminated lines. */
  function Terminate(parts: seq<string>, sep: string): string {
    if |parts| == 0 then [] else parts[0] + sep + Terminate(parts[1..], sep)
  }

  /** Appending one more terminated piece. */
  lemma {:induction false} TerminateSnoc(parts: seq<string>, x: string, sep: string)
    ensures Terminate(parts + [x], sep) == Terminate(parts, sep) + (x + sep)
  {
    if |parts| > 0 {
      assert (parts + [x])[1..] == parts[1..] + [x];
      TerminateSnoc(parts[1..], x, sep);
    }
  }

  /** Seven terminated pieces, written out. */
  lemma TerminateSeven(l0: string, l1: string, l2: string, l3: string, l4: string, l5: string,
                       l6: string, sep: string)
    ensures Terminate([l0, l1, l2, l3, l4, l5, l6], sep)
         == (l0 + sep) + (l1 + sep) + (l2 + sep) + (l3 + sep) + (l4 + sep) + (l5 + sep) + (l6 + sep)
  {
    var s1 := [] + [l0];
    var s2 := s1 + [l1];
    var s3 := s2 + [l2];
    var s4 := s3 + [l3];
    var s5 := s4 + [l4];
    var s6 := s5 + [l5];
    TerminateSnoc([], l0, sep);
    TerminateSnoc(s1, l1, sep);
    TerminateSnoc(s2, l2, sep);
    TerminateSnoc(s3, l3, sep);
    TerminateSnoc(s4, l4, sep);
    TerminateSnoc(s5, l5, sep);
    TerminateSnoc(s6, l6, sep);
    assert s6 + [l6] == [l0, l1, l2, l3, l4, l5, l6];
  }

  /** Splitting terminated pieces that hold no separator gives the pieces
      back, followed by the empty piece after the last separator. */
  lemma {:induction false} SplitTerminate(parts: seq<string>, sep: string)
    requires |sep| > 0
    requires forall i :: 0 <= i < |parts| ==> !Contains(parts[i] + sep[..|sep| - 1], sep)
    ensures Split(Terminate(parts, sep), sep) == parts + [[]]
  {
    if |parts| > 0 {
      var rest := Terminate(parts[1..], sep);
      SplitAround(parts[0], sep, rest);
      SplitTerminate(parts[1..], sep);
      assert parts == [parts[0]] + parts[1..];
    }
  }

  lemma SliceOfPrefix(s: string, n: nat, i: nat, j: nat)
    requires i <= j <= n <= |s|
    ensures s[..n][i..j] == s[i..j]
  {
  }

  /** An occurrence at `k` is the first one when the text before its last
      character holds none. */
  lemma FirstWhenPrefixFree(s: string, p: string, k: nat)
    requires |p| > 0 && OccursAt(s, p, k)
    requires !Contains(s[..k + |p| - 1], p)
    ensures FirstOccurrence(s, p, k)
  {
    var t := s[..k + |p| - 1];
    forall i: nat | i < k ensures !OccursAt(s, p, i) {
      assert !OccursAt(t, p, i);
      SliceOfPrefix(s, k + |p| - 1, i, i + |p|);
    }
  }

  /* --------------------------------------------------------------- strip */

  /** Python's `str.isspace` on one character. */
  predicate IsSpace(c: char) {
    || c == '\t' || c == '\n' || c == '\U{0B}' || c == '\U{0C}' || c == '\r'
    || c == '\U{1C}' || c == '\U{1D}' || c == '\U{1E}' || c == '\U{1F}'
    || c == ' ' || c == '\U{85}' || c == '\U{A0}' || c == '\U{1680}'
    || ('\U{2000}' <= c <= '\U{200A}')
    || c == '\U{2028}' || c == '\U{2029}' || c == '\U{202F}' || c == '\U{205F}'
    || c == '\U{3000}'
  }

  ghost predicate AllSpace(s: string) {
    forall k :: 0 <= k < |s| ==> IsSpace(s[k])
  }

  /** Neither end of `s` is whitespace (vacuously when `s` is empty). */
  ghost predicate Trimmed(s: string) {
    s == [] || (!IsSpace(s[0]) && !IsSpace(s[|s| - 1]))
  }

  /** `s` is `m` preceded by `i` whitespace characters and followed by
      whitespace only. */
  ghost predicate Padded(s: string, i: nat, m: string) {
    i + |m| <= |s| && s[i..i + |m|] == m && AllSpace(s[..i]) && AllSpace(s[i + |m|..])
  }

  /** The length of the whitespace run at the front of `s`. */
  function LeadingSpace(s: string): (n: nat)
    ensures n <= |s|
    ensures AllSpace(s[..n])
    ensures n == |s| || !IsSpace(s[n])
  {
    if s != [] && IsSpace(s[0]) then
      var m := LeadingSpace(s[1..]);
      assert s[..m + 1] == [s[0]] + s[1..][..m];
      m + 1
    else 0
  }

  /** The length of the whitespace run at the back of `s`. */
  function TrailingSpace(s: string): (n: nat)
    ensures n <= |s|
    ensures AllSpace(s[|s| - n..])
    ensures n == |s| || !IsSpace(s[|s| - n - 1])
  {
    if s != [] && IsSpace(s[|s| - 1]) then
      var m := TrailingSpace(s[..|s| - 1]);
      TrailingRunGrows(s, s[..|s| - 1], m);
      m + 1
    else 0
  }

  /** A whitespace run at the back of `s` minus its last character, followed
      by a whitespace last character, is a run one longer. */
  lemma TrailingRunGrows(s: string, t: string, m: nat)
    requires |s| > 0 && t == s[..|s| - 1] && m <= |t|
    requires AllSpace(t[|t| - m..]) && IsSpace(s[|s| - 1])
    ensures AllSpace(s[|s| - (m + 1)..])
    ensures m < |t| ==> s[|s| - (m + 1) - 1] == t[|t| - m - 1]
  {
    var u := s[|s| - (m + 1)..];
    var v := t[|t| - m..];
    forall k | 0 <= k < |u| ensures IsSpace(u[k]) {
      if k < m { assert u[k] == v[k]; }
    }
  }

  /** `str.strip()` with no argument: `s` without its leading and trailing
      whitespace. The result is the middle of a split of `s` into
      whitespace, trimmed text and whitespace. */
  function Strip(s: string): (r: string)
    ensures Trimmed(r)
    ensures exists i: nat :: Padded(s, i, r)
    ensures r == [] <==> AllSpace(s)
  {
    var a := LeadingSpace(s);
    var b := TrailingSpace(s[a..]);
    SpaceRunsOf(s, s[a..], a, b);
    StripParts(s, a, b);
    s[a..|s| - b]
  }

  lemma AllSpaceConcat(x: string, y: string)
    requires AllSpace(x) && AllSpace(y)
    ensures AllSpace(x + y)
  {
    forall k | 0 <= k < |x + y| ensures IsSpace((x + y)[k]) {
      if k >= |x| { assert (x + y)[k] == y[k - |x|]; }
    }
  }

  /** `a` and `b` are the lengths of the leading and the trailing
      whitespace runs of `s`, as `LeadingSpace` and `TrailingSpace` promise. */
  ghost predicate SpaceRuns(s: string, a: nat, b: nat) {
    && a + b <= |s| && AllSpace(s[..a]) && AllSpace(s[|s| - b..])
    && (a == |s| || !IsSpace(s[a]))
    && (a + b == |s| || !IsSpace(s[|s| - b - 1]))
  }

  lemma SpaceRunsOf(s: string, t: string, a: nat, b: nat)
    requires a <= |s| && t == s[a..]
    requires AllSpace(s[..a]) && (a == |s| || !IsSpace(s[a]))
    requires b <= |t| && AllSpace(t[|t| - b..]) && (b == |t| || !IsSpace(t[|t| - b - 1]))
    ensures SpaceRuns(s, a, b)
  {
    var u := s[|s| - b..];
    forall k | 0 <= k < b ensures IsSpace(u[k]) {
      assert u[k] == t[|t| - b..][k];
    }
    if a + b < |s| {
      assert s[|s| - b - 1] == t[|t| - b - 1];
    }
  }

  /** What `Strip` needs of its two whitespace runs. */
  lemma StripParts(s: string, a: nat, b: nat)
    requires SpaceRuns(s, a, b)
    ensures var r := s[a..|s| - b];
      && Trimmed(r)
      && Padded(s, a, r)
      && (r == [] <==> AllSpace(s))
  {
    StripTrimmed(s, a, b);
    StripPadded(s, a, b);
    StripEmpty(s, a, b);
  }

  lemma StripTrimmed(s: string, a: nat, b: nat)
    requires SpaceRuns(s, a, b)
    ensures Trimmed(s[a..|s| - b])
  {
    var r := s[a..|s| - b];
    if r != [] {
      assert r[0] == s[a];
      assert r[|r| - 1] == s[|s| - b - 1];
    }
  }

  lemma StripPadded(s: string, a: nat, b: nat)
    requires SpaceRuns(s, a, b)
    ensures Padded(s, a, s[a..|s| - b])
  {
    var r := s[a..|s| - b];
    assert a + |r| == |s| - b;
  }

  lemma StripEmpty(s: string, a: nat, b: nat)
    requires SpaceRuns(s, a, b)
    ensures s[a..|s| - b] == [] <==> AllSpace(s)
  {
    if a + b < |s| {
      assert !IsSpace(s[a]);
    } else {
      assert s == s[..a] + s[|s| - b..];
      AllSpaceConcat(s[..a], s[|s| - b..]);
    }
  }

  /** A whitespace run followed by text that starts with a non-space. */
  lemma {:induction false} LeadingSpaceOf(w: string, m: string)
    requires AllSpace(w) && m != [] && !IsSpace(m[0])
    ensures LeadingSpace(w + m) == |w|
    decreases |w|
  {
    if w != [] {
      assert (w + m)[0] == w[0];
      assert (w + m)[1..] == w[1..] + m;
      LeadingSpaceOf(w[1..], m);
    } else {
      assert w + m == m;
    }
  }

  /** Text that ends with a non-space followed by a whitespace run. */
  lemma {:induction false} TrailingSpaceOf(m: string, w: string)
    requires AllSpace(w) && m != [] && !IsSpace(m[|m| - 1])
    ensures TrailingSpace(m + w) == |w|
    decreases |w|
  {
    var s := m + w;
    if w != [] {
      assert s[|s| - 1] == w[|w| - 1];
      assert s[..|s| - 1] == m + w[..|w| - 1];
      TrailingSpaceOf(m, w[..|w| - 1]);
    } else {
      assert s == m;
    }
  }

  /** The split of `strip`'s contract is unique: whatever whitespace
      surrounds a trimmed string, `strip` returns that string. */
  lemma StripUnique(w1: string, m: string, w2: string)
    requires AllSpace(w1) && AllSpace(w2) && Trimmed(m)
    ensures Strip(w1 + m + w2) == m
  {
    var s := w1 + m + w2;
    if m == [] {
      AllSpaceConcat(w1, w2);
      assert s == w1 + w2;
    } else {
      assert s == w1 + (m + w2);
      LeadingSpaceOf(w1, m + w2);
      assert s[|w1|..] == m + w2;
      TrailingSpaceOf(m, w2);
      assert s[|w1|..|s| - |w2|] == m;
    }
  }

  /** Stripping twice is stripping once. */
  lemma StripIdempotent(s: string)
    ensures Strip(Strip(s)) == Strip(s)
  {
    StripUnique([], Strip(s), []);
    assert [] + Strip(s) + [] == Strip(s);
  }
}
