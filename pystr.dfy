/**
 * The Python `str` built-ins the application relies on, over sequences of
 * code points: `sub in s`, `s.split(sep)`, `s.replace(pat, rep)`,
 * `s.strip()`, `s.strip(chars)` and the slice `s[:n]`.
 */
module PyStr {
  import opened Wrappers

  type String = seq<char>

  const Newline: String := "\n"

  /** The code points for which Python's `str.isspace()` holds; `str.strip()`
      with no argument removes exactly these from both ends. */
  const Whitespace: set<char> := {
    '\t', '\n', '\U{0B}', '\U{0C}', '\r', '\U{1C}', '\U{1D}', '\U{1E}', '\U{1F}',
    ' ', '\U{85}', '\U{A0}', '\U{1680}',
    '\U{2000}', '\U{2001}', '\U{2002}', '\U{2003}', '\U{2004}', '\U{2005}',
    '\U{2006}', '\U{2007}', '\U{2008}', '\U{2009}', '\U{200A}',
    '\U{2028}', '\U{2029}', '\U{202F}', '\U{205F}', '\U{3000}'
  }

  // ---------------------------------------------------------------------
  // Substring search: `sub in s` and `s.find(sub)`
  // ---------------------------------------------------------------------

  /** `sub` occurs in `s` starting at position `k`. */
  predicate OccursAt(s: String, sub: String, k: int) {
    0 <= k && k + |sub| <= |s| && s[k..k + |sub|] == sub
  }

  /** `k` is the leftmost position at which `sub` occurs in `s`. */
  predicate FirstOccurrence(s: String, sub: String, k: int) {
    OccursAt(s, sub, k) && forall l :: 0 <= l < k ==> !OccursAt(s, sub, l)
  }

  /** The leftmost occurrence of `sub` at or after `from`, scanning left to right. */
  function FindFrom(s: String, sub: String, from: nat): (r: Option<nat>)
    ensures r.Some? ==> from <= r.value && OccursAt(s, sub, r.value)
    ensures r.Some? ==> forall l :: from <= l < r.value ==> !OccursAt(s, sub, l)
    ensures r.None? ==> forall l :: from <= l ==> !OccursAt(s, sub, l)
    decreases |s| - from
  {
    if from + |sub| > |s| then None
    else if s[from..from + |sub|] == sub then Some(from)
    else FindFrom(s, sub, from + 1)
  }

  /** Python's `s.find(sub)`, with "not found" as `None`. */
  function Find(s: String, sub: String): (r: Option<nat>)
    ensures r.Some? ==> FirstOccurrence(s, sub, r.value)
    ensures r.None? ==> forall l :: !OccursAt(s, sub, l)
  {
    FindFrom(s, sub, 0)
  }

  /** Python's `sub in s`. */
  predicate Contains(s: String, sub: String)
    ensures Contains(s, sub) <==> exists k :: OccursAt(s, sub, k)
  {
    Find(s, sub).Some?
  }

  /** The leftmost occurrence is unique, so `Find` returns it. */
  lemma FindIsFirst(s: String, sub: String, k: int)
    requires FirstOccurrence(s, sub, k)
    ensures Find(s, sub) == Some(k)
  {
  }

  /** A substring of a substring is a substring: whatever occurs in `mid`
      occurs in every string that contains `mid`. */
  lemma ContainsTransitive(s: String, mid: String, sub: String)
    requires Contains(s, mid) && Contains(mid, sub)
    ensures Contains(s, sub)
  {
    var i := Find(s, mid).value;
    var j := Find(mid, sub).value;
    assert s[i..i + |mid|] == mid && mid[j..j + |sub|] == sub;
    forall k | 0 <= k < |sub|
      ensures s[i + j + k] == sub[k]
    {
      assert mid[j + k] == sub[k];
      assert s[i + (j + k)] == mid[j + k];
    }
    assert s[i + j..i + j + |sub|] == sub;
    assert OccursAt(s, sub, i + j);
  }

  /** For a one-character needle, an occurrence is just that character. */
  lemma OccursAtChar(s: String, c: char, k: int)
    requires 0 <= k < |s|
    ensures OccursAt(s, [c], k) <==> s[k] == c
  {
  }

  // ---------------------------------------------------------------------
  // `s.split(sep)` and its inverse `sep.join(parts)`
  // ---------------------------------------------------------------------

  /** Python's `s.split(sep)` for a non-empty separator: the pieces between
      the non-overlapping occurrences of `sep`, found left to right. */
  function Split(s: String, sep: String): (parts: seq<String>)
    requires sep != []
    ensures |parts| >= 1
    decreases |s|
  {
    match Find(s, sep)
    case None => [s]
    case Some(i) => [s[..i]] + Split(s[i + |sep|..], sep)
  }

  /** A split yields more than one piece exactly when the separator occurs. */
  lemma SplitCount(s: String, sep: String)
    requires sep != []
    ensures |Split(s, sep)| >= 2 <==> Contains(s, sep)
  {
  }

  /** Python's `sep.join(parts)`. */
  function Join(parts: seq<String>, sep: String): String
  {
    if |parts| == 0 then []
    else if |parts| == 1 then parts[0]
    else parts[0] + sep + Join(parts[1..], sep)
  }

  /** Splitting loses nothing: joining the pieces with the separator gives
      back the original string. */
  lemma {:induction false} JoinSplit(s: String, sep: String)
    requires sep != []
    ensures Join(Split(s, sep), sep) == s
    decreases |s|
  {
    if Find(s, sep).Some? {
      var i := Find(s, sep).value;
      var head, rest := s[..i], s[i + |sep|..];
      var tail := Split(rest, sep);
      JoinSplit(rest, sep);
      JoinCons(head, tail, sep);
      assert s[i..i + |sep|] == sep;
      calc {
        Join(Split(s, sep), sep);
        Join([head] + tail, sep);
        head + sep + Join(tail, sep);
        head + sep + rest;
        { assert s == s[..i] + s[i..i + |sep|] + rest; }
        s;
      }
    }
  }

  lemma JoinCons(a: String, rest: seq<String>, sep: String)
    requires |rest| >= 1
    ensures Join([a] + rest, sep) == a + sep + Join(rest, sep)
  {
  }

  /** No piece of a split contains the separator. */
  lemma {:induction false} SplitPiecesAreFree(s: String, sep: String)
    requires sep != []
    ensures forall k :: 0 <= k < |Split(s, sep)| ==> !Contains(Split(s, sep)[k], sep)
    decreases |s|
  {
    match Find(s, sep)
    case None =>
    case Some(i) =>
      var rest := s[i + |sep|..];
      SplitPiecesAreFree(rest, sep);
      PrefixBeforeFirstIsFree(s, sep, i);
      assert Split(s, sep) == [s[..i]] + Split(rest, sep);
  }

  /** The text before the leftmost occurrence holds no occurrence. */
  lemma PrefixBeforeFirstIsFree(s: String, sep: String, i: int)
    requires sep != [] && FirstOccurrence(s, sep, i)
    ensures !Contains(s[..i], sep)
  {
    forall k | 0 <= k && k + |sep| <= i
      ensures !OccursAt(s[..i], sep, k)
    {
      assert s[..i][k..k + |sep|] == s[k..k + |sep|];
      assert !OccursAt(s, sep, k);
    }
  }

  /** The first piece of `s.split(sep)` is the text before the leftmost
      `sep`, or all of `s` when there is none. */
  lemma FirstPiece(s: String, sep: String) returns (n: nat)
    requires sep != []
    ensures n <= |s| && Split(s, sep)[0] == s[..n]
    ensures n == |s| || FirstOccurrence(s, sep, n)
    ensures n == |s| ==> !Contains(s, sep)
    ensures forall l :: 0 <= l < n ==> !OccursAt(s, sep, l)
  {
    match Find(s, sep)
    case None => n := |s|;
    case Some(i) => n := i;
  }

  /** Splitting at the leftmost occurrence: the text before it, then the
      pieces of the rest. */
  lemma SplitAtFirst(s: String, sep: String, i: int)
    requires sep != [] && FirstOccurrence(s, sep, i)
    ensures Split(s, sep) == [s[..i]] + Split(s[i + |sep|..], sep)
  {
    FindIsFirst(s, sep, i);
  }

  /** Piece 1 of a split is piece 0 of the split of what follows the leftmost
      separator. */
  lemma SplitSecondIsFirstOfRest(s: String, sep: String, i: int)
    requires sep != [] && FirstOccurrence(s, sep, i)
    ensures |Split(s, sep)| >= 2
    ensures Split(s, sep)[1] == Split(s[i + |sep|..], sep)[0]
  {
    SplitAtFirst(s, sep, i);
  }

  /** `s.split(sep)[1]` is the text between the first and the second `sep`
      (or the end of `s`). */
  lemma SecondPiece(s: String, sep: String, i: int) returns (n: nat)
    requires sep != [] && FirstOccurrence(s, sep, i)
    ensures |Split(s, sep)| >= 2
    ensures i + |sep| + n <= |s|
    ensures Split(s, sep)[1] == s[i + |sep|..i + |sep| + n]
    ensures forall l :: i + |sep| <= l < i + |sep| + n ==> !OccursAt(s, sep, l)
    ensures i + |sep| + n == |s| || OccursAt(s, sep, i + |sep| + n)
  {
    SplitSecondIsFirstOfRest(s, sep, i);
    n := PieceFrom(s, sep, i + |sep|);
  }

  /** Piece 0 of the split of `s[d..]`, placed in `s`: it runs from `d` to the
      next `sep` or the end. */
  lemma PieceFrom(s: String, sep: String, d: int) returns (n: nat)
    requires sep != [] && 0 <= d <= |s|
    ensures d + n <= |s|
    ensures Split(s[d..], sep)[0] == s[d..d + n]
    ensures forall l :: d <= l < d + n ==> !OccursAt(s, sep, l)
    ensures d + n == |s| || OccursAt(s, sep, d + n)
  {
    var rest := s[d..];
    n := FirstPiece(rest, sep);
    assert rest[..n] == s[d..d + n];
    FreeRunShift(s, sep, d, n);
  }

  /** A run free of `sep` at the start of `s[d..]`, ended by `sep` or by the
      end, is a run free of `sep` in `s` from `d` on. */
  lemma FreeRunShift(s: String, sep: String, d: int, n: int)
    requires 0 <= d <= |s| && 0 <= n && d + n <= |s|
    requires forall l :: 0 <= l < n ==> !OccursAt(s[d..], sep, l)
    requires d + n == |s| || OccursAt(s[d..], sep, n)
    ensures forall l :: d <= l < d + n ==> !OccursAt(s, sep, l)
    ensures d + n == |s| || OccursAt(s, sep, d + n)
  {
    forall l | d <= l < d + n
      ensures !OccursAt(s, sep, l)
    {
      assert !OccursAt(s[d..], sep, l - d);
      OccursShift(s, sep, d, l - d);
    }
    if d + n < |s| {
      OccursShift(s, sep, d, n);
    }
  }

  /** An occurrence in a suffix is an occurrence in the whole string, shifted. */
  lemma OccursShift(s: String, sub: String, d: int, l: int)
    requires 0 <= d <= |s| && 0 <= l
    ensures OccursAt(s[d..], sub, l) <==> OccursAt(s, sub, d + l)
  {
  }

  // ---------------------------------------------------------------------
  // `s.replace(pat, rep)`
  // ---------------------------------------------------------------------

  /** Python's `s.replace(pat, rep)` for a non-empty pattern: every
      non-overlapping occurrence, found left to right, is replaced. */
  function Replace(s: String, pat: String, rep: String): (r: String)
    requires pat != []
    ensures |rep| <= |pat| ==> |r| <= |s|
    ensures |rep| >= |pat| ==> |r| >= |s|
    decreases |s|
  {
    match Find(s, pat)
    case None => s
    case Some(i) => s[..i] + rep + Replace(s[i + |pat|..], pat, rep)
  }

  /** A string without the pattern is left unchanged. */
  lemma ReplaceAbsent(s: String, pat: String, rep: String)
    requires pat != [] && !Contains(s, pat)
    ensures Replace(s, pat, rep) == s
  {
    assert Find(s, pat) == None;
  }

  /** Replacing is splitting on the pattern and joining with the replacement,
      as Python documents it. */
  lemma {:induction false} ReplaceIsJoinOfSplit(s: String, pat: String, rep: String)
    requires pat != []
    ensures Replace(s, pat, rep) == Join(Split(s, pat), rep)
    decreases |s|
  {
    match Find(s, pat)
    case None =>
    case Some(i) =>
      var head, rest := s[..i], s[i + |pat|..];
      var tail := Split(rest, pat);
      ReplaceIsJoinOfSplit(rest, pat, rep);
      JoinCons(head, tail, rep);
      calc {
        Replace(s, pat, rep);
        head + rep + Replace(rest, pat, rep);
        head + rep + Join(tail, rep);
        Join([head] + tail, rep);
        Join(Split(s, pat), rep);
      }
  }

  // ---------------------------------------------------------------------
  // `s.strip(chars)` and `s.strip()`
  // ---------------------------------------------------------------------

  /** Drops leading characters that are in `cs`. */
  function LStrip(s: String, cs: set<char>): String
    decreases |s|
  {
    if s != [] && s[0] in cs then LStrip(s[1..], cs) else s
  }

  /** Drops trailing characters that are in `cs`. */
  function RStrip(s: String, cs: set<char>): String
    decreases |s|
  {
    if s != [] && s[|s| - 1] in cs then RStrip(s[..|s| - 1], cs) else s
  }

  /** Python's `s.strip(chars)`, with `chars` as the set `cs`: it keeps
      exactly the window between the first and the last character outside
      `chars`. */
  function StripChars(s: String, cs: set<char>): (r: String)
    ensures exists i, j :: StripWindow(s, cs, i, j) && r == s[i..j]
  {
    BothEndsWindow(s, cs);
    RStrip(LStrip(s, cs), cs)
  }

  /** Stripping the left end and then the right end leaves a `StripWindow`. */
  lemma BothEndsWindow(s: String, cs: set<char>)
    ensures exists i, j :: StripWindow(s, cs, i, j) && RStrip(LStrip(s, cs), cs) == s[i..j]
  {
    var i := LStripSpec(s, cs);
    var t := s[i..];
    var j := RStripSpec(t, cs);
    assert t[..j] == s[i..i + j];
    assert StripWindow(s, cs, i, i + j);
  }

  /** Python's `s.strip()`: the window of `s` between its first and last
      character that is not whitespace. */
  function Strip(s: String): (r: String)
    ensures Trimmed(r)
    ensures exists i, j :: StripWindow(s, Whitespace, i, j) && r == s[i..j]
  {
    StripChars(s, Whitespace)
  }

  /** `s` neither starts nor ends with whitespace; `s.strip()` leaves it alone. */
  predicate Trimmed(s: String) {
    s == [] || (s[0] !in Whitespace && s[|s| - 1] !in Whitespace)
  }

  /** `s[i..j]` is what is left of `s` once the characters of `cs` are taken
      off both ends: everything outside the window is in `cs`, and a
      non-empty window starts and ends with a character outside `cs`. */
  predicate StripWindow(s: String, cs: set<char>, i: int, j: int) {
    && 0 <= i <= j <= |s|
    && (forall k :: 0 <= k < i ==> s[k] in cs)
    && (forall k :: j <= k < |s| ==> s[k] in cs)
    && (i < j ==> s[i] !in cs && s[j - 1] !in cs)
  }

  lemma {:induction false} LStripSpec(s: String, cs: set<char>) returns (i: nat)
    ensures i <= |s| && LStrip(s, cs) == s[i..]
    ensures forall k :: 0 <= k < i ==> s[k] in cs
    ensures i < |s| ==> s[i] !in cs
    decreases |s|
  {
    if s != [] && s[0] in cs {
      var i' := LStripSpec(s[1..], cs);
      i := i' + 1;
      assert s[1..][i'..] == s[i..];
    } else {
      i := 0;
    }
  }

  lemma {:induction false} RStripSpec(s: String, cs: set<char>) returns (j: nat)
    ensures j <= |s| && RStrip(s, cs) == s[..j]
    ensures forall k :: j <= k < |s| ==> s[k] in cs
    ensures 0 < j ==> s[j - 1] !in cs
    decreases |s|
  {
    if s != [] && s[|s| - 1] in cs {
      j := RStripSpec(s[..|s| - 1], cs);
      assert s[..|s| - 1][..j] == s[..j];
    } else {
      j := |s|;
    }
  }

  /** A stripped string is empty exactly when every character is in the set. */
  lemma StripCharsEmpty(s: String, cs: set<char>)
    ensures StripChars(s, cs) == [] <==> forall k :: 0 <= k < |s| ==> s[k] in cs
  {
    var r := StripChars(s, cs);
    var i, j :| StripWindow(s, cs, i, j) && r == s[i..j];
    if StripChars(s, cs) != [] {
      assert i < j && s[i] !in cs;
    }
  }

  /** Stripping twice strips nothing more. */
  lemma StripCharsIdempotent(s: String, cs: set<char>)
    ensures StripChars(StripChars(s, cs), cs) == StripChars(s, cs)
  {
    var r := StripChars(s, cs);
    var i, j :| StripWindow(s, cs, i, j) && r == s[i..j];
    var t := s[i..j];
    if t != [] {
      assert t[0] !in cs && t[|t| - 1] !in cs;
      assert LStrip(t, cs) == t;
    }
  }

  // ---------------------------------------------------------------------
  // The slice `s[:n]`
  // ---------------------------------------------------------------------

  /** Python's `s[:n]` for `n >= 0`: the first `n` characters, or all of `s`
      when it is shorter. */
  function Truncate(s: String, n: nat): (r: String)
    ensures |r| <= n && |r| <= |s| && r == s[..|r|]
    ensures |s| <= n ==> r == s
    ensures n < |s| ==> |r| == n
  {
    if |s| <= n then s else s[..n]
  }
}
