/** String helpers shared by every revision of the extension: the few
    JavaScript string operations the classifier, the aggregator and the
    command synthesizer rely on, written as total functions over `string`
    (a `seq<char>`). Lower-casing is ASCII-only. */
module Text {

  // ---------------------------------------------------------------------
  // Case

  predicate IsAsciiUpper(c: char) {
    'A' <= c <= 'Z'
  }

  /** `String.prototype.toLowerCase` restricted to ASCII letters. */
  function LowerChar(c: char): (r: char)
    ensures !IsAsciiUpper(r)
    ensures !IsAsciiUpper(c) ==> r == c
  {
    if IsAsciiUpper(c) then (c as int + 32) as char else c
  }

  function Lower(s: string): (r: string)
    ensures |r| == |s|
    ensures forall i :: 0 <= i < |s| ==> r[i] == LowerChar(s[i])
  {
    if s == [] then [] else [LowerChar(s[0])] + Lower(s[1..])
  }

  /** A string with no upper-case ASCII letter is its own lower-case form. */
  predicate IsLower(s: string) {
    forall i :: 0 <= i < |s| ==> !IsAsciiUpper(s[i])
  }

  lemma LowerIsLower(s: string)
    ensures IsLower(Lower(s))
    ensures Lower(Lower(s)) == Lower(s)
  {
  }

  lemma LowerOfLower(s: string)
    requires IsLower(s)
    ensures Lower(s) == s
  {
  }

  // ---------------------------------------------------------------------
  // Substrings

  predicate ContainsAt(s: string, t: string, i: int) {
    0 <= i && i + |t| <= |s| && s[i..i + |t|] == t
  }

  /** `s.includes(t)`. */
  predicate Contains(s: string, t: string) {
    exists i :: 0 <= i <= |s| - |t| && ContainsAt(s, t, i)
  }

  /** `s.startsWith(p)`. */
  predicate StartsWith(s: string, p: string) {
    p <= s
  }

  lemma ContainsEmpty(s: string)
    ensures Contains(s, [])
  {
    assert ContainsAt(s, [], 0);
  }

  lemma ContainsSelf(s: string)
    ensures Contains(s, s)
  {
    assert ContainsAt(s, s, 0);
  }

  /** Every character of a substring occurs in the enclosing string. */
  lemma ContainsChars(s: string, t: string, c: char)
    requires Contains(s, t)
    requires c in t
    ensures c in s
  {
    var i :| 0 <= i <= |s| - |t| && ContainsAt(s, t, i);
    var k :| 0 <= k < |t| && t[k] == c;
    assert s[i..i + |t|][k] == s[i + k];
  }

  lemma ContainsSingle(s: string, c: char)
    ensures Contains(s, [c]) <==> c in s
  {
    if c in s {
      var k :| 0 <= k < |s| && s[k] == c;
      assert ContainsAt(s, [c], k);
    }
    if Contains(s, [c]) {
      ContainsChars(s, [c], c);
    }
  }

  lemma ContainsInfix(a: string, t: string, b: string)
    ensures Contains(a + t + b, t)
  {
    assert (a + t + b)[|a|..|a| + |t|] == t;
    assert ContainsAt(a + t + b, t, |a|);
  }

  /** First index `>= from` at which `t` occurs, or -1 (`s.indexOf(t, from)`
      for a non-negative `from`). */
  /** Text found in a part is found in the whole. */
  lemma ContainsInLeft(a: string, b: string, t: string)
    requires Contains(a, t)
    ensures Contains(a + b, t)
  {
    var i :| 0 <= i <= |a| - |t| && ContainsAt(a, t, i);
    assert (a + b)[i..i + |t|] == a[i..i + |t|];
    assert ContainsAt(a + b, t, i);
  }

  lemma ContainsInRight(a: string, b: string, t: string)
    requires Contains(b, t)
    ensures Contains(a + b, t)
  {
    var i :| 0 <= i <= |b| - |t| && ContainsAt(b, t, i);
    assert (a + b)[|a| + i..|a| + i + |t|] == b[i..i + |t|];
    assert ContainsAt(a + b, t, |a| + i);
  }

  function IndexFrom(s: string, t: string, from: nat): (r: int)
    ensures r == -1 || (from <= r && ContainsAt(s, t, r))
    ensures r == -1 ==> forall j :: from <= j ==> !ContainsAt(s, t, j)
    ensures r != -1 ==> forall j :: from <= j < r ==> !ContainsAt(s, t, j)
    decreases |s| - from
  {
    if from + |t| > |s| then -1
    else if s[from..from + |t|] == t then from
    else IndexFrom(s, t, from + 1)
  }

  /** `s.indexOf(t)`. */
  function IndexOf(s: string, t: string): (r: int)
    ensures r == -1 <==> !Contains(s, t)
    ensures r != -1 ==> ContainsAt(s, t, r) && forall j :: 0 <= j < r ==> !ContainsAt(s, t, j)
  {
    IndexFrom(s, t, 0)
  }

  /** Largest index `<= at` at which `t` occurs, or -1. */
  function LastIndexAtOrBefore(s: string, t: string, at: int): (r: int)
    ensures r == -1 || (r <= at && ContainsAt(s, t, r))
    ensures r == -1 ==> forall j :: j <= at ==> !ContainsAt(s, t, j)
    ensures r != -1 ==> forall j :: r < j <= at ==> !ContainsAt(s, t, j)
    decreases at + 1
  {
    if at < 0 then -1
    else if ContainsAt(s, t, at) then at
    else LastIndexAtOrBefore(s, t, at - 1)
  }

  /** `s.lastIndexOf(t, from)`: the search starts at `from` clamped to
      `[0, |s|]` and runs towards the front. */
  function LastIndexOfFrom(s: string, t: string, from: int): (r: int)
    ensures r == -1 || (0 <= r <= |s| && ContainsAt(s, t, r))
  {
    LastIndexAtOrBefore(s, t, if from < 0 then 0 else if from > |s| then |s| else from)
  }

  /** `s.lastIndexOf(t)`. */
  function LastIndexOf(s: string, t: string): (r: int)
    ensures r == -1 <==> !Contains(s, t)
    ensures r != -1 ==> ContainsAt(s, t, r) && forall j :: r < j ==> !ContainsAt(s, t, j)
  {
    LastIndexAtOrBefore(s, t, |s|)
  }

  /** An occurrence with no later position holding the pattern's first
      character is the last one at or before `at`. */
  lemma LastIndexAtOrBeforeIs(s: string, t: string, at: int, k: int)
    requires |t| > 0 && ContainsAt(s, t, k) && k <= at
    requires forall j :: k < j <= at && j < |s| ==> s[j] != t[0]
    ensures LastIndexAtOrBefore(s, t, at) == k
  {
    var r := LastIndexAtOrBefore(s, t, at);
    if r != k {
      assert k <= r;
      ContainsAtFirst(s, t, r);
    }
  }

  /** The same for `lastIndexOf` over the whole string. */
  lemma LastIndexOfIs(s: string, t: string, k: int)
    requires |t| > 0 && ContainsAt(s, t, k)
    requires forall j :: k < j < |s| ==> s[j] != t[0]
    ensures LastIndexOf(s, t) == k
  {
    LastIndexAtOrBeforeIs(s, t, |s|, k);
  }

  lemma ContainsAtChar(s: string, c: char, i: int)
    ensures ContainsAt(s, [c], i) <==> 0 <= i < |s| && s[i] == c
  {
    if 0 <= i < |s| {
      assert s[i..i + 1] == [s[i]];
    }
  }

  /** `s.lastIndexOf(c)` for one character: -1 exactly when `c` is absent,
      otherwise a position of `c` with no `c` after it. */
  lemma LastIndexOfChar(s: string, c: char)
    ensures LastIndexOf(s, [c]) == -1 <==> c !in s
    ensures LastIndexOf(s, [c]) != -1 ==>
      var k := LastIndexOf(s, [c]);
      0 <= k < |s| && s[k] == c && c !in s[k + 1..]
  {
    ContainsSingle(s, c);
    var k := LastIndexOf(s, [c]);
    if k != -1 {
      ContainsAtChar(s, c, k);
      forall j | k < j < |s|
        ensures s[j] != c
      {
        ContainsAtChar(s, c, j);
      }
    }
  }

  /** `s.indexOf(c)` for one character. */
  lemma IndexOfChar(s: string, c: char)
    ensures IndexOf(s, [c]) == -1 <==> c !in s
    ensures IndexOf(s, [c]) != -1 ==>
      var k := IndexOf(s, [c]);
      0 <= k < |s| && s[k] == c && c !in s[..k]
  {
    ContainsSingle(s, c);
    var k := IndexOf(s, [c]);
    if k != -1 {
      ContainsAtChar(s, c, k);
      forall j | 0 <= j < k
        ensures s[j] != c
      {
        ContainsAtChar(s, c, j);
      }
    }
  }

  // ---------------------------------------------------------------------
  // Slicing

  /** Clamps a `String.prototype.slice` argument into `[0, len]`; negative
      arguments count from the end. */
  function SliceBound(k: int, len: nat): (r: nat)
    ensures r <= len
    ensures 0 <= k <= len ==> r == k
  {
    if k < 0 then (if len + k < 0 then 0 else len + k)
    else if k > len then len
    else k
  }

  /** `s.slice(start, end)` (ECMA-262 6th edition, section 21.1.3.16). */
  function JsSlice(s: string, start: int, end: int): (r: string)
    ensures 0 <= start <= end <= |s| ==> r == s[start..end]
    ensures |r| <= |s|
  {
    var from := SliceBound(start, |s|);
    var to := SliceBound(end, |s|);
    if from < to then s[from..to] else []
  }

  /** `s.slice(s.lastIndexOf(c) + 1)`: the text after the last `c`, or all
      of `s` when there is none. */
  function AfterLast(s: string, c: char): (r: string)
    ensures |r| <= |s| && c !in r && r == s[|s| - |r|..]
  {
    LastIndexOfChar(s, c);
    JsSlice(s, LastIndexOf(s, [c]) + 1, |s|)
  }

  /** `s.slice(0, s.lastIndexOf(c) === -1 ? s.length : s.lastIndexOf(c))`:
      the text before the last `c`, or all of `s` when there is none. */
  function BeforeLast(s: string, c: char): (r: string)
    ensures r <= s
    ensures c !in s ==> r == s
  {
    LastIndexOfChar(s, c);
    var k := LastIndexOf(s, [c]);
    JsSlice(s, 0, if k == -1 then |s| else k)
  }

  lemma AfterLastAt(a: string, b: string, c: char)
    requires c !in b
    ensures AfterLast(a + [c] + b, c) == b
  {
    LastIndexOfCharAt(a, b, c);
    assert (a + [c] + b)[|a| + 1..] == b;
  }

  lemma BeforeLastAt(a: string, b: string, c: char)
    requires c !in b
    ensures BeforeLast(a + [c] + b, c) == a
  {
    LastIndexOfCharAt(a, b, c);
    assert (a + [c] + b)[..|a|] == a;
  }

  // ---------------------------------------------------------------------
  // Replacement

  /** `s.replace(new RegExp(p, "g"), v)` for a pattern with no regular
      expression metacharacters and a replacement with no `$`: every
      non-overlapping occurrence, scanning left to right. */
  function ReplaceAll(s: string, p: string, v: string): (r: string)
    requires |p| > 0
    decreases |s|
  {
    if |s| < |p| then s
    else if p <= s then v + ReplaceAll(s[|p|..], p, v)
    else [s[0]] + ReplaceAll(s[1..], p, v)
  }

  /** `s.replace(p, v)` with a string pattern: the first occurrence only. */
  function ReplaceFirst(s: string, p: string, v: string): (r: string)
  {
    var i := IndexOf(s, p);
    if i == -1 then s else s[..i] + v + s[i + |p|..]
  }

  lemma {:induction false} ReplaceAllAbsent(s: string, p: string, v: string)
    requires |p| > 0
    requires !Contains(s, p)
    ensures ReplaceAll(s, p, v) == s
    decreases |s|
  {
    if |s| < |p| {
    } else {
      if p <= s {
        assert ContainsAt(s, p, 0);
        assert false;
      }
      assert !Contains(s[1..], p) by {
        if Contains(s[1..], p) {
          var i :| 0 <= i <= |s[1..]| - |p| && ContainsAt(s[1..], p, i);
          assert s[1..][i..i + |p|] == s[i + 1..i + 1 + |p|];
          assert ContainsAt(s, p, i + 1);
        }
      }
      ReplaceAllAbsent(s[1..], p, v);
    }
  }

  /** The placeholder round trip: a pattern that occurs is replaced, so the
      replacement value can be found in the result. */
  lemma {:induction false} ReplaceAllInserts(s: string, p: string, v: string)
    requires |p| > 0
    requires Contains(s, p)
    ensures Contains(ReplaceAll(s, p, v), v)
    decreases |s|
  {
    var i :| 0 <= i <= |s| - |p| && ContainsAt(s, p, i);
    if p <= s {
      assert ReplaceAll(s, p, v) == v + ReplaceAll(s[|p|..], p, v);
      assert ContainsAt(ReplaceAll(s, p, v), v, 0);
    } else {
      assert i != 0;
      assert s[1..][i - 1..i - 1 + |p|] == s[i..i + |p|];
      assert ContainsAt(s[1..], p, i - 1);
      ReplaceAllInserts(s[1..], p, v);
      var w := ReplaceAll(s[1..], p, v);
      var j :| 0 <= j <= |w| - |v| && ContainsAt(w, v, j);
      assert ([s[0]] + w)[j + 1..j + 1 + |v|] == w[j..j + |v|];
      assert ContainsAt([s[0]] + w, v, j + 1);
    }
  }

  /** Replacing a one-character pattern by a different character removes
      every occurrence of it and keeps the length. */
  lemma {:induction false} ReplaceAllChar(s: string, a: char, b: char)
    requires a != b
    ensures a !in ReplaceAll(s, [a], [b])
    ensures |ReplaceAll(s, [a], [b])| == |s|
    ensures forall i :: 0 <= i < |s| ==>
      ReplaceAll(s, [a], [b])[i] == (if s[i] == a then b else s[i])
    decreases |s|
  {
    if |s| == 0 {
    } else {
      ReplaceAllChar(s[1..], a, b);
      var w := ReplaceAll(s[1..], [a], [b]);
      if [a] <= s {
        assert ReplaceAll(s, [a], [b]) == [b] + w;
      } else {
        assert ReplaceAll(s, [a], [b]) == [s[0]] + w;
      }
    }
  }

  /** An occurrence in the tail is an occurrence one place further on. */
  lemma ContainsAtTail(t: string, p: string, i: int)
    requires |t| > 0 && ContainsAt(t[1..], p, i)
    ensures ContainsAt(t, p, i + 1)
  {
    assert t[1..][i..i + |p|] == t[i + 1..i + 1 + |p|];
  }

  /** An occurrence matches the pattern character by character. */
  lemma ContainsAtIndex(s: string, p: string, i: int, k: int)
    requires ContainsAt(s, p, i) && 0 <= k < |p|
    ensures s[i + k] == p[k]
  {
    assert s[i..i + |p|][k] == s[i + k];
  }

  /** An occurrence starts with the pattern's first character. */
  lemma ContainsAtFirst(s: string, p: string, i: int)
    requires |p| > 0 && ContainsAt(s, p, i)
    ensures s[i] == p[0]
  {
    assert s[i..i + |p|][0] == s[i];
  }

  /** Text in front of the first occurrence is copied unchanged. */
  lemma {:induction false} ReplaceAllSkip(a: string, s: string, p: string, v: string)
    requires |p| > 0
    requires forall i :: 0 <= i < |a| ==> !ContainsAt(a + s, p, i)
    ensures ReplaceAll(a + s, p, v) == a + ReplaceAll(s, p, v)
    decreases |a|
  {
    if a == [] {
      assert a + s == s;
    } else {
      var t := a + s;
      assert t[1..] == a[1..] + s;
      forall i | 0 <= i < |a[1..]|
        ensures !ContainsAt(a[1..] + s, p, i)
      {
        if ContainsAt(t[1..], p, i) {
          ContainsAtTail(t, p, i);
        }
      }
      ReplaceAllSkip(a[1..], s, p, v);
      var rest := ReplaceAll(s, p, v);
      if |t| >= |p| {
        assert !ContainsAt(t, p, 0);
        assert t[0..|p|] == t[..|p|];
        assert ReplaceAll(t, p, v) == [t[0]] + ReplaceAll(t[1..], p, v);
        assert [a[0]] + (a[1..] + rest) == a + rest;
      }
    }
  }

  /** A prefix without the pattern's first character is copied unchanged. */
  lemma ReplaceAllSkipPlain(a: string, s: string, p: string, v: string)
    requires |p| > 0 && p[0] !in a
    ensures ReplaceAll(a + s, p, v) == a + ReplaceAll(s, p, v)
  {
    forall i | 0 <= i < |a|
      ensures !ContainsAt(a + s, p, i)
    {
      assert (a + s)[i] == a[i] && a[i] in a;
      if ContainsAt(a + s, p, i) {
        ContainsAtFirst(a + s, p, i);
      }
    }
    ReplaceAllSkip(a, s, p, v);
  }

  /** Text where no occurrence starts is left as it is. */
  lemma ReplaceAllNoMatch(s: string, p: string, v: string)
    requires |p| > 0
    requires forall i :: 0 <= i < |s| && s[i] == p[0] ==> !ContainsAt(s, p, i)
    ensures ReplaceAll(s, p, v) == s
  {
    assert s + [] == s;
    forall i | 0 <= i < |s|
      ensures !ContainsAt(s + [], p, i)
    {
      if ContainsAt(s, p, i) {
        ContainsAtFirst(s, p, i);
      }
    }
    ReplaceAllSkip(s, [], p, v);
  }

  /** Text without the pattern's first character is left as it is. */
  lemma ReplaceAllNoChar(s: string, p: string, v: string)
    requires |p| > 0 && p[0] !in s
    ensures ReplaceAll(s, p, v) == s
  {
    ReplaceAllSkipPlain(s, [], p, v);
    assert s + [] == s;
  }

  /** Text that differs from the pattern at some position after the first
      does not start an occurrence: its first character is copied. */
  lemma ReplaceAllMismatch(s: string, p: string, v: string, k: int)
    requires 0 < k < |p| && k < |s| && s[k] != p[k]
    ensures ReplaceAll(s, p, v) == [s[0]] + ReplaceAll(s[1..], p, v)
  {
    if |s| >= |p| {
      assert !(p <= s);
    } else {
      assert |s[1..]| < |p|;
      assert s == [s[0]] + s[1..];
    }
  }

  /** A word that starts like the pattern but differs from it at
      position `k`, and holds the pattern's first character nowhere else,
      is copied unchanged. */
  lemma ReplaceAllSkipWord(w: string, s: string, p: string, v: string, k: int)
    requires 0 < k < |p| && k < |w| && w[k] != p[k] && p[0] !in w[1..]
    ensures ReplaceAll(w + s, p, v) == w + ReplaceAll(s, p, v)
  {
    ReplaceAllMismatch(w + s, p, v, k);
    assert (w + s)[1..] == w[1..] + s;
    ReplaceAllSkipPlain(w[1..], s, p, v);
    assert w == [w[0]] + w[1..];
  }

  /** An occurrence at the front is replaced. */
  lemma ReplaceAllHead(p: string, s: string, v: string)
    requires |p| > 0
    ensures ReplaceAll(p + s, p, v) == v + ReplaceAll(s, p, v)
  {
    assert (p + s)[|p|..] == s;
  }

  lemma ReplaceFirstAbsent(s: string, p: string, v: string)
    requires !Contains(s, p)
    ensures ReplaceFirst(s, p, v) == s
  {
  }

  /** Replacing only the first occurrence leaves the text after it alone. */
  lemma ReplaceFirstShape(s: string, p: string, v: string)
    requires |p| > 0
    requires Contains(s, p)
    ensures exists a, b :: s == a + p + b && ReplaceFirst(s, p, v) == a + v + b && !Contains(a, p)
  {
    var i := IndexOf(s, p);
    var a, b := s[..i], s[i + |p|..];
    assert s[i..i + |p|] == p;
    assert s == a + p + b;
    assert !Contains(a, p) by {
      if Contains(a, p) {
        var j :| 0 <= j <= |a| - |p| && ContainsAt(a, p, j);
        assert a[j..j + |p|] == s[j..j + |p|];
        assert ContainsAt(s, p, j);
      }
    }
  }

  // ---------------------------------------------------------------------
  // Characters a file name must not contain

  /** The class `[/\\?%*:|"<>]` the synthesizer replaces by `_`. */
  predicate IsPathHostile(c: char) {
    c in "/\\?%*:|\"<>"
  }

  /** `s.replace(/[/\\?%*:|"<>]/g, "_")`. */
  function Sanitize(s: string): (r: string)
    ensures |r| == |s|
    ensures forall i :: 0 <= i < |s| ==> r[i] == (if IsPathHostile(s[i]) then '_' else s[i])
  {
    if s == [] then [] else [if IsPathHostile(s[0]) then '_' else s[0]] + Sanitize(s[1..])
  }

  predicate PathSafe(s: string) {
    forall i :: 0 <= i < |s| ==> !IsPathHostile(s[i])
  }

  lemma SanitizeIsSafe(s: string)
    ensures PathSafe(Sanitize(s))
    ensures PathSafe(s) ==> Sanitize(s) == s
  {
  }

  /** The download-name class `[?%*:|"<>]`: the same set without the two
      slashes, so a directory separator survives. */
  predicate IsNameHostile(c: char) {
    c in "?%*:|\"<>"
  }

  function SanitizeName(s: string): (r: string)
    ensures |r| == |s|
    ensures forall i :: 0 <= i < |s| ==> r[i] == (if IsNameHostile(s[i]) then '_' else s[i])
  {
    if s == [] then [] else [if IsNameHostile(s[0]) then '_' else s[0]] + SanitizeName(s[1..])
  }

  // ---------------------------------------------------------------------
  // Splitting on a separator

  /** `s.split(c)`: always at least one part, none containing `c`. */
  function Split(s: string, c: char): (r: seq<string>)
    ensures |r| >= 1
    ensures forall k :: 0 <= k < |r| ==> c !in r[k]
    decreases |s|
  {
    if s == [] then [[]]
    else if s[0] == c then [[]] + Split(s[1..], c)
    else
      var rest := Split(s[1..], c);
      [[s[0]] + rest[0]] + rest[1..]
  }

  /** `parts.join(sep)`. */
  function Join(parts: seq<string>, sep: string): string
  {
    if parts == [] then []
    else if |parts| == 1 then parts[0]
    else parts[0] + sep + Join(parts[1..], sep)
  }

  lemma JoinTwo(a: string, b: string, sep: string)
    ensures Join([a, b], sep) == a + sep + b
  {
    assert [a, b][1..] == [b];
  }

  lemma JoinThree(a: string, b: string, c: string, sep: string)
    ensures Join([a, b, c], sep) == a + sep + b + sep + c
  {
    assert [a, b, c][1..] == [b, c];
    JoinTwo(b, c, sep);
  }

  lemma {:induction false} JoinSplit(s: string, c: char)
    ensures Join(Split(s, c), [c]) == s
    decreases |s|
  {
    if s == [] {
    } else if s[0] == c {
      JoinSplit(s[1..], c);
      assert Split(s, c) == [[]] + Split(s[1..], c);
      assert Join(Split(s, c), [c]) == [] + [c] + Join(Split(s[1..], c), [c]);
    } else {
      JoinSplit(s[1..], c);
      var rest := Split(s[1..], c);
      assert Split(s, c) == [[s[0]] + rest[0]] + rest[1..];
      if |rest| == 1 {
      } else {
        assert rest == [rest[0]] + rest[1..];
        assert Join(rest, [c]) == rest[0] + [c] + Join(rest[1..], [c]);
      }
    }
  }

  lemma {:induction false} JoinSnoc(parts: seq<string>, last: string, sep: string)
    requires |parts| >= 1
    ensures Join(parts + [last], sep) == Join(parts, sep) + sep + last
    decreases |parts|
  {
    if |parts| == 1 {
      assert (parts + [last])[1..] == [last];
    } else {
      assert (parts + [last])[1..] == parts[1..] + [last];
      JoinSnoc(parts[1..], last, sep);
    }
  }

  /** The last separator of `a + [c] + b` is the one after `a` when `b`
      holds none. */
  lemma LastIndexOfCharAt(a: string, b: string, c: char)
    requires c !in b
    ensures LastIndexOf(a + [c] + b, [c]) == |a|
  {
    var s := a + [c] + b;
    LastIndexOfChar(s, c);
    var k := LastIndexOf(s, [c]);
    assert s[|a|] == c;
  }

  /** Splitting a string that starts with a separator-free part `a`: `a`
      is the first part, and the rest is the split of what follows the next
      separator. */
  lemma {:induction false} SplitLead(a: string, rest: string, c: char)
    requires c !in a
    ensures rest == [] ==> Split(a + rest, c) == [a]
    ensures |rest| > 0 && rest[0] == c ==> Split(a + rest, c) == [a] + Split(rest[1..], c)
    decreases |a|
  {
    if a == [] {
      assert a + rest == rest;
    } else {
      assert (a + rest)[0] == a[0];
      assert (a + rest)[1..] == a[1..] + rest;
      SplitLead(a[1..], rest, c);
      assert [a[0]] + a[1..] == a;
    }
  }

  /** Splitting and dropping the last part cuts the string just before its
      last separator. */
  lemma SplitDropLast(s: string, c: char)
    requires c in s
    ensures var parts := Split(s, c);
      var k := LastIndexOf(s, [c]);
      0 <= k < |s| && Join(parts[..|parts| - 1], [c]) == s[..k] && parts[|parts| - 1] == s[k + 1..]
  {
    var parts := Split(s, c);
    JoinSplit(s, c);
    if |parts| == 1 {
      assert false;
    }
    var init := parts[..|parts| - 1];
    var last := parts[|parts| - 1];
    assert parts == init + [last];
    JoinSnoc(init, last, [c]);
    var a := Join(init, [c]);
    assert s == a + [c] + last;
    LastIndexOfCharAt(a, last, c);
    assert s[..|a|] == a;
    assert s[|a| + 1..] == last;
  }

  // ---------------------------------------------------------------------
  // Ordering

  /** JavaScript `a < b` on two strings: lexicographic by character code. */
  predicate StrLess(a: string, b: string)
    decreases |a|
  {
    if b == [] then false
    else if a == [] then true
    else if a[0] != b[0] then a[0] < b[0]
    else StrLess(a[1..], b[1..])
  }

  lemma {:induction false} StrLessIrreflexive(a: string)
    ensures !StrLess(a, a)
    decreases |a|
  {
    if a != [] {
      StrLessIrreflexive(a[1..]);
    }
  }
}
