/** The few JavaScript string built-ins that main.js relies on, over Dafny strings.
    Case folding is restricted to ASCII letters; whitespace is ECMAScript's set. */
module JsString {

  predicate IsAsciiUpper(c: char) { 'A' <= c <= 'Z' }

  /** `toLowerCase` on one character, ASCII letters only. */
  function LowerChar(c: char): (r: char)
    ensures !IsAsciiUpper(r)
    ensures IsAsciiUpper(c) ==> r as int == c as int + 32
    ensures !IsAsciiUpper(c) ==> r == c
  {
    if IsAsciiUpper(c) then (c as int + 32) as char else c
  }

  /** No ASCII upper-case letter occurs in `s`. */
  predicate NoUpper(s: string) {
    forall i :: 0 <= i < |s| ==> !IsAsciiUpper(s[i])
  }

  /** `String.prototype.toLowerCase`, ASCII letters only. */
  function ToLowerCase(s: string): (r: string)
    ensures |r| == |s|
    ensures forall i :: 0 <= i < |s| ==> r[i] == LowerChar(s[i])
  {
    seq(|s|, i requires 0 <= i < |s| => LowerChar(s[i]))
  }

  lemma LowerCaseHasNoUpper(s: string)
    ensures NoUpper(ToLowerCase(s))
  {
  }

  lemma LowerCaseOfLower(s: string)
    requires NoUpper(s)
    ensures ToLowerCase(s) == s
  {
  }

  lemma LowerCaseIdempotent(s: string)
    ensures ToLowerCase(ToLowerCase(s)) == ToLowerCase(s)
  {
  }

  /** Lower-casing works character by character. */
  lemma LowerCaseConcat(a: string, b: string)
    ensures ToLowerCase(a + b) == ToLowerCase(a) + ToLowerCase(b)
  {
    var l, r := ToLowerCase(a + b), ToLowerCase(a) + ToLowerCase(b);
    forall k | 0 <= k < |l| ensures l[k] == r[k] {
      if k < |a| { assert (a + b)[k] == a[k]; } else { assert (a + b)[k] == b[k - |a|]; }
    }
  }

  predicate StartsWith(s: string, prefix: string) {
    |prefix| <= |s| && s[..|prefix|] == prefix
  }

  /** `String.prototype.endsWith`. */
  predicate EndsWith(s: string, suffix: string) {
    |suffix| <= |s| && s[|s| - |suffix|..] == suffix
  }

  /** `sub` occurs in `s` starting at index `i`. */
  predicate OccursAt(s: string, sub: string, i: int) {
    0 <= i && i + |sub| <= |s| && s[i..i + |sub|] == sub
  }

  /** `String.prototype.includes`: a scan from the left. */
  predicate Includes(s: string, sub: string)
    decreases |s|
  {
    StartsWith(s, sub) || (|s| > 0 && Includes(s[1..], sub))
  }

  /** An occurrence at index `i` is found by the scan. */
  lemma {:induction false} OccursImpliesIncludes(s: string, sub: string, i: int)
    requires OccursAt(s, sub, i)
    ensures Includes(s, sub)
    decreases i
  {
    if i == 0 {
      assert s[..|sub|] == sub;
    } else {
      assert s[1..][i - 1..i - 1 + |sub|] == s[i..i + |sub|];
      OccursImpliesIncludes(s[1..], sub, i - 1);
    }
  }

  /** What the scan finds is an occurrence at some index. */
  lemma {:induction false} IncludesImpliesOccurs(s: string, sub: string)
    requires Includes(s, sub)
    ensures exists i :: OccursAt(s, sub, i)
    decreases |s|
  {
    if StartsWith(s, sub) {
      assert OccursAt(s, sub, 0);
    } else {
      IncludesImpliesOccurs(s[1..], sub);
      var i :| OccursAt(s[1..], sub, i);
      assert s[1..][i..i + |sub|] == s[i + 1..i + 1 + |sub|];
      assert OccursAt(s, sub, i + 1);
    }
  }

  /** The scan finds `sub` exactly when it occurs at some index. */
  lemma IncludesIffOccurs(s: string, sub: string)
    ensures Includes(s, sub) <==> exists i :: OccursAt(s, sub, i)
  {
    if Includes(s, sub) {
      IncludesImpliesOccurs(s, sub);
    }
    forall i | OccursAt(s, sub, i) {
      OccursImpliesIncludes(s, sub, i);
    }
  }

  /** JavaScript's WhiteSpace and LineTerminator code points, which `trim` removes. */
  predicate IsJsWhiteSpace(c: char) {
    c == '\t' || c == '\n' || c == '\U{B}' || c == '\U{C}' || c == '\r' || c == ' '
    || c == '\U{A0}' || c == '\U{1680}' || ('\U{2000}' <= c <= '\U{200A}')
    || c == '\U{2028}' || c == '\U{2029}' || c == '\U{202F}' || c == '\U{205F}'
    || c == '\U{3000}' || c == '\U{FEFF}'
  }

  /** The number of whitespace characters `trim` removes from the start of `s`. */
  function LeadingWhiteSpace(s: string): (n: nat)
    ensures n <= |s|
    ensures forall k :: 0 <= k < n ==> IsJsWhiteSpace(s[k])
    ensures n < |s| ==> !IsJsWhiteSpace(s[n])
    decreases |s|
  {
    if |s| > 0 && IsJsWhiteSpace(s[0]) then 1 + LeadingWhiteSpace(s[1..]) else 0
  }

  /** The number of whitespace characters `trim` removes from the end of `s`. */
  function TrailingWhiteSpace(s: string): (n: nat)
    ensures n <= |s|
    ensures forall k :: |s| - n <= k < |s| ==> IsJsWhiteSpace(s[k])
    ensures n < |s| ==> !IsJsWhiteSpace(s[|s| - n - 1])
    decreases |s|
  {
    if |s| > 0 && IsJsWhiteSpace(s[|s| - 1]) then 1 + TrailingWhiteSpace(s[..|s| - 1]) else 0
  }

  /** `String.prototype.trim`. */
  function Trim(s: string): string {
    var t := s[LeadingWhiteSpace(s)..];
    t[..|t| - TrailingWhiteSpace(t)]
  }

  /** `r` is `s[i..i + |r|]` and everything of `s` outside that slice is whitespace. */
  predicate IsTrimSlice(s: string, r: string, i: int) {
    0 <= i <= |s| - |r| && r == s[i..i + |r|]
    && (forall k :: 0 <= k < i ==> IsJsWhiteSpace(s[k]))
    && (forall k :: i + |r| <= k < |s| ==> IsJsWhiteSpace(s[k]))
  }

  /** `trim` yields a slice of `s` outside which there is only whitespace, and which neither
      starts nor ends with whitespace. */
  lemma TrimSpec(s: string)
    ensures exists i :: IsTrimSlice(s, Trim(s), i)
    ensures var r := Trim(s); r == [] || (!IsJsWhiteSpace(r[0]) && !IsJsWhiteSpace(r[|r| - 1]))
    ensures forall c :: c in Trim(s) ==> c in s
  {
    var a := LeadingWhiteSpace(s);
    var t := s[a..];
    var b := TrailingWhiteSpace(t);
    var r := Trim(s);
    assert r == s[a..a + |r|];
    forall k | a + |r| <= k < |s| ensures IsJsWhiteSpace(s[k]) {
      assert s[k] == t[k - a];
    }
    assert IsTrimSlice(s, r, a);
    forall c | c in r ensures c in s {
      var k :| 0 <= k < |r| && r[k] == c;
      assert s[a + k] == c;
    }
    if r != [] {
      assert r[0] == t[0] && r[|r| - 1] == t[|t| - b - 1];
    }
  }

  /** A string that neither starts nor ends with whitespace is left alone by `trim`. */
  lemma TrimOfTrimmed(s: string)
    requires s == [] || (!IsJsWhiteSpace(s[0]) && !IsJsWhiteSpace(s[|s| - 1]))
    ensures Trim(s) == s
  {
  }

  lemma TrimIdempotent(s: string)
    ensures Trim(Trim(s)) == Trim(s)
  {
    TrimSpec(s);
    TrimOfTrimmed(Trim(s));
  }

  /** `s.lastIndexOf(c)`: the index of the last `c` in `s`, or -1 when there is none. */
  function LastIndexOf(s: string, c: char): (i: int)
    ensures -1 <= i < |s|
    ensures i >= 0 ==> s[i] == c
    ensures forall k :: i < k < |s| ==> s[k] != c
    decreases |s|
  {
    if s == [] then -1
    else if s[|s| - 1] == c then |s| - 1
    else LastIndexOf(s[..|s| - 1], c)
  }

  /** `s.split(".").pop()`: the text after the last `.`, or all of `s` when it has no `.`. */
  function AfterLastDot(s: string): string {
    s[LastIndexOf(s, '.') + 1..]
  }

  lemma AfterLastDotHasNoDot(s: string)
    ensures '.' !in AfterLastDot(s)
  {
    var i := LastIndexOf(s, '.');
    forall k | 0 <= k < |s| - i - 1 ensures AfterLastDot(s)[k] != '.' {
      assert AfterLastDot(s)[k] == s[i + 1 + k];
    }
  }

  /** Whatever precedes a dot, the text after the last dot of `p + "." + e` is `e`. */
  lemma {:induction false} AfterLastDotOfDotted(p: string, e: string)
    requires '.' !in e
    ensures LastIndexOf(p + "." + e, '.') == |p|
    ensures AfterLastDot(p + "." + e) == e
  {
    var s := p + "." + e;
    assert s[|p|] == '.';
    var i := LastIndexOf(s, '.');
    assert i >= |p|;
    assert forall k :: |p| < k < |s| ==> s[k] == e[k - |p| - 1];
    assert s[|p| + 1..] == e;
  }
}
