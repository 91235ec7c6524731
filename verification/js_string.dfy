/**
 The three JavaScript string operations the search handlers rely on:
 `toLowerCase` (restricted to the ASCII letters), `trim` (with the full
 ECMAScript white-space and line-terminator set) and `includes`.
 */
module JsString {

  /** True for the ASCII capital letters A..Z. */
  predicate IsAsciiUpper(c: char) {
    'A' <= c <= 'Z'
  }

  /** ASCII lower-casing of one character; every other character is kept. */
  function LowerChar(c: char): (d: char)
    ensures !IsAsciiUpper(d)
    ensures !IsAsciiUpper(c) ==> d == c
    ensures IsAsciiUpper(c) ==> d as int == c as int + 32
  {
    if IsAsciiUpper(c) then (c as int - 'A' as int + 'a' as int) as char else c
  }

  /** `String.prototype.toLowerCase`, restricted to ASCII case mapping. */
  function ToLowerCase(s: string): (r: string)
    ensures |r| == |s|
    ensures forall i :: 0 <= i < |s| ==> r[i] == LowerChar(s[i])
  {
    seq(|s|, i requires 0 <= i < |s| => LowerChar(s[i]))
  }

  /**
   Two characters that are the same letter up to ASCII case: equal, or one is
   a capital letter and the other is the letter 32 code points above it.
   */
  predicate SameUpToCase(x: char, y: char) {
    || x == y
    || (IsAsciiUpper(x) && y as int == x as int + 32)
    || (IsAsciiUpper(y) && x as int == y as int + 32)
  }

  /** Two strings that differ at most in the case of ASCII letters. */
  predicate EqualIgnoringCase(a: string, b: string) {
    |a| == |b| && forall i :: 0 <= i < |a| ==> SameUpToCase(a[i], b[i])
  }

  /** Two characters lower-case alike exactly when they are the same letter up to case. */
  lemma LowerCharEqualIff(x: char, y: char)
    ensures LowerChar(x) == LowerChar(y) <==> SameUpToCase(x, y)
  {
  }

  /** Lower-cased strings agree exactly when the originals agree up to case. */
  lemma LowerCaseEqualIff(a: string, b: string)
    ensures ToLowerCase(a) == ToLowerCase(b) <==> EqualIgnoringCase(a, b)
  {
    if |a| == |b| {
      forall i | 0 <= i < |a| ensures ToLowerCase(a)[i] == ToLowerCase(b)[i] <==> SameUpToCase(a[i], b[i]) {
        LowerCharEqualIff(a[i], b[i]);
      }
      if !EqualIgnoringCase(a, b) {
        var i :| 0 <= i < |a| && !SameUpToCase(a[i], b[i]);
        assert ToLowerCase(a)[i] != ToLowerCase(b)[i];
      }
    } else {
      assert |ToLowerCase(a)| != |ToLowerCase(b)|;
    }
  }

  /**
   The characters `String.prototype.trim` removes: the WhiteSpace code points
   (tab, vertical tab, form feed, space, no-break space, the byte order mark
   and the Zs category) and the LineTerminator code points (line feed,
   carriage return, line and paragraph separator) of ECMAScript.
   */
  predicate IsWhiteSpace(c: char) {
    var n := c as int;
    || (0x09 <= n <= 0x0D)
    || n == 0x20
    || n == 0xA0
    || n == 0x1680
    || (0x2000 <= n <= 0x200A)
    || n == 0x2028
    || n == 0x2029
    || n == 0x202F
    || n == 0x205F
    || n == 0x3000
    || n == 0xFEFF
  }

  predicate AllWhiteSpace(s: string) {
    forall i :: 0 <= i < |s| ==> IsWhiteSpace(s[i])
  }

  /** A string with no white space at either end (the empty string included). */
  predicate IsTrimmed(s: string) {
    s == [] || (!IsWhiteSpace(s[0]) && !IsWhiteSpace(s[|s| - 1]))
  }

  /** ASCII lower-casing never turns a character into white space or back. */
  lemma LowerCharKeepsWhiteSpace(c: char)
    ensures IsWhiteSpace(LowerChar(c)) <==> IsWhiteSpace(c)
  {
  }

  /** Re-casing a string keeps it trimmed or untrimmed. */
  lemma EqualIgnoringCaseKeepsTrimmed(a: string, b: string)
    requires EqualIgnoringCase(a, b)
    ensures IsTrimmed(a) <==> IsTrimmed(b)
  {
    if a != [] {
      assert SameUpToCase(a[0], b[0]) && SameUpToCase(a[|a| - 1], b[|b| - 1]);
    }
  }

  /** `String.prototype.trimStart`: drop white space from the front. */
  function TrimStart(s: string): (r: string)
    ensures |r| <= |s|
    ensures r == [] || !IsWhiteSpace(r[0])
    decreases |s|
  {
    if |s| > 0 && IsWhiteSpace(s[0]) then TrimStart(s[1..]) else s
  }

  /** `String.prototype.trimEnd`: drop white space from the back. */
  function TrimEnd(s: string): (r: string)
    ensures |r| <= |s|
    ensures r == [] || !IsWhiteSpace(r[|r| - 1])
    ensures r != [] ==> r[0] == s[0]
    decreases |s|
  {
    if |s| > 0 && IsWhiteSpace(s[|s| - 1]) then TrimEnd(s[..|s| - 1]) else s
  }

  /** What trimStart drops is white space, and it is dropped from the front only. */
  lemma {:induction false} TrimStartSplit(s: string) returns (p: string)
    ensures AllWhiteSpace(p) && s == p + TrimStart(s)
    decreases |s|
  {
    if |s| > 0 && IsWhiteSpace(s[0]) {
      var rest := TrimStartSplit(s[1..]);
      p := [s[0]] + rest;
      assert s == [s[0]] + s[1..];
    } else {
      p := [];
    }
  }

  /** What trimEnd drops is white space, and it is dropped from the back only. */
  lemma {:induction false} TrimEndSplit(s: string) returns (q: string)
    ensures AllWhiteSpace(q) && s == TrimEnd(s) + q
    decreases |s|
  {
    if |s| > 0 && IsWhiteSpace(s[|s| - 1]) {
      var rest := TrimEndSplit(s[..|s| - 1]);
      q := rest + [s[|s| - 1]];
      assert s == s[..|s| - 1] + [s[|s| - 1]];
    } else {
      q := [];
    }
  }

  /** Trimming front then back leaves nothing exactly when everything is white space. */
  lemma TrimBlank(s: string)
    ensures TrimEnd(TrimStart(s)) == [] <==> AllWhiteSpace(s)
  {
    var p := TrimStartSplit(s);
    var front := TrimStart(s);
    var q := TrimEndSplit(front);
    if front != [] {
      assert s[|p|] == front[0];
    }
  }

  /** `String.prototype.trim`: strip white space from both ends. */
  function Trim(s: string): (r: string)
    ensures IsTrimmed(r)
    ensures r == [] <==> AllWhiteSpace(s)
  {
    TrimBlank(s);
    TrimEnd(TrimStart(s))
  }

  /** `s` is `r` with white space added at either end. */
  ghost predicate StripsTo(s: string, r: string) {
    exists p, q :: AllWhiteSpace(p) && AllWhiteSpace(q) && s == p + r + q
  }

  /** Trim only removes white space, from the two ends. */
  lemma TrimStrips(s: string)
    ensures StripsTo(s, Trim(s))
  {
    var p := TrimStartSplit(s);
    var q := TrimEndSplit(TrimStart(s));
    assert s == p + Trim(s) + q;
  }

  /** Trimming the front of white space followed by a string that starts with a non-space gives that string. */
  lemma {:induction false} TrimStartPadded(p: string, y: string)
    requires AllWhiteSpace(p) && (y == [] || !IsWhiteSpace(y[0]))
    ensures TrimStart(p + y) == y
    decreases |p|
  {
    if p == [] {
      assert p + y == y;
    } else {
      assert (p + y)[0] == p[0];
      assert (p + y)[1..] == p[1..] + y;
      TrimStartPadded(p[1..], y);
    }
  }

  /** Trimming the back of a string that ends with a non-space, followed by white space, gives that string. */
  lemma {:induction false} TrimEndPadded(y: string, q: string)
    requires AllWhiteSpace(q) && (y == [] || !IsWhiteSpace(y[|y| - 1]))
    ensures TrimEnd(y + q) == y
    decreases |q|
  {
    if q == [] {
      assert y + q == y;
    } else {
      assert (y + q)[|y + q| - 1] == q[|q| - 1];
      assert (y + q)[..|y + q| - 1] == y + q[..|q| - 1];
      TrimEndPadded(y, q[..|q| - 1]);
    }
  }

  /**
   Whatever white space surrounds a trimmed string, trimming gives that string
   back.
   */
  lemma TrimRemovesPadding(p: string, x: string, q: string)
    requires AllWhiteSpace(p) && AllWhiteSpace(q) && IsTrimmed(x)
    ensures Trim(p + x + q) == x
  {
    if x == [] {
      assert AllWhiteSpace(p + x + q);
    } else {
      assert p + x + q == p + (x + q);
      assert (x + q)[0] == x[0];
      TrimStartPadded(p, x + q);
      TrimEndPadded(x, q);
    }
  }

  /** Trim is characterised completely: its result is the one trimmed string that `s` pads. */
  lemma TrimIff(s: string, x: string)
    ensures Trim(s) == x <==> IsTrimmed(x) && StripsTo(s, x)
  {
    TrimStrips(s);
    if IsTrimmed(x) && StripsTo(s, x) {
      var p, q :| AllWhiteSpace(p) && AllWhiteSpace(q) && s == p + x + q;
      TrimRemovesPadding(p, x, q);
    }
  }

  /** Trimming a trimmed string changes nothing; in particular trim is idempotent. */
  lemma TrimIdempotent(s: string)
    ensures Trim(Trim(s)) == Trim(s)
  {
    TrimRemovesPadding([], Trim(s), []);
    assert [] + Trim(s) + [] == Trim(s);
  }

  /** Lower-casing keeps white space where it is. */
  lemma LowerCaseKeepsShape(s: string)
    ensures AllWhiteSpace(s) ==> AllWhiteSpace(ToLowerCase(s))
    ensures IsTrimmed(s) ==> IsTrimmed(ToLowerCase(s))
  {
    forall i | 0 <= i < |s| ensures IsWhiteSpace(ToLowerCase(s)[i]) <==> IsWhiteSpace(s[i]) {
      LowerCharKeepsWhiteSpace(s[i]);
    }
  }

  lemma {:induction false} LowerCaseCommutesWithTrimStart(s: string)
    ensures ToLowerCase(TrimStart(s)) == TrimStart(ToLowerCase(s))
    decreases |s|
  {
    if |s| > 0 {
      LowerCharKeepsWhiteSpace(s[0]);
      assert ToLowerCase(s)[1..] == ToLowerCase(s[1..]);
      LowerCaseCommutesWithTrimStart(s[1..]);
    }
  }

  lemma {:induction false} LowerCaseCommutesWithTrimEnd(s: string)
    ensures ToLowerCase(TrimEnd(s)) == TrimEnd(ToLowerCase(s))
    decreases |s|
  {
    if |s| > 0 {
      LowerCharKeepsWhiteSpace(s[|s| - 1]);
      assert ToLowerCase(s)[..|s| - 1] == ToLowerCase(s[..|s| - 1]);
      LowerCaseCommutesWithTrimEnd(s[..|s| - 1]);
    }
  }

  /** Lower-casing and trimming commute, so the order the handler applies them in is immaterial. */
  lemma LowerCaseCommutesWithTrim(s: string)
    ensures ToLowerCase(Trim(s)) == Trim(ToLowerCase(s))
  {
    LowerCaseCommutesWithTrimStart(s);
    LowerCaseCommutesWithTrimEnd(TrimStart(s));
  }

  predicate StartsWith(s: string, prefix: string) {
    |prefix| <= |s| && s[..|prefix|] == prefix
  }

  /** `t` occurs in `s` starting at index `k`. */
  ghost predicate OccursAt(s: string, t: string, k: int) {
    0 <= k && k + |t| <= |s| && s[k..k + |t|] == t
  }

  /** `String.prototype.includes`: scan the start positions of `s` from the left. */
  predicate Includes(s: string, t: string)
    ensures Includes(s, t) ==> |t| <= |s|
    ensures |t| == |s| ==> (Includes(s, t) <==> s == t)
    decreases |s|
  {
    StartsWith(s, t) || (|t| < |s| && Includes(s[1..], t))
  }

  /** An occurrence in the tail of `s` is an occurrence in `s`, one position later. */
  lemma OccursInTail(s: string, t: string, k: int)
    requires |s| > 0 && 0 <= k
    ensures OccursAt(s[1..], t, k) <==> OccursAt(s, t, k + 1)
  {
    if k + 1 + |t| <= |s| {
      assert s[1..][k..k + |t|] == s[k + 1..k + 1 + |t|];
    }
  }

  /** The scan finds `t` exactly when `t` occurs somewhere in `s`. */
  lemma {:induction false} IncludesIff(s: string, t: string)
    ensures Includes(s, t) <==> exists k :: OccursAt(s, t, k)
    decreases |s|
  {
    if StartsWith(s, t) {
      assert OccursAt(s, t, 0);
    } else if |t| < |s| {
      IncludesIff(s[1..], t);
      if Includes(s[1..], t) {
        var k :| OccursAt(s[1..], t, k);
        OccursInTail(s, t, k);
      } else {
        forall k | 1 <= k ensures !OccursAt(s, t, k) {
          OccursInTail(s, t, k - 1);
        }
        assert !OccursAt(s, t, 0);
      }
    } else {
      forall k | 0 <= k ensures !OccursAt(s, t, k) {
        if k == 0 && |t| <= |s| {
          assert s[..|t|] == s[0..|t|];
        }
      }
    }
  }

  /** The empty string is included in every string. */
  lemma IncludesEmpty(s: string)
    ensures Includes(s, [])
  {
    assert s[..0] == [];
  }
}
