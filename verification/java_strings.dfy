/** The handful of `java.lang.String` operations the scraper relies on,
    written out over `seq<char>`. */
module JavaStrings {

  /** `String.trim` removes every leading and trailing character whose code
      is at most U+0020 (space and all control characters). */
  predicate IsBlank(c: char) {
    c <= ' '
  }

  predicate AllBlank(s: string) {
    forall k :: 0 <= k < |s| ==> IsBlank(s[k])
  }

  /** A string `String.trim` would leave as it is. */
  predicate IsTrimmed(s: string) {
    s == [] || (!IsBlank(s[0]) && !IsBlank(s[|s| - 1]))
  }

  /** The first index at or after `from` that holds no blank, or `|s|`;
      the start index `String.trim` advances. */
  function FirstNonBlank(s: string, from: nat): (n: nat)
    requires from <= |s|
    ensures from <= n <= |s|
    ensures forall k :: from <= k < n ==> IsBlank(s[k])
    ensures n == |s| || !IsBlank(s[n])
    decreases |s| - from
  {
    if from == |s| || !IsBlank(s[from]) then from else FirstNonBlank(s, from + 1)
  }

  /** The end index `String.trim` lowers from `hi` while the character
      before it is blank, never below `lo`. */
  function NonBlankEnd(s: string, lo: nat, hi: nat): (n: nat)
    requires lo <= hi <= |s|
    ensures lo <= n <= hi
    ensures forall k :: n <= k < hi ==> IsBlank(s[k])
    ensures n == lo || !IsBlank(s[n - 1])
    decreases hi
  {
    if hi == lo || !IsBlank(s[hi - 1]) then hi else NonBlankEnd(s, lo, hi - 1)
  }

  /** `String.trim`. */
  function Trim(s: string): (r: string)
    ensures IsTrimmed(r)
    ensures |r| <= |s|
  {
    var i := FirstNonBlank(s, 0);
    s[i..NonBlankEnd(s, i, |s|)]
  }

  /** Trimming only strips blanks: the input is a blank prefix, the result,
      and a blank suffix. */
  lemma TrimSplits(s: string) returns (pre: string, post: string)
    ensures s == pre + Trim(s) + post
    ensures AllBlank(pre) && AllBlank(post)
  {
    var i := FirstNonBlank(s, 0);
    var e := NonBlankEnd(s, i, |s|);
    pre, post := s[..i], s[e..];
    SliceSplit(s, i, e);
  }

  /** Cutting a string at two points and gluing the parts back. */
  lemma SliceSplit(s: string, i: nat, j: nat)
    requires i <= j <= |s|
    ensures s == s[..i] + s[i..j] + s[j..]
  {
  }

  /** `Trim(s)` is empty exactly when every character of `s` is blank. */
  lemma TrimEmptyIffAllBlank(s: string)
    ensures Trim(s) == [] <==> AllBlank(s)
  {
    var pre, post := TrimSplits(s);
    if Trim(s) == [] {
      assert s == pre + post;
      forall k | 0 <= k < |s| ensures IsBlank(s[k]) {
        if k < |pre| { assert s[k] == pre[k]; } else { assert s[k] == post[k - |pre|]; }
      }
    } else {
      var r := Trim(s);
      assert s[|pre|] == r[0];
    }
  }

  /** Trimming a trimmed string changes nothing, so trimming is idempotent. */
  lemma TrimOfTrimmed(s: string)
    requires IsTrimmed(s)
    ensures Trim(s) == s
  {
    assert FirstNonBlank(s, 0) == 0;
    assert NonBlankEnd(s, 0, |s|) == |s|;
  }

  /** `String.replace(CharSequence, CharSequence)` with a one-character
      target: every occurrence of `c`, scanned left to right, is replaced by
      `rep`; the replacement text is never rescanned. */
  function ReplaceChar(s: string, c: char, rep: string): (r: string)
    ensures c !in s ==> r == s
    ensures forall x :: x in r ==> (x in s && x != c) || x in rep
    ensures |rep| == 1 ==> |r| == |s|
  {
    if s == [] then []
    else (if s[0] == c then rep else [s[0]]) + ReplaceChar(s[1..], c, rep)
  }

  /** Replacement works character by character, so it distributes over
      concatenation. */
  lemma {:induction false} ReplaceCharConcat(a: string, b: string, c: char, rep: string)
    ensures ReplaceChar(a + b, c, rep) == ReplaceChar(a, c, rep) + ReplaceChar(b, c, rep)
  {
    if a == [] {
      assert a + b == b;
    } else {
      assert (a + b)[1..] == a[1..] + b;
      ReplaceCharConcat(a[1..], b, c, rep);
    }
  }

  /** With a one-character replacement, position `k` of the result is
      position `k` of the input with `c` swapped for the replacement. */
  lemma {:induction false} ReplaceCharPointwise(s: string, c: char, rep: string)
    requires |rep| == 1
    ensures |ReplaceChar(s, c, rep)| == |s|
    ensures forall k :: 0 <= k < |s| ==>
      ReplaceChar(s, c, rep)[k] == (if s[k] == c then rep[0] else s[k])
  {
    if s != [] {
      var tail := ReplaceChar(s[1..], c, rep);
      ReplaceCharPointwise(s[1..], c, rep);
      var r := ReplaceChar(s, c, rep);
      assert r == [if s[0] == c then rep[0] else s[0]] + tail;
      forall k | 0 < k < |s|
        ensures r[k] == (if s[k] == c then rep[0] else s[k])
      {
        assert r[k] == tail[k - 1] && s[k] == s[1..][k - 1];
      }
    }
  }

  predicate IsAsciiUpper(c: char) {
    'A' <= c <= 'Z'
  }

  /** `Character.toLowerCase`, on the ASCII letters. */
  function LowerChar(c: char): char {
    if IsAsciiUpper(c) then (c as int - 'A' as int + 'a' as int) as char else c
  }

  /** `String.toLowerCase`, on the ASCII letters. */
  function ToLower(s: string): (r: string)
    ensures |r| == |s|
    ensures forall k :: 0 <= k < |s| ==> r[k] == LowerChar(s[k])
  {
    if s == [] then [] else [LowerChar(s[0])] + ToLower(s[1..])
  }

  /** A string with no ASCII upper-case letter is its own lower-case form;
      in particular `ToLower` is idempotent. */
  lemma ToLowerOfLower(s: string)
    requires forall k :: 0 <= k < |s| ==> !IsAsciiUpper(s[k])
    ensures ToLower(s) == s
  {
  }

  /** Lower-casing twice changes nothing more. */
  lemma ToLowerIdempotent(s: string)
    ensures ToLower(ToLower(s)) == ToLower(s)
  {
  }

  lemma ToLowerConcat(a: string, b: string)
    ensures ToLower(a + b) == ToLower(a) + ToLower(b)
  {
  }

  /** `String.startsWith`. */
  predicate StartsWith(s: string, prefix: string): (b: bool)
    ensures b <==> |prefix| <= |s| && forall k :: 0 <= k < |prefix| ==> s[k] == prefix[k]
  {
    |prefix| <= |s| && s[..|prefix|] == prefix
  }

  /** `String.contains`: `sub` occurs at some position of `s`. */
  predicate Contains(s: string, sub: string): (b: bool)
    ensures b <==> exists k :: 0 <= k <= |s| && StartsWith(s[k..], sub)
    decreases |s|
  {
    if StartsWith(s, sub) then
      assert s[0..] == s;
      true
    else if s == [] then false
    else
      ContainsShift(s, sub);
      Contains(s[1..], sub)
  }

  /** An occurrence past the first position is an occurrence in the tail. */
  lemma ContainsShift(s: string, sub: string)
    requires s != [] && !StartsWith(s, sub)
    ensures (exists k :: 0 <= k <= |s| && StartsWith(s[k..], sub))
        <==> (exists k :: 0 <= k <= |s| - 1 && StartsWith(s[1..][k..], sub))
  {
    forall k | 1 <= k <= |s|
      ensures s[k..] == s[1..][k - 1..]
    {
    }
    assert s[0..] == s;
  }

  /** A string contains any of its infixes, so `Contains` agrees with the
      positional reading of `String.contains`. */
  lemma {:induction false} ContainsInfix(pre: string, sub: string, post: string)
    ensures Contains(pre + sub + post, sub)
  {
    if pre == [] {
      assert (pre + sub + post)[..|sub|] == sub;
    } else {
      assert (pre + sub + post)[1..] == pre[1..] + sub + post;
      ContainsInfix(pre[1..], sub, post);
    }
  }

  predicate IsDigit(c: char) {
    '0' <= c <= '9'
  }

  predicate AllDigits(s: string) {
    forall k :: 0 <= k < |s| ==> IsDigit(s[k])
  }

  /** `s.replaceAll("[^0-9]", "")`: keeps the ASCII digits, in order. */
  function KeepDigits(s: string): (r: string)
    ensures AllDigits(r)
    ensures |r| <= |s|
    ensures AllDigits(s) ==> r == s
  {
    if s == [] then []
    else (if IsDigit(s[0]) then [s[0]] else []) + KeepDigits(s[1..])
  }

  /** A single character is kept when it is a digit and dropped otherwise;
      with `KeepDigitsConcat` this fixes the filter on every string. */
  lemma KeepDigitsChar(c: char)
    ensures KeepDigits([c]) == (if IsDigit(c) then [c] else [])
  {
    assert [c][1..] == [];
  }

  /** Text without a digit leaves nothing. */
  lemma {:induction false} KeepDigitsOfNonDigits(s: string)
    requires forall k :: 0 <= k < |s| ==> !IsDigit(s[k])
    ensures KeepDigits(s) == []
  {
    if s != [] {
      assert forall k :: 0 <= k < |s| - 1 ==> s[1..][k] == s[k + 1];
      KeepDigitsOfNonDigits(s[1..]);
    }
  }

  /** Digit groups separated by other characters are concatenated. */
  lemma {:induction false} KeepDigitsConcat(a: string, b: string)
    ensures KeepDigits(a + b) == KeepDigits(a) + KeepDigits(b)
  {
    if a == [] {
      assert a + b == b;
    } else {
      assert (a + b)[1..] == a[1..] + b;
      KeepDigitsConcat(a[1..], b);
    }
  }
}
