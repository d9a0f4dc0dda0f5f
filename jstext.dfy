/**
 * The JavaScript string primitives the core relies on: the `\s` character
 * class and `String.prototype.trim`, the line terminators that `.` does not
 * cross, ASCII case folding for `/i` and `toUpperCase`, and the notion of a
 * subsequence used to state that cleaning only ever deletes characters.
 */
module JsText {

  /** ECMAScript LineTerminator: the characters a regex `.` does not match. */
  predicate IsLineTerminator(c: char)
  {
    c == '\n' || c == '\r' || c == '\U{2028}' || c == '\U{2029}'
  }

  /**
   * ECMAScript WhiteSpace or LineTerminator: the set matched by `\s` and
   * removed by `trim()` (tab, LF, VT, FF, CR, the Zs space separators and
   * the byte order mark).
   */
  predicate IsSpace(c: char)
  {
    c == '\t' || c == '\n' || c == '\U{B}' || c == '\U{C}' || c == '\r' || c == ' '
    || c == '\U{A0}' || c == '\U{1680}' || ('\U{2000}' <= c <= '\U{200A}')
    || c == '\U{2028}' || c == '\U{2029}' || c == '\U{202F}' || c == '\U{205F}'
    || c == '\U{3000}' || c == '\U{FEFF}'
  }

  predicate IsAsciiLower(c: char) { 'a' <= c <= 'z' }

  /** `[A-Z0-9]` under the `i` flag: an ASCII letter of either case or a digit. */
  predicate IsAsciiAlnum(c: char)
  {
    'a' <= c <= 'z' || 'A' <= c <= 'Z' || '0' <= c <= '9'
  }

  /** Upper-cases an ASCII letter and leaves every other character alone. */
  function UpperChar(c: char): (d: char)
    ensures !IsAsciiLower(d)
    ensures IsAsciiLower(c) ==> d as int == c as int - 32
    ensures !IsAsciiLower(c) ==> d == c
  {
    if IsAsciiLower(c) then (c as int - 32) as char else c
  }

  /** Two characters are equal under the regex `i` flag. */
  predicate FoldEq(c: char, d: char)
  {
    UpperChar(c) == UpperChar(d)
  }

  /** `toUpperCase()` with ASCII case mapping. */
  function ToUpper(s: string): (r: string)
    ensures |r| == |s|
    ensures forall i :: 0 <= i < |s| ==> r[i] == UpperChar(s[i])
  {
    seq(|s|, i requires 0 <= i < |s| => UpperChar(s[i]))
  }

  /** The longest prefix of `s` whose characters all satisfy `q` has length `n`. */
  function LeadingRun(s: string, q: char -> bool): (n: nat)
    ensures n <= |s|
    ensures forall i :: 0 <= i < n ==> q(s[i])
    ensures n < |s| ==> !q(s[n])
  {
    if |s| == 0 || !q(s[0]) then 0 else 1 + LeadingRun(s[1..], q)
  }

  /** The longest suffix of `s` whose characters all satisfy `q` has length `n`. */
  function TrailingRun(s: string, q: char -> bool): (n: nat)
    ensures n <= |s|
    ensures forall i :: |s| - n <= i < |s| ==> q(s[i])
    ensures n < |s| ==> !q(s[|s| - n - 1])
  {
    if |s| == 0 || !q(s[|s| - 1]) then 0 else 1 + TrailingRun(s[..|s| - 1], q)
  }

  /** `s` with its leading and trailing runs of `q`-characters removed. */
  function StripBoth(s: string, q: char -> bool): (r: string)
    ensures exists a, b :: (0 <= a <= b <= |s| && r == s[a..b]
      && (forall i :: 0 <= i < a ==> q(s[i]))
      && (forall i :: b <= i < |s| ==> q(s[i])))
    ensures r != [] ==> !q(r[0]) && !q(r[|r| - 1])
    ensures (forall i :: 0 <= i < |s| ==> q(s[i])) ==> r == []
    ensures (forall i :: 0 <= i < |s| ==> !q(s[i])) ==> r == s
  {
    var a := LeadingRun(s, q);
    var rest := s[a..];
    var t := TrailingRun(rest, q);
    assert forall i :: a + |rest| - t <= i < |s| ==> q(s[i]) by {
      forall i | a + |rest| - t <= i < |s| ensures q(s[i]) {
        assert s[i] == rest[i - a];
      }
    }
    assert rest[..|rest| - t] == s[a..a + |rest| - t];
    rest[..|rest| - t]
  }

  /** `StripBoth` keeps exactly `s[a..b]` when `a` and `b` are where the stripped runs end. */
  lemma StripBothIs(s: string, q: char -> bool, a: nat, b: nat)
    requires a <= b <= |s|
    requires forall i :: 0 <= i < a ==> q(s[i])
    requires forall i :: b <= i < |s| ==> q(s[i])
    requires a < b ==> !q(s[a]) && !q(s[b - 1])
    ensures StripBoth(s, q) == s[a..b]
  {
    var r := StripBoth(s, q);
    var n := LeadingRun(s, q);
    if a == b {
      assert forall i :: 0 <= i < |s| ==> q(s[i]) by {
        forall i | 0 <= i < |s| ensures q(s[i]) {
          if i >= b {} else {}
        }
      }
    } else {
      assert !q(s[a]);
      assert n < |s| ==> !q(s[n]);
      assert n == a;
      var rest := s[a..];
      var t := TrailingRun(rest, q);
      assert rest[|rest| - (|s| - b) - 1] == s[b - 1];
      assert t < |rest| ==> rest[|rest| - t - 1] == s[|s| - t - 1];
      assert t == |s| - b;
      assert r == rest[..|rest| - t];
    }
  }

  /** `trim()`: drop leading and trailing white space. */
  function Trim(s: string): (r: string)
    ensures exists a, b :: (0 <= a <= b <= |s| && r == s[a..b]
      && (forall i :: 0 <= i < a ==> IsSpace(s[i]))
      && (forall i :: b <= i < |s| ==> IsSpace(s[i])))
    ensures r != [] ==> !IsSpace(r[0]) && !IsSpace(r[|r| - 1])
    ensures NoSpace(s) ==> r == s
  {
    StripBoth(s, IsSpace)
  }

  predicate NoSpace(s: string)
  {
    forall i :: 0 <= i < |s| ==> !IsSpace(s[i])
  }

  lemma SliceNoSpace(s: string, a: int, b: int)
    requires 0 <= a <= b <= |s| && NoSpace(s)
    ensures NoSpace(s[a..b])
  {
    forall i | 0 <= i < b - a ensures !IsSpace(s[a..b][i]) {
      assert s[a..b][i] == s[a + i];
    }
  }

  /** `a` can be obtained from `b` by deleting characters. */
  predicate IsSubsequence(a: string, b: string)
    decreases |b|
  {
    if a == [] then true
    else if b == [] then false
    else if a[0] == b[0] then IsSubsequence(a[1..], b[1..])
    else IsSubsequence(a, b[1..])
  }

  lemma {:induction false} SubsequenceRefl(a: string)
    ensures IsSubsequence(a, a)
  {
    if a != [] {
      SubsequenceRefl(a[1..]);
    }
  }

  /** Putting one more character in front of the larger string keeps a subsequence. */
  lemma {:induction false} SubsequenceCons(a: string, c: char, b: string)
    requires IsSubsequence(a, b)
    ensures IsSubsequence(a, [c] + b)
    decreases |a| + |b|, 1
  {
    if a != [] && a[0] == c {
      SubsequenceTail(a, b);
      assert ([c] + b)[1..] == b;
    } else {
      assert ([c] + b)[1..] == b;
    }
  }

  /** Dropping the first character of the smaller string keeps a subsequence. */
  lemma {:induction false} SubsequenceTail(a: string, b: string)
    requires a != [] && IsSubsequence(a, b)
    ensures IsSubsequence(a[1..], b)
    decreases |a| + |b|, 0
  {
    if a[0] == b[0] {
      assert IsSubsequence(a[1..], b[1..]);
      SubsequenceCons(a[1..], b[0], b[1..]);
      assert [b[0]] + b[1..] == b;
    } else {
      SubsequenceTail(a, b[1..]);
      SubsequenceCons(a[1..], b[0], b[1..]);
      assert [b[0]] + b[1..] == b;
    }
  }

  lemma {:induction false} SubsequenceTrans(a: string, b: string, c: string)
    requires IsSubsequence(a, b) && IsSubsequence(b, c)
    ensures IsSubsequence(a, c)
    decreases |c|
  {
    if a == [] {
    } else if b[0] == c[0] {
      if a[0] == b[0] {
        SubsequenceTrans(a[1..], b[1..], c[1..]);
      } else {
        SubsequenceTrans(a, b[1..], c[1..]);
      }
    } else {
      SubsequenceTrans(a, b, c[1..]);
      SubsequenceCons(a, c[0], c[1..]);
      assert [c[0]] + c[1..] == c;
    }
  }

  lemma SuffixIsSubsequence(s: string, a: int)
    requires 0 <= a <= |s|
    ensures IsSubsequence(s[a..], s)
  {
    SliceIsSubsequence(s, a, |s|);
    assert s[a..|s|] == s[a..];
  }

  lemma SliceOfSubsequence(s: string, a: int, b: int, t: string)
    requires 0 <= a <= b <= |s| && IsSubsequence(s, t)
    ensures IsSubsequence(s[a..b], t)
  {
    SliceIsSubsequence(s, a, b);
    SubsequenceTrans(s[a..b], s, t);
  }

  /** Every contiguous piece of a string is a subsequence of it. */
  lemma {:induction false} SliceIsSubsequence(s: string, a: int, b: int)
    requires 0 <= a <= b <= |s|
    ensures IsSubsequence(s[a..b], s)
    decreases |s|
  {
    if a > 0 {
      SliceIsSubsequence(s[1..], a - 1, b - 1);
      assert s[1..][a - 1..b - 1] == s[a..b];
      SubsequenceCons(s[a..b], s[0], s[1..]);
      assert [s[0]] + s[1..] == s;
    } else if b > 0 {
      SliceIsSubsequence(s[1..], 0, b - 1);
      assert s[1..][0..b - 1] == s[1..b];
      assert s[..b][1..] == s[1..b];
    }
  }
}
