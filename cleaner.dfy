/**
 * The CAPTCHA answer cleaner of `getTextFromCaptchaFile`: the recognition
 * service's free-text reply goes through a fixed chain of regular-expression
 * replacements, and an over-long result falls back to the first run of
 * four to eight ASCII letters or digits. Each regular expression is written
 * out as the search it performs.
 */
module Cleaner {
  import opened Wrappers
  import opened JsText

  /** The labels stripped, in order, by the four anchored replacements. */
  const Labels: seq<string> := ["captcha", "texto", "es", "caracteres"]

  /** `word` occurs at position `k` of `s`, compared case-insensitively. */
  predicate LabelAt(s: string, k: nat, word: string)
  {
    k + |word| <= |s| && ToUpper(s[k..k + |word|]) == ToUpper(word)
  }

  predicate NotLineTerminator(c: char) { !IsLineTerminator(c) }

  /** The number of characters before the first line terminator: how far `^.*` can reach. */
  function FirstLineLength(s: string): (n: nat)
    ensures n <= |s|
    ensures forall i :: 0 <= i < n ==> !IsLineTerminator(s[i])
    ensures n < |s| ==> IsLineTerminator(s[n])
  {
    LeadingRun(s, NotLineTerminator)
  }

  /** The last position, not beyond `k`, at which `word` starts in `s`. */
  function LastLabelAt(s: string, word: string, k: nat): (r: Option<nat>)
    ensures r.Some? ==> r.value <= k && LabelAt(s, r.value, word)
    ensures forall j: nat :: (r.Some? ==> r.value < j) && j <= k ==> !LabelAt(s, j, word)
    decreases k
  {
    if LabelAt(s, k, word) then Some(k)
    else if k == 0 then None
    else LastLabelAt(s, word, k - 1)
  }

  /**
   * How many characters `:?\s*` matches at position `from` of `s`: one
   * colon if there is one, then every white-space character that follows.
   */
  function ColonAndSpacesLength(s: string, from: nat): (n: nat)
    requires from <= |s|
    ensures from + n <= |s|
    ensures var colon := if from < |s| && s[from] == ':' then 1 else 0;
      && colon <= n
      && (forall i :: from + colon <= i < from + n ==> IsSpace(s[i]))
      && (from + n < |s| ==> !IsSpace(s[from + n]))
  {
    var colon := if from < |s| && s[from] == ':' then 1 else 0;
    var t := s[from + colon..];
    var n := LeadingRun(t, IsSpace);
    assert forall i :: from + colon <= i < from + colon + n ==> IsSpace(s[i]) by {
      forall i | from + colon <= i < from + colon + n ensures IsSpace(s[i]) {
        assert s[i] == t[i - from - colon];
      }
    }
    assert from + colon + n < |s| ==> s[from + colon + n] == t[n];
    colon + n
  }

  /** How many leading characters the label replacement removes from `s`. */
  function StripLabelLength(s: string, word: string): (m: nat)
    ensures m <= |s|
  {
    match LastLabelAt(s, word, FirstLineLength(s))
    case None => 0
    case Some(k) => k + |word| + ColonAndSpacesLength(s, k + |word|)
  }

  /**
   * One anchored label replacement: the pattern `^.*L:?\s*` with the `i`
   * flag, replaced by nothing. The greedy `.*` stays on the first line and
   * backs off to the LAST occurrence of the label there; the colon and the
   * white space after that occurrence go with it.
   */
  function StripLabel(s: string, word: string): (r: string)
    ensures |r| <= |s|
    ensures IsSubsequence(r, s)
  {
    SuffixIsSubsequence(s, StripLabelLength(s, word));
    s[StripLabelLength(s, word)..]
  }

  /**
   * What one label replacement does: nothing when the first line has no
   * occurrence of the label; otherwise it removes everything up to the last
   * occurrence on the first line, the label itself, and what `:?\s*`
   * matches after it.
   */
  lemma StripLabelSpec(s: string, word: string)
    ensures (forall k: nat :: k <= FirstLineLength(s) ==> !LabelAt(s, k, word)) ==> StripLabel(s, word) == s
    ensures forall k: nat ::
      (k <= FirstLineLength(s) && LabelAt(s, k, word)
       && (forall j: nat :: k < j <= FirstLineLength(s) ==> !LabelAt(s, j, word)))
      ==> StripLabel(s, word) == s[k + |word| + ColonAndSpacesLength(s, k + |word|)..]
  {
    forall k: nat | k <= FirstLineLength(s) && LabelAt(s, k, word)
      && (forall j: nat :: k < j <= FirstLineLength(s) ==> !LabelAt(s, j, word))
      ensures StripLabel(s, word) == s[k + |word| + ColonAndSpacesLength(s, k + |word|)..]
    {
      StripLabelAtLast(s, word, k);
    }
  }

  /** The replacement when `k` is known to be the last first-line occurrence. */
  lemma StripLabelAtLast(s: string, word: string, k: nat)
    requires k <= FirstLineLength(s) && LabelAt(s, k, word)
    requires forall j: nat :: k < j <= FirstLineLength(s) ==> !LabelAt(s, j, word)
    ensures StripLabel(s, word) == s[k + |word| + ColonAndSpacesLength(s, k + |word|)..]
  {
    LastLabelUnique(s, word, FirstLineLength(s), k);
  }

  /** The occurrence that `LastLabelAt` finds is the only one with no later occurrence. */
  lemma LastLabelUnique(s: string, word: string, n: nat, k: nat)
    requires k <= n && LabelAt(s, k, word)
    requires forall j: nat :: k < j <= n ==> !LabelAt(s, j, word)
    ensures LastLabelAt(s, word, n) == Some(k)
  {
    var found := LastLabelAt(s, word, n);
    assert found.Some?;
    assert !(found.value < k);
  }

  predicate IsQuoteOrSpace(c: char) { c == '"' || c == '\'' || IsSpace(c) }

  /** `s.replace(/^["'\s]*|["'\s]*$/g, "")`: both alternatives fire, so both ends are stripped. */
  function StripQuotes(s: string): (r: string)
    ensures exists a, b :: (0 <= a <= b <= |s| && r == s[a..b]
      && (forall i :: 0 <= i < a ==> IsQuoteOrSpace(s[i]))
      && (forall i :: b <= i < |s| ==> IsQuoteOrSpace(s[i])))
    ensures r != [] ==> !IsQuoteOrSpace(r[0]) && !IsQuoteOrSpace(r[|r| - 1])
    ensures (forall i :: 0 <= i < |s| ==> !IsQuoteOrSpace(s[i])) ==> r == s
    ensures IsSubsequence(r, s)
  {
    var r := StripBoth(s, IsQuoteOrSpace);
    var a, b :| 0 <= a <= b <= |s| && r == s[a..b];
    SliceIsSubsequence(s, a, b);
    r
  }

  /** `s.replace(/\.$/, "")`: at most one final period goes. */
  function DropFinalPeriod(s: string): (r: string)
    ensures |s| > 0 && s[|s| - 1] == '.' ==> r == s[..|s| - 1]
    ensures !(|s| > 0 && s[|s| - 1] == '.') ==> r == s
    ensures IsSubsequence(r, s)
  {
    if |s| > 0 && s[|s| - 1] == '.' then
      SliceIsSubsequence(s, 0, |s| - 1);
      assert s[0..|s| - 1] == s[..|s| - 1];
      s[..|s| - 1]
    else
      SubsequenceRefl(s);
      s
  }

  /** Prepending `x` adds one `x` and no other character. */
  lemma CountPrepend(x: char, t: string)
    ensures multiset([x] + t)[x] == multiset(t)[x] + 1
    ensures forall c :: c != x ==> multiset([x] + t)[c] == multiset(t)[c]
  {
  }

  /** `s.replace(/\s+/g, "")`: every white-space character is deleted, the rest keep their order. */
  function RemoveSpaces(s: string): (r: string)
    ensures NoSpace(r)
    ensures IsSubsequence(r, s)
    ensures NoSpace(s) ==> r == s
    ensures |r| <= |s|
    ensures forall c :: !IsSpace(c) ==> multiset(r)[c] == multiset(s)[c]
  {
    if s == [] then []
    else if IsSpace(s[0]) then
      var r := RemoveSpaces(s[1..]);
      SubsequenceCons(r, s[0], s[1..]);
      assert [s[0]] + s[1..] == s;
      CountPrepend(s[0], s[1..]);
      r
    else
      var r := RemoveSpaces(s[1..]);
      assert ([s[0]] + r)[1..] == r;
      assert [s[0]] + s[1..] == s;
      CountPrepend(s[0], s[1..]);
      CountPrepend(s[0], r);
      [s[0]] + r
  }

  /** The anchored label replacements, one per word of `words`, applied in that order. */
  function StripLabels(s: string, words: seq<string>): (r: string)
    ensures IsSubsequence(r, s)
    decreases |words|, |s|
  {
    if words == [] then
      SubsequenceRefl(s);
      s
    else
      var t := StripLabel(s, words[0]);
      var r := StripLabels(t, words[1..]);
      SubsequenceTrans(r, t, s);
      r
  }

  /** One label replacement, then the rest. */
  lemma StripLabelsFirst(s: string, words: seq<string>)
    requires words != []
    ensures StripLabels(s, words) == StripLabels(StripLabel(s, words[0]), words[1..])
    ensures |words| == 1 ==> StripLabels(s, words) == StripLabel(s, words[0])
  {
  }

  /** The replacement chain of `getTextFromCaptchaFile`, before the length check. */
  function CleanText(text: string): (r: string)
    ensures NoSpace(r)
    ensures IsSubsequence(r, text)
  {
    var s4 := StripLabels(text, Labels);
    var s5 := StripQuotes(s4);
    var s6 := DropFinalPeriod(s5);
    var s7 := RemoveSpaces(s6);
    assert IsSubsequence(s7, text) by {
      SubsequenceTrans(s7, s6, s5); SubsequenceTrans(s7, s5, s4); SubsequenceTrans(s7, s4, text);
    }
    Trim(s7)
  }

  /** `[A-Z0-9]{4,8}` (with the `i` flag) can start at position `i`: four alphanumerics follow. */
  predicate RunAt(s: string, i: nat)
  {
    i + 4 <= |s| && forall j :: i <= j < i + 4 ==> IsAsciiAlnum(s[j])
  }

  /** The leftmost position, from `from` on, where a run of four alphanumerics starts. */
  function FindRun(s: string, from: nat): (r: Option<nat>)
    requires from <= |s|
    ensures r.Some? ==> from <= r.value && RunAt(s, r.value)
    ensures forall j: nat :: from <= j && (r.Some? ==> j < r.value) ==> !RunAt(s, j)
    decreases |s| - from
  {
    if from + 4 > |s| then None
    else if RunAt(s, from) then Some(from)
    else FindRun(s, from + 1)
  }

  /** How many characters the greedy `{4,8}` takes at a run start `i`. */
  function RunLength(s: string, i: nat): (n: nat)
    requires RunAt(s, i)
    ensures 4 <= n <= 8 && i + n <= |s|
    ensures forall j :: i <= j < i + n ==> IsAsciiAlnum(s[j])
    ensures n < 8 ==> i + n == |s| || !IsAsciiAlnum(s[i + n])
  {
    var m := LeadingRun(s[i..], IsAsciiAlnum);
    assert forall j :: i <= j < i + m ==> IsAsciiAlnum(s[j]) by {
      forall j | i <= j < i + m ensures IsAsciiAlnum(s[j]) { assert s[j] == s[i..][j - i]; }
    }
    if m > 8 then 8 else m
  }

  /**
   * The length check of `getTextFromCaptchaFile`: a cleaned text longer than
   * 10 characters gives way to its leftmost run of 4 to 8 alphanumerics, if
   * it has one.
   */
  function LengthFallback(c: string): (r: string)
    ensures exists a, b :: 0 <= a <= b <= |c| && r == c[a..b]
  {
    if |c| > 10 && FindRun(c, 0).Some? then
      var i := FindRun(c, 0).value;
      c[i..i + RunLength(c, i)]
    else
      assert c == c[0..|c|];
      c
  }

  /** `getTextFromCaptchaFile` after the recognition call. */
  function CaptchaAnswer(text: string): (r: string)
    ensures NoSpace(r)
    ensures IsSubsequence(r, text)
  {
    var c := CleanText(text);
    var r := LengthFallback(c);
    var a, b :| 0 <= a <= b <= |c| && r == c[a..b];
    SliceOfSubsequence(c, a, b, text);
    SliceNoSpace(c, a, b);
    r
  }

  /**
   * The length rule: a cleaned text of at most 10 characters, or one with no
   * run of four alphanumerics, is kept; otherwise the answer is the run that
   * starts at the leftmost position where four alphanumerics follow, as long
   * as the greedy `{4,8}` takes it (see `RunLength`).
   */
  lemma LengthFallbackSpec(c: string)
    ensures |c| <= 10 ==> LengthFallback(c) == c
    ensures |c| > 10 && (forall i: nat :: !RunAt(c, i)) ==> LengthFallback(c) == c
    ensures forall i: nat :: |c| > 10 && RunAt(c, i) && (forall j: nat :: j < i ==> !RunAt(c, j)) ==>
      LengthFallback(c) == c[i..i + RunLength(c, i)]
  {
    forall i: nat | |c| > 10 && RunAt(c, i) && (forall j: nat :: j < i ==> !RunAt(c, j))
      ensures LengthFallback(c) == c[i..i + RunLength(c, i)]
    {
      assert FindRun(c, 0) == Some(i);
    }
  }

  /** The answer never contains white space, so the caller's extra `trim()` changes nothing. */
  lemma AnswerIsTrimmed(text: string)
    ensures Trim(CaptchaAnswer(text)) == CaptchaAnswer(text)
  {
  }

  // Properties of the whole chain.

  /** A label cannot start at `k` when its `i`-th character does not match there. */
  lemma NotLabelAt(s: string, k: nat, word: string, i: nat)
    requires i < |word| && k + i < |s| && UpperChar(s[k + i]) != UpperChar(word[i])
    ensures !LabelAt(s, k, word)
  {
    if k + |word| <= |s| {
      assert ToUpper(s[k..k + |word|])[i] == UpperChar(s[k + i]);
    }
  }

  /** Occurrences of a label in the tail of a concatenation are occurrences in the tail. */
  lemma LabelAtTail(h: string, t: string, j: nat, word: string)
    ensures LabelAt(h + t, |h| + j, word) == LabelAt(t, j, word)
  {
    if |h| + j + |word| <= |h + t| {
      assert (h + t)[|h| + j..|h| + j + |word|] == t[j..j + |word|];
    }
  }

  /** None of the four labels occurs anywhere in `p`, in any case. */
  ghost predicate HasNoLabel(p: string)
  {
    forall k: nat, w :: w in Labels ==> !LabelAt(p, k, w)
  }

  /** Text without quote, space or final period is left alone by the steps after the labels. */
  lemma CleanPayload(p: string)
    requires forall i :: 0 <= i < |p| ==> !IsQuoteOrSpace(p[i])
    requires p == [] || p[|p| - 1] != '.'
    ensures Trim(RemoveSpaces(DropFinalPeriod(StripQuotes(p)))) == p
  {
    var s5 := StripQuotes(p);
    assert s5 == p;
    assert DropFinalPeriod(p) == p;
    assert NoSpace(p) by {
      forall i | 0 <= i < |p| ensures !IsSpace(p[i]) {
        assert !IsQuoteOrSpace(p[i]);
      }
    }
    assert RemoveSpaces(p) == p;
    assert Trim(p) == p;
  }

  /** Replacements for labels that do not occur change nothing. */
  lemma {:induction false} StripLabelsUnchanged(p: string, words: seq<string>)
    requires forall k: nat, w :: w in words ==> !LabelAt(p, k, w)
    ensures StripLabels(p, words) == p
    decreases |words|
  {
    if words != [] {
      NoLabelUnchanged(p, words[0]);
      StripLabelsUnchanged(p, words[1..]);
    }
  }

  lemma NoLabelUnchanged(p: string, word: string)
    requires forall k: nat :: !LabelAt(p, k, word)
    ensures StripLabel(p, word) == p
  {
    StripLabelSpec(p, word);
  }

  /** The characters of a reply `pre + lab + ": " + p`, position by position. */
  lemma ReplyLayout(pre: string, lab: string, p: string)
    requires forall i :: 0 <= i < |pre| ==> !IsLineTerminator(pre[i])
    requires |lab| == |Labels[0]| && ToUpper(lab) == ToUpper(Labels[0])
    requires NoSpace(p)
    ensures var s := pre + lab + ": " + p; var o := |pre|;
      && |s| == o + 9 + |p|
      && (forall d :: 0 <= d < 7 ==> UpperChar(s[o + d]) == UpperChar(Labels[0][d]))
      && s[o + 7] == ':' && s[o + 8] == ' ' && s[o + 9..] == p
      && FirstLineLength(s) == |s|
  {
    var s := pre + lab + ": " + p;
    var o := |pre|;
    forall d | 0 <= d < 7 ensures UpperChar(s[o + d]) == UpperChar(Labels[0][d]) {
      assert s[o + d] == lab[d];
      assert ToUpper(lab)[d] == ToUpper(Labels[0])[d];
    }
    forall i | 0 <= i < |s| ensures !IsLineTerminator(s[i]) {
      if i < o {
        assert s[i] == pre[i];
      } else if i < o + 7 {
        assert UpperChar(s[i]) == UpperChar(Labels[0][i - o]);
      } else if i >= o + 9 {
        assert s[i] == p[i - o - 9];
      }
    }
    assert s[o + 9..] == p;
  }

  /** In such a reply the label at `|pre|` is the last one on the line. */
  lemma CaptchaLabelIsLast(pre: string, lab: string, p: string)
    requires forall i :: 0 <= i < |pre| ==> !IsLineTerminator(pre[i])
    requires |lab| == |Labels[0]| && ToUpper(lab) == ToUpper(Labels[0])
    requires NoSpace(p)
    requires forall k: nat :: !LabelAt(p, k, Labels[0])
    ensures var s := pre + lab + ": " + p;
      forall j: nat :: |pre| < j <= FirstLineLength(s) ==> !LabelAt(s, j, Labels[0])
  {
    var h := pre + lab + ": ";
    var s := h + p;
    var o := |pre|;
    var w := Labels[0];
    ReplyLayout(pre, lab, p);
    forall j: nat | o < j <= FirstLineLength(s) ensures !LabelAt(s, j, w) {
      if j >= o + 9 {
        LabelAtTail(h, p, j - o - 9, w);
      } else if j == o + 4 {
        NotLabelAt(s, j, w, 1);
      } else {
        NotLabelAt(s, j, w, 0);
      }
    }
  }

  /** The first label replacement takes `pre + lab + ": "` off such a reply. */
  lemma StripCaptchaLabel(pre: string, lab: string, p: string)
    requires forall i :: 0 <= i < |pre| ==> !IsLineTerminator(pre[i])
    requires |lab| == |Labels[0]| && ToUpper(lab) == ToUpper(Labels[0])
    requires NoSpace(p)
    requires forall k: nat :: !LabelAt(p, k, Labels[0])
    ensures StripLabel(pre + lab + ": " + p, Labels[0]) == p
  {
    var s := pre + lab + ": " + p;
    var o := |pre|;
    ReplyLayout(pre, lab, p);
    assert s[o..o + 7] == lab;
    CaptchaLabelIsLast(pre, lab, p);
    StripLabelAtLast(s, Labels[0], o);
    assert ColonAndSpacesLength(s, o + 7) == 2 by {
      assert o + 9 < |s| ==> s[o + 9] == p[0];
    }
  }

  /**
   * A one-line reply `<anything>captcha: P`, with the label in any case,
   * yields exactly `P` when `P` has no white space, quote, label or final
   * period and is at most 10 characters long.
   */
  lemma LabelledAnswer(pre: string, lab: string, p: string)
    requires forall i :: 0 <= i < |pre| ==> !IsLineTerminator(pre[i])
    requires |lab| == |Labels[0]| && ToUpper(lab) == ToUpper(Labels[0])
    requires forall i :: 0 <= i < |p| ==> !IsQuoteOrSpace(p[i])
    requires HasNoLabel(p)
    requires p == [] || p[|p| - 1] != '.'
    requires |p| <= 10
    ensures CaptchaAnswer(pre + lab + ": " + p) == p
  {
    assert NoSpace(p) by {
      forall i | 0 <= i < |p| ensures !IsSpace(p[i]) {
        assert !IsQuoteOrSpace(p[i]);
      }
    }
    StripCaptchaLabel(pre, lab, p);
    CleanPayload(p);
    var s := pre + lab + ": " + p;
    StripLabelsFirst(s, Labels);
    StripLabelsUnchanged(p, Labels[1..]);
    assert CleanText(s) == Trim(RemoveSpaces(DropFinalPeriod(StripQuotes(p))));
    LengthFallbackSpec(p);
  }

  // The steps of `QuoteBeforePeriod`, one lemma each.

  lemma ExampleFirstLabel(s0: string, s1: string)
    requires s1 == "es: \"aB3k9\"." && s0 == "El captcha " + s1
    ensures StripLabel(s0, Labels[0]) == s1
  {
    assert s0[3..10] == Labels[0];
    ExampleFirstLabelIsLast(s0, s1);
    StripLabelAtLast(s0, Labels[0], 3);
    ExampleFirstSeparator(s0, s1);
    assert s0[11..] == s1;
  }

  lemma ExampleFirstLabelIsLast(s0: string, s1: string)
    requires s1 == "es: \"aB3k9\"." && s0 == "El captcha " + s1
    ensures forall j: nat :: 3 < j <= |s0| ==> !LabelAt(s0, j, Labels[0])
  {
    forall j: nat | 3 < j <= |s0| ensures !LabelAt(s0, j, Labels[0]) {
      if j == 7 { NotLabelAt(s0, j, Labels[0], 1); }
      else if j < 17 { NotLabelAt(s0, j, Labels[0], 0); }
    }
  }

  lemma ExampleFirstSeparator(s0: string, s1: string)
    requires s1 == "es: \"aB3k9\"." && s0 == "El captcha " + s1
    ensures ColonAndSpacesLength(s0, 10) == 1
  {
    assert s0[10] == ' ' && s0[11] == 'e';
  }

  lemma ExampleSecondLabel(s1: string)
    requires s1 == "es: \"aB3k9\"."
    ensures StripLabel(s1, Labels[1]) == s1
  {
    forall j: nat ensures !LabelAt(s1, j, Labels[1]) {
      if j < |s1| { NotLabelAt(s1, j, Labels[1], 0); }
    }
    NoLabelUnchanged(s1, Labels[1]);
  }

  lemma ExampleThirdLabel(s1: string, s3: string)
    requires s3 == "\"aB3k9\"." && s1 == "es: " + s3
    ensures StripLabel(s1, Labels[2]) == s3
  {
    assert s1[0..2] == Labels[2];
    ExampleThirdLabelIsLast(s1);
    StripLabelAtLast(s1, Labels[2], 0);
    ExampleThirdSeparator(s1);
    assert s1[4..] == s3;
  }

  lemma ExampleThirdLabelIsLast(s1: string)
    requires s1 == "es: \"aB3k9\"."
    ensures forall j: nat :: 0 < j <= |s1| ==> !LabelAt(s1, j, Labels[2])
  {
    forall j: nat | 0 < j <= |s1| ensures !LabelAt(s1, j, Labels[2]) {
      if j < |s1| { NotLabelAt(s1, j, Labels[2], 0); }
    }
  }

  lemma ExampleThirdSeparator(s1: string)
    requires s1 == "es: \"aB3k9\"."
    ensures ColonAndSpacesLength(s1, 2) == 2
  {
    assert s1[2] == ':' && s1[3] == ' ' && s1[4] == '"';
  }

  lemma ExampleFourthLabel(s3: string)
    requires s3 == "\"aB3k9\"."
    ensures StripLabel(s3, Labels[3]) == s3
  {
    forall j: nat ensures !LabelAt(s3, j, Labels[3]) {
      if j < |s3| { NotLabelAt(s3, j, Labels[3], 0); }
    }
    NoLabelUnchanged(s3, Labels[3]);
  }

  lemma ExampleAfterLabels(s3: string, s5: string, s6: string)
    requires s3 == "\"aB3k9\"." && s5 == "aB3k9\"." && s6 == "aB3k9\""
    ensures Trim(RemoveSpaces(DropFinalPeriod(StripQuotes(s3)))) == s6
  {
    StripBothIs(s3, IsQuoteOrSpace, 1, 8);
    assert s3[1..8] == s5;
    assert s5[..|s5| - 1] == s6;
    assert DropFinalPeriod(s5) == s6;
    assert NoSpace(s6);
  }

  /**
   * The quote strip runs before the period strip, so a quoted answer
   * followed by a period keeps its closing quote.
   */
  lemma QuoteBeforePeriod()
    ensures CaptchaAnswer("El captcha es: \"aB3k9\".") == "aB3k9\""
  {
    ExampleLabels();
    ExampleAfterLabels("\"aB3k9\".", "aB3k9\".", "aB3k9\"");
    assert CleanText("El captcha es: \"aB3k9\".") == "aB3k9\"";
    LengthFallbackSpec("aB3k9\"");
  }

  /** The four label replacements on the example reply. */
  lemma ExampleLabels()
    ensures StripLabels("El captcha es: \"aB3k9\".", Labels) == "\"aB3k9\"."
  {
    var s3 := "\"aB3k9\".";
    var s1 := "es: " + s3;
    var s0 := "El captcha " + s1;
    assert s0 == "El captcha es: \"aB3k9\".";
    ExampleFirstLabels(s0, s1);
    ExampleLastLabels(s1, s3);
  }

  lemma ExampleFirstLabels(s0: string, s1: string)
    requires s1 == "es: \"aB3k9\"." && s0 == "El captcha " + s1
    ensures StripLabels(s0, Labels) == StripLabels(s1, Labels[2..])
  {
    ExampleFirstLabel(s0, s1);
    StripLabelsFirst(s0, Labels);
    ExampleSecondLabel(s1);
    StripLabelsFirst(s1, Labels[1..]);
    assert Labels[1..][1..] == Labels[2..];
  }

  lemma ExampleLastLabels(s1: string, s3: string)
    requires s3 == "\"aB3k9\"." && s1 == "es: " + s3
    ensures StripLabels(s1, Labels[2..]) == s3
  {
    ExampleThirdLabel(s1, s3);
    StripLabelsFirst(s1, Labels[2..]);
    ExampleFourthLabel(s3);
    StripLabelsFirst(s3, Labels[3..]);
    assert Labels[2..][1..] == Labels[3..];
  }
}
