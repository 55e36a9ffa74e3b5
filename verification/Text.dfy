/** The Python string operations the capture-log parsers apply to each
    field: `"".join`, `str.replace(pat, "")`, `str.upper()`, `str.zfill`,
    `str.strip()` and decimal rendering of an int in an f-string. */
module Text {

  /** `"".join(parts)`. */
  function Concat(parts: seq<string>): string
  {
    if |parts| == 0 then "" else Concat(parts[..|parts| - 1]) + parts[|parts| - 1]
  }

  lemma {:induction false} ConcatAppend(a: seq<string>, b: seq<string>)
    ensures Concat(a + b) == Concat(a) + Concat(b)
  {
    if |b| > 0 {
      var b' := b[..|b| - 1];
      assert (a + b)[..|a + b| - 1] == a + b';
      ConcatAppend(a, b');
    } else {
      assert a + b == a;
    }
  }

  /** Every part whose length is at least `n` makes the join at least
      `n` long as soon as there is one part. */
  lemma {:induction false} ConcatLength(parts: seq<string>, n: nat)
    requires |parts| > 0
    requires forall i :: 0 <= i < |parts| ==> |parts[i]| >= n
    ensures |Concat(parts)| >= n
  {
    if |parts| > 1 {
      ConcatLength(parts[..|parts| - 1], n);
    }
  }

  /** `s[i:j]` for non-negative bounds: clipped to the string. */
  function Slice(s: string, i: nat, j: nat): (r: string)
    ensures i <= j <= |s| ==> r == s[i..j]
    ensures i <= |s| <= j ==> r == s[i..]
    ensures |s| <= i || j <= i ==> r == []
  {
    var hi := if j <= |s| then j else |s|;
    var lo := if i <= hi then i else hi;
    s[lo..hi]
  }

  /** `pat` occurs in `s` at position `i`. */
  predicate OccursAt(s: string, pat: string, i: int) {
    0 <= i <= |s| && pat <= s[i..]
  }

  /** `pat` occurs somewhere in `s`. */
  predicate Contains(s: string, pat: string) {
    exists i :: 0 <= i <= |s| && OccursAt(s, pat, i)
  }

  /** `s.replace(pat, "")`: occurrences removed left to right without
      rescanning the text that the removal joins together. Text without
      an occurrence is returned unchanged; otherwise at least one
      occurrence is removed. */
  function RemoveAll(s: string, pat: string): (r: string)
    requires |pat| > 0
    ensures |r| <= |s|
    ensures !Contains(s, pat) ==> r == s
    ensures Contains(s, pat) ==> |r| <= |s| - |pat|
    decreases |s|
  {
    if |s| < |pat| then
      assert forall i :: !OccursAt(s, pat, i);
      s
    else if pat <= s then
      assert s[0..] == s && OccursAt(s, pat, 0);
      RemoveAll(s[|pat|..], pat)
    else
      var rest := s[1..];
      ContainsTail(s, pat);
      [s[0]] + RemoveAll(rest, pat)
  }

  /** An occurrence in `s` that is not at its start is an occurrence in
      `s[1..]`, and conversely. */
  lemma ContainsTail(s: string, pat: string)
    requires |s| > 0 && !(pat <= s)
    ensures Contains(s, pat) <==> Contains(s[1..], pat)
  {
    if Contains(s, pat) {
      var i :| 0 <= i <= |s| && OccursAt(s, pat, i);
      assert i > 0 by {
        assert s[0..] == s;
      }
      assert s[1..][i - 1..] == s[i..];
      assert OccursAt(s[1..], pat, i - 1);
    }
    if Contains(s[1..], pat) {
      var j :| 0 <= j <= |s[1..]| && OccursAt(s[1..], pat, j);
      assert s[1..][j..] == s[j + 1..];
      assert OccursAt(s, pat, j + 1);
    }
  }

  /** An occurrence in a tail is an occurrence in the whole text. */
  lemma ContainsInTail(s: string, pat: string)
    requires |s| > 0 && Contains(s[1..], pat)
    ensures Contains(s, pat)
  {
    var j :| 0 <= j <= |s[1..]| && OccursAt(s[1..], pat, j);
    assert s[1..][j..] == s[j + 1..];
    assert OccursAt(s, pat, j + 1);
  }

  /** Python's rule in full: the leftmost occurrence is removed, the text
      before it is kept, and the scan resumes after it without looking
      back. With `!Contains(s, pat) ==> RemoveAll(s, pat) == s` this fixes
      the result on every text. */
  lemma {:induction false} RemoveLeftmost(a: string, pat: string, b: string)
    requires |pat| > 0 && !Contains(a + pat[..|pat| - 1], pat)
    ensures RemoveAll(a + pat + b, pat) == a + RemoveAll(b, pat)
    decreases |a|
  {
    if |a| == 0 {
      assert a + pat + b == pat + b;
      RemoveLeading(pat, b);
    } else {
      var tail := a[1..] + pat + b;
      NoEarlierTail(a, pat);
      RemoveLeftmost(a[1..], pat, b);
      NoEarlierOccurrence(a, pat, b);
      SkipFirst(a, pat, b, tail);
      ConsAppend(a, RemoveAll(b, pat));
    }
  }

  /** The condition of `RemoveLeftmost` carries over to the tail of `a`. */
  lemma NoEarlierTail(a: string, pat: string)
    requires |a| > 0 && |pat| > 0 && !Contains(a + pat[..|pat| - 1], pat)
    ensures !Contains(a[1..] + pat[..|pat| - 1], pat)
  {
    var w := a + pat[..|pat| - 1];
    assert w[1..] == a[1..] + pat[..|pat| - 1];
    if Contains(w[1..], pat) {
      ContainsInTail(w, pat);
    }
  }

  /** The first character of `a` is kept and the scan moves on. */
  lemma SkipFirst(a: string, pat: string, b: string, tail: string)
    requires |a| > 0 && |pat| > 0 && !(pat <= a + pat + b)
    requires tail == a[1..] + pat + b
    ensures RemoveAll(a + pat + b, pat) == [a[0]] + RemoveAll(tail, pat)
  {
    var s := a + pat + b;
    DropFirst(a, pat, b);
    RemoveAllSkip(s, pat);
    assert s[1..] == tail && s[0] == a[0];
  }

  lemma DropFirst(a: string, pat: string, b: string)
    requires |a| > 0
    ensures (a + pat + b)[0] == a[0]
    ensures (a + pat + b)[1..] == a[1..] + pat + b
  {
  }

  /** Text that starts with a character followed by an occurrence does
      not itself start with one, unless the occurrence started earlier. */
  lemma NoEarlierOccurrence(a: string, pat: string, b: string)
    requires |a| > 0 && |pat| > 0 && !Contains(a + pat[..|pat| - 1], pat)
    ensures !(pat <= a + pat + b)
  {
    var w := a + pat[..|pat| - 1];
    assert (a + pat + b)[..|pat|] == w[..|pat|];
    assert w[0..] == w;
    assert pat <= a + pat + b ==> OccursAt(w, pat, 0);
  }

  /** Text not starting with an occurrence keeps its first character. */
  lemma RemoveAllSkip(s: string, pat: string)
    requires |s| > 0 && |pat| > 0 && !(pat <= s)
    ensures RemoveAll(s, pat) == [s[0]] + RemoveAll(s[1..], pat)
  {
    if |s| < |pat| {
      assert RemoveAll(s, pat) == s;
      assert RemoveAll(s[1..], pat) == s[1..];
      assert s == [s[0]] + s[1..];
    } else {
      assert RemoveAll(s, pat) == [s[0]] + RemoveAll(s[1..], pat);
    }
  }

  lemma ConsAppend(a: string, t: string)
    requires |a| > 0
    ensures [a[0]] + (a[1..] + t) == a + t
  {
    assert a == [a[0]] + a[1..];
  }

  /** A leading occurrence is removed and the scan resumes after it. */
  lemma RemoveLeading(pat: string, t: string)
    requires |pat| > 0
    ensures RemoveAll(pat + t, pat) == RemoveAll(t, pat)
  {
    assert pat <= pat + t;
    assert (pat + t)[|pat|..] == t;
  }

  function UpperChar(c: char): char
  {
    if 'a' <= c <= 'z' then (c as int - 32) as char else c
  }

  /** `s.upper()` on ASCII letters. */
  function ToUpper(s: string): (r: string)
    ensures |r| == |s|
    ensures forall i :: 0 <= i < |s| ==> r[i] == UpperChar(s[i])
  {
    seq(|s|, i requires 0 <= i < |s| => UpperChar(s[i]))
  }

  /** `s.zfill(width)`: left-pad with '0' to `width`, keeping a leading
      sign character in front of the padding. */
  function ZFill(s: string, width: nat): (r: string)
    ensures |r| == if |s| >= width then |s| else width
    ensures |s| >= width ==> r == s
    ensures |s| < width && !HasSign(s) ==>
      r[width - |s|..] == s && forall i :: 0 <= i < width - |s| ==> r[i] == '0'
    ensures |s| < width && HasSign(s) ==>
      r[0] == s[0] && r[width - |s| + 1..] == s[1..] && forall i :: 1 <= i <= width - |s| ==> r[i] == '0'
  {
    if |s| >= width then s
    else
      var pad := seq(width - |s|, _ => '0');
      if HasSign(s) then [s[0]] + pad + s[1..] else pad + s
  }

  /** `s` starts with '+' or '-'. */
  predicate HasSign(s: string) {
    |s| > 0 && (s[0] == '+' || s[0] == '-')
  }

  /** Python's `str.isspace()` characters. */
  predicate IsSpace(c: char) {
    c == ' ' || '\t' <= c <= '\r' || '\U{1c}' <= c <= '\U{1f}'
    || c == '\U{85}' || c == '\U{a0}' || c == '\U{1680}'
    || '\U{2000}' <= c <= '\U{200a}' || c == '\U{2028}' || c == '\U{2029}'
    || c == '\U{202f}' || c == '\U{205f}' || c == '\U{3000}'
  }

  /** `s.lstrip()`: the suffix of `s` left after its leading whitespace. */
  function StripLeft(s: string): (r: string)
    ensures |r| <= |s| && r == s[|s| - |r|..]
    ensures forall i :: 0 <= i < |s| - |r| ==> IsSpace(s[i])
    ensures |r| > 0 ==> !IsSpace(r[0])
  {
    if |s| > 0 && IsSpace(s[0]) then
      var r := StripLeft(s[1..]);
      assert s[1..][|s| - 1 - |r|..] == s[|s| - |r|..];
      r
    else s
  }

  /** `s.rstrip()`: the prefix of `s` left before its trailing whitespace. */
  function StripRight(s: string): (r: string)
    ensures |r| <= |s| && r == s[..|r|]
    ensures forall i :: |r| <= i < |s| ==> IsSpace(s[i])
    ensures |r| > 0 ==> !IsSpace(r[|r| - 1])
  {
    if |s| > 0 && IsSpace(s[|s| - 1]) then
      var r := StripRight(s[..|s| - 1]);
      assert s[..|s| - 1][..|r|] == s[..|r|];
      r
    else s
  }

  /** `s.strip()`: leading and trailing whitespace removed. */
  function Strip(s: string): (r: string)
    ensures exists i :: StrippedAt(s, r, i)
    ensures |r| > 0 ==> !IsSpace(r[0]) && !IsSpace(r[|r| - 1])
  {
    var left := StripLeft(s);
    var r := StripRight(left);
    StripsCompose(s, left, r);
    r
  }

  /** Whitespace taken off the front of `s` to give `left`, then off the
      back of `left` to give `r`, leaves `r` inside `s` with only
      whitespace around it. */
  lemma StripsCompose(s: string, left: string, r: string)
    requires |left| <= |s| && left == s[|s| - |left|..]
    requires forall k :: 0 <= k < |s| - |left| ==> IsSpace(s[k])
    requires |r| <= |left| && r == left[..|r|]
    requires forall k :: |r| <= k < |left| ==> IsSpace(left[k])
    ensures StrippedAt(s, r, |s| - |left|)
  {
    var i := |s| - |left|;
    forall k | i + |r| <= k < |s|
      ensures IsSpace(s[k])
    {
      assert s[k] == left[k - i];
    }
  }

  /** `r` is `s[i..i + |r|]` and every character of `s` outside that
      range is whitespace. */
  predicate StrippedAt(s: string, r: string, i: int) {
    0 <= i <= |s| - |r| && r == s[i..i + |r|]
    && (forall k :: 0 <= k < i ==> IsSpace(s[k]))
    && (forall k :: i + |r| <= k < |s| ==> IsSpace(s[k]))
  }

  predicate IsDecimalDigit(c: char) {
    '0' <= c <= '9'
  }

  predicate IsDecimalString(s: string) {
    forall i :: 0 <= i < |s| ==> IsDecimalDigit(s[i])
  }

  /** The number a string of decimal digits spells. */
  function DecimalValue(s: string): nat
    requires IsDecimalString(s)
  {
    if |s| == 0 then 0 else DecimalValue(s[..|s| - 1]) * 10 + (s[|s| - 1] as int - '0' as int)
  }

  /** `s` is a non-empty run of decimal digits spelling `n`. */
  predicate SpellsDecimal(s: string, n: nat) {
    |s| > 0 && IsDecimalString(s) && DecimalValue(s) == n
  }

  function DecimalDigit(d: nat): (c: char)
    requires d < 10
    ensures IsDecimalDigit(c) && c as int - '0' as int == d
  {
    ('0' as int + d) as char
  }

  /** `str(n)` for a non-negative int: decimal digits spelling `n`, with
      no leading zero. */
  function NatToString(n: nat): (r: string)
    ensures |r| > 0 && IsDecimalString(r)
    ensures DecimalValue(r) == n
    ensures r[0] == '0' <==> n == 0
    decreases n
  {
    if n < 10 then [DecimalDigit(n)]
    else
      var r := NatToString(n / 10) + [DecimalDigit(n % 10)];
      assert r[..|r| - 1] == NatToString(n / 10);
      r
  }
}
