/** String primitives the assistant relies on: ASCII lower-casing (in place of
    Python's `str.lower`), `str.strip()` with Python's whitespace set, the
    substring test `needle in hay`, and `sep.join(xs)`. */
module Text {

  predicate IsUpperAscii(c: char) {
    'A' <= c <= 'Z'
  }

  /** The lower-case counterpart of an ASCII capital; every other character is kept. */
  function LowerChar(c: char): char {
    if IsUpperAscii(c) then (c as int + ('a' as int - 'A' as int)) as char else c
  }

  /** A string with no ASCII capital in it. */
  predicate IsLower(s: string) {
    forall i :: 0 <= i < |s| ==> !IsUpperAscii(s[i])
  }

  /** ASCII lower-casing: same length, capitals replaced by their small letters. */
  function Lower(s: string): (r: string)
    ensures |r| == |s|
    ensures IsLower(r)
    ensures forall i :: 0 <= i < |s| && !IsUpperAscii(s[i]) ==> r[i] == s[i]
    ensures forall i :: 0 <= i < |s| && IsUpperAscii(s[i]) ==> r[i] as int == s[i] as int + 32
  {
    seq(|s|, i requires 0 <= i < |s| => LowerChar(s[i]))
  }

  /** Lower-casing changes nothing in a string that has no capitals. */
  lemma LowerOfLower(s: string)
    requires IsLower(s)
    ensures Lower(s) == s
  {
  }

  /** Lower-casing twice is lower-casing once. */
  lemma LowerIdempotent(s: string)
    ensures Lower(Lower(s)) == Lower(s)
  {
    LowerOfLower(Lower(s));
  }

  /** Lower-casing works character by character, so it distributes over concatenation. */
  lemma LowerConcat(a: string, b: string)
    ensures Lower(a + b) == Lower(a) + Lower(b)
  {
  }

  /** `needle` occurs in `hay` starting at position `i`. */
  predicate OccursAt(hay: string, needle: string, i: nat) {
    i + |needle| <= |hay| && hay[i..i + |needle|] == needle
  }

  /** Python's `needle in hay` for strings: some start position holds the needle. */
  predicate Contains(hay: string, needle: string) {
    exists i :: 0 <= i <= |hay| - |needle| && OccursAt(hay, needle, i)
  }

  /** A needle found at a known position is contained. */
  lemma ContainsAt(hay: string, needle: string, i: nat)
    requires OccursAt(hay, needle, i)
    ensures Contains(hay, needle)
  {
  }

  /** The position of a contained needle. */
  lemma ContainsPosition(hay: string, needle: string) returns (i: nat)
    requires Contains(hay, needle)
    ensures OccursAt(hay, needle, i)
  {
    i :| 0 <= i <= |hay| - |needle| && OccursAt(hay, needle, i);
  }

  /** The empty string is contained in every string, as `'' in s` is always true. */
  lemma ContainsEmpty(hay: string)
    ensures Contains(hay, "")
  {
    assert OccursAt(hay, "", 0);
  }

  /** A needle with a character the haystack lacks is not contained. */
  lemma MissingCharNotContained(hay: string, needle: string, j: nat)
    requires j < |needle| && needle[j] !in hay
    ensures !Contains(hay, needle)
  {
    forall i: nat | i + |needle| <= |hay|
      ensures !OccursAt(hay, needle, i)
    {
      assert hay[i..i + |needle|][j] == hay[i + j];
    }
  }

  /** A needle whose first character occurs in the haystack only at position
      `k`, and which does not start there, is not contained. */
  lemma SingleCandidateNotContained(hay: string, needle: string, k: nat)
    requires |needle| > 0 && k < |hay|
    requires needle[0] !in hay[..k] && needle[0] !in hay[k + 1..]
    requires !OccursAt(hay, needle, k)
    ensures !Contains(hay, needle)
  {
    forall i: nat | i + |needle| <= |hay| && i != k
      ensures !OccursAt(hay, needle, i)
    {
      assert hay[i..i + |needle|][0] == hay[i];
      if i < k {
        assert hay[..k][i] == hay[i];
      } else {
        assert hay[k + 1..][i - k - 1] == hay[i];
      }
    }
  }

  /** Python's `sep.join(xs)`. */
  function Join(sep: string, xs: seq<string>): string
    decreases |xs|
  {
    if |xs| == 0 then ""
    else if |xs| == 1 then xs[0]
    else xs[0] + sep + Join(sep, xs[1..])
  }

  /** Every joined element appears in the joined text. */
  lemma {:induction false} JoinContainsEach(sep: string, xs: seq<string>, k: nat)
    requires k < |xs|
    ensures Contains(Join(sep, xs), xs[k])
    decreases |xs|
  {
    var joined := Join(sep, xs);
    if k == 0 {
      assert |xs| > 1 ==> joined == xs[0] + (sep + Join(sep, xs[1..]));
      assert joined[0..|xs[0]|] == xs[0];
      ContainsAt(joined, xs[0], 0);
    } else {
      JoinContainsEach(sep, xs[1..], k - 1);
      var rest := Join(sep, xs[1..]);
      var i := ContainsPosition(rest, xs[k]);
      var pre := xs[0] + sep;
      assert joined == pre + rest;
      assert (pre + rest)[|pre| + i..|pre| + i + |xs[k]|] == rest[i..i + |xs[k]|];
      ContainsAt(joined, xs[k], |pre| + i);
    }
  }

  /** The characters Python's `str.isspace()` accepts, which `str.strip()` removes. */
  predicate IsSpace(c: char) {
    c == ' ' || ('\t' <= c <= '\r') || ('\U{1c}' <= c <= '\U{1f}')
    || c == '\U{85}' || c == '\U{a0}' || c == '\U{1680}'
    || ('\U{2000}' <= c <= '\U{200a}')
    || c == '\U{2028}' || c == '\U{2029}' || c == '\U{202f}' || c == '\U{205f}' || c == '\U{3000}'
  }

  /** Every character of `s` from `lo` up to (not including) `hi` is whitespace. */
  predicate SpacesIn(s: string, lo: nat, hi: nat)
    requires lo <= hi <= |s|
  {
    forall i :: lo <= i < hi ==> IsSpace(s[i])
  }

  predicate AllSpace(s: string) {
    SpacesIn(s, 0, |s|)
  }

  /** Where `s.lstrip()` starts: the length of the leading whitespace. */
  function FirstNonSpace(s: string): (a: nat)
    ensures a <= |s| && SpacesIn(s, 0, a)
    ensures a == |s| || !IsSpace(s[a])
    decreases |s|
  {
    if |s| > 0 && IsSpace(s[0]) then
      var a' := FirstNonSpace(s[1..]);
      assert forall i :: 1 <= i < a' + 1 ==> s[i] == s[1..][i - 1];
      a' + 1
    else 0
  }

  /** Where `s.rstrip()` ends: the length without the trailing whitespace. */
  function EndNonSpace(s: string): (b: nat)
    ensures b <= |s| && SpacesIn(s, b, |s|)
    ensures b == 0 || !IsSpace(s[b - 1])
    decreases |s|
  {
    if |s| > 0 && IsSpace(s[|s| - 1]) then
      var b := EndNonSpace(s[..|s| - 1]);
      assert forall i :: b <= i < |s| - 1 ==> s[i] == s[..|s| - 1][i];
      b
    else |s|
  }

  /** `s.lstrip()`. */
  function StripLeft(s: string): string {
    s[FirstNonSpace(s)..]
  }

  /** `s.rstrip()`. */
  function StripRight(s: string): string {
    s[..EndNonSpace(s)]
  }

  /** `s.strip()`: whitespace removed from both ends; what is left starts and ends with a non-space. */
  function Strip(s: string): (r: string)
    ensures |r| <= |s|
    ensures |r| == 0 || (!IsSpace(r[0]) && !IsSpace(r[|r| - 1]))
  {
    StripRight(StripLeft(s))
  }

  /** The stripped string is a slice of the input with only whitespace cut off either side. */
  lemma StripBounds(s: string) returns (a: nat, b: nat)
    ensures a <= b <= |s|
    ensures Strip(s) == s[a..b]
    ensures SpacesIn(s, 0, a) && SpacesIn(s, b, |s|)
  {
    a := FirstNonSpace(s);
    var l := s[a..];
    var e := EndNonSpace(l);
    b := a + e;
    assert Strip(s) == l[..e];
    assert forall i :: b <= i < |s| ==> s[i] == l[i - a];
  }

  /** Stripping a stripped string changes nothing. */
  lemma StripIdempotent(s: string)
    ensures Strip(Strip(s)) == Strip(s)
  {
    var t := Strip(s);
    assert FirstNonSpace(t) == 0;
    assert EndNonSpace(t) == |t|;
  }

  /** Leading whitespace in front of text that does not start with whitespace
      is exactly what `lstrip` removes. */
  lemma {:induction false} StripLeftPadding(pad: string, rest: string)
    requires AllSpace(pad)
    requires |rest| == 0 || !IsSpace(rest[0])
    ensures FirstNonSpace(pad + rest) == |pad|
    ensures StripLeft(pad + rest) == rest
    decreases |pad|
  {
    if |pad| == 0 {
      assert pad + rest == rest;
    } else {
      assert (pad + rest)[1..] == pad[1..] + rest;
      assert AllSpace(pad[1..]) by {
        assert forall i :: 0 <= i < |pad| - 1 ==> pad[1..][i] == pad[i + 1];
      }
      StripLeftPadding(pad[1..], rest);
    }
  }

  /** Trailing whitespace behind text that does not end in whitespace is
      exactly what `rstrip` removes. */
  lemma {:induction false} StripRightPadding(word: string, pad: string)
    requires AllSpace(pad)
    requires |word| == 0 || !IsSpace(word[|word| - 1])
    ensures EndNonSpace(word + pad) == |word|
    ensures StripRight(word + pad) == word
    decreases |pad|
  {
    if |pad| == 0 {
      assert word + pad == word;
    } else {
      assert (word + pad)[..|word + pad| - 1] == word + pad[..|pad| - 1];
      assert AllSpace(pad[..|pad| - 1]) by {
        assert forall i :: 0 <= i < |pad| - 1 ==> pad[..|pad| - 1][i] == pad[i];
      }
      StripRightPadding(word, pad[..|pad| - 1]);
    }
  }

  /** `strip` recovers a word from any whitespace padding around it. */
  lemma StripPadding(left: string, word: string, right: string)
    requires AllSpace(left) && AllSpace(right)
    requires |word| > 0 && !IsSpace(word[0]) && !IsSpace(word[|word| - 1])
    ensures Strip(left + word + right) == word
  {
    assert left + word + right == left + (word + right);
    StripLeftPadding(left, word + right);
    StripRightPadding(word, right);
  }
}
