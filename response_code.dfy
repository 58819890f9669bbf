/**
 * The response-code pattern `\[(\d+)\s*(?:\w+\s*)*\]` searched with
 * `re.search`, and `int()` of the captured digits.
 *
 * `\s*(?:\w+\s*)*` accepts exactly the strings made of word and whitespace
 * characters, and a digit is a word character, so the pattern matches at
 * position p exactly when s[p] is '[', s[p+1] is a digit, and the first
 * character after p+1 that is neither a word nor a whitespace character is
 * a ']'.  The greedy group then holds the whole digit run starting at p+1.
 */
module ResponseRegex {
  import opened Wrappers

  /** `\d`, over ASCII. */
  predicate IsDigit(c: char) {
    '0' <= c <= '9'
  }

  /** `\w`, over ASCII. */
  predicate IsWord(c: char) {
    IsDigit(c) || 'a' <= c <= 'z' || 'A' <= c <= 'Z' || c == '_'
  }

  /** `\s` on a str pattern: the characters `str.isspace()` accepts. */
  predicate IsSpace(c: char) {
    || c == ' ' || c == '\t' || c == '\n' || c == '\r' || c == '\U{000B}' || c == '\U{000C}'
    || '\U{001C}' <= c <= '\U{001F}' || c == '\U{0085}' || c == '\U{00A0}' || c == '\U{1680}'
    || '\U{2000}' <= c <= '\U{200A}' || c == '\U{2028}' || c == '\U{2029}' || c == '\U{202F}'
    || c == '\U{205F}' || c == '\U{3000}'
  }

  /** The end of the run of digits starting at `i`. */
  function DigitRunEnd(s: string, i: nat): (j: nat)
    requires i <= |s|
    ensures i <= j <= |s|
    ensures forall k :: i <= k < j ==> IsDigit(s[k])
    ensures j == |s| || !IsDigit(s[j])
    decreases |s| - i
  {
    if i == |s| || !IsDigit(s[i]) then i else DigitRunEnd(s, i + 1)
  }

  /** The end of the run of word and whitespace characters starting at `i`. */
  function WordSpaceEnd(s: string, i: nat): (j: nat)
    requires i <= |s|
    ensures i <= j <= |s|
    ensures forall k :: i <= k < j ==> IsWord(s[k]) || IsSpace(s[k])
    ensures j == |s| || !(IsWord(s[j]) || IsSpace(s[j]))
    decreases |s| - i
  {
    if i == |s| || !(IsWord(s[i]) || IsSpace(s[i])) then i else WordSpaceEnd(s, i + 1)
  }

  /** The pattern matches at `p`, decided by scanning. */
  predicate MatchAt(s: string, p: nat) {
    && p + 1 < |s| && s[p] == '[' && IsDigit(s[p + 1])
    && WordSpaceEnd(s, p + 1) < |s| && s[WordSpaceEnd(s, p + 1)] == ']'
  }

  /** The pattern's own reading: '[', a digit, word and whitespace characters, then ']'. */
  ghost predicate ShapeAt(s: string, p: nat) {
    && p + 1 < |s| && s[p] == '[' && IsDigit(s[p + 1])
    && exists q :: p + 1 < q < |s| && s[q] == ']' && forall k :: p + 1 <= k < q ==> IsWord(s[k]) || IsSpace(s[k])
  }

  /** The scan decides exactly the pattern. */
  lemma MatchAtIff(s: string, p: nat)
    ensures MatchAt(s, p) <==> ShapeAt(s, p)
  {
    if MatchAt(s, p) {
      var q := WordSpaceEnd(s, p + 1);
      assert p + 1 < q by {
        assert IsWord(s[p + 1]);
      }
      assert s[q] == ']' && forall k :: p + 1 <= k < q ==> IsWord(s[k]) || IsSpace(s[k]);
    }
    if ShapeAt(s, p) {
      var q :| p + 1 < q < |s| && s[q] == ']' && forall k :: p + 1 <= k < q ==> IsWord(s[k]) || IsSpace(s[k]);
      assert !(IsWord(s[q]) || IsSpace(s[q]));
    }
  }

  /** `re.search`: the leftmost position at or after `p` where the pattern matches. */
  function FindFrom(s: string, p: nat): (r: Option<nat>)
    ensures r.Some? ==> p <= r.value < |s| && MatchAt(s, r.value) && forall k :: p <= k < r.value ==> !MatchAt(s, k)
    ensures r.None? ==> forall k :: p <= k ==> !MatchAt(s, k)
    decreases |s| - p
  {
    if p >= |s| then None
    else if MatchAt(s, p) then Some(p)
    else FindFrom(s, p + 1)
  }

  function DigitValue(c: char): (d: nat)
    requires IsDigit(c)
    ensures d < 10
  {
    c as int - '0' as int
  }

  /** `int()` of a run of ASCII digits. */
  function DecimalValue(ds: string): nat
    requires forall k :: 0 <= k < |ds| ==> IsDigit(ds[k])
  {
    if ds == [] then 0 else 10 * DecimalValue(ds[..|ds| - 1]) + DigitValue(ds[|ds| - 1])
  }

  /** `str(n)` for a non-negative integer: its decimal digits, without leading zeros. */
  function DecimalString(n: nat): (ds: string)
    ensures |ds| >= 1
    ensures forall k :: 0 <= k < |ds| ==> IsDigit(ds[k])
    ensures |ds| > 1 ==> ds[0] != '0'
  {
    if n < 10 then [('0' as int + n) as char] else DecimalString(n / 10) + [('0' as int + n % 10) as char]
  }

  /** `int(str(n)) == n`. */
  lemma {:induction false} DecimalRoundTrip(n: nat)
    ensures DecimalValue(DecimalString(n)) == n
  {
    var ds := DecimalString(n);
    if n >= 10 {
      DecimalRoundTrip(n / 10);
      assert ds[..|ds| - 1] == DecimalString(n / 10);
    }
  }

  /** Leading zeros do not change the value. */
  lemma {:induction false} LeadingZero(ds: string)
    requires forall k :: 0 <= k < |ds| ==> IsDigit(ds[k])
    ensures DecimalValue("0" + ds) == DecimalValue(ds)
  {
    if ds != [] {
      var init := ds[..|ds| - 1];
      LeadingZero(init);
      assert ("0" + ds)[..|"0" + ds| - 1] == "0" + init;
    }
  }

  /** Group 1 of a match at `p`: the whole digit run after the '['. */
  function Captured(s: string, p: nat): (ds: string)
    requires p + 1 < |s| && IsDigit(s[p + 1])
    ensures 1 <= |ds| && p + 1 + |ds| <= |s| && ds == s[p + 1..p + 1 + |ds|]
    ensures forall k :: 0 <= k < |ds| ==> IsDigit(ds[k])
    ensures p + 1 + |ds| == |s| || !IsDigit(s[p + 1 + |ds|])
  {
    s[p + 1..DigitRunEnd(s, p + 1)]
  }

  /** The search passes over a stretch without '[' unchanged. */
  lemma {:induction false} SkipToBracket(s: string, a: nat, b: nat)
    requires a <= b <= |s|
    requires forall k :: a <= k < b ==> s[k] != '['
    ensures FindFrom(s, a) == FindFrom(s, b)
    decreases b - a
  {
    if a < b {
      SkipToBracket(s, a + 1, b);
    }
  }

  /** `int(re.search(pattern, s).group(1))`, or None when the pattern does not occur. */
  function ExtractCode(s: string): Option<nat> {
    var m := FindFrom(s, 0);
    if m.None? then None else Some(DecimalValue(Captured(s, m.value)))
  }

  /**
   * A code is found exactly when the pattern occurs somewhere; it is the
   * value of the maximal digit run of the leftmost occurrence.
   */
  lemma ExtractCodeSpec(s: string)
    ensures ExtractCode(s).Some? <==> exists p :: ShapeAt(s, p)
    ensures ExtractCode(s).Some? ==> exists p: nat ::
      && ShapeAt(s, p)
      && (forall k :: 0 <= k < p ==> !ShapeAt(s, k))
      && ExtractCode(s).value == DecimalValue(Captured(s, p))
  {
    var m := FindFrom(s, 0);
    if m.Some? {
      MatchAtIff(s, m.value);
      forall k | 0 <= k < m.value ensures !ShapeAt(s, k) {
        MatchAtIff(s, k);
      }
    } else {
      forall p: nat ensures !ShapeAt(s, p) {
        MatchAtIff(s, p);
      }
    }
  }

  /** Without a '[' nothing matches. */
  lemma NoBracketNoCode(s: string)
    requires '[' !in s
    ensures ExtractCode(s) == None
  {
  }

  /** The digit run is maximal: a trailing letter is left to `\w`. */
  lemma MaximalRunExample()
    ensures ExtractCode("[404x]") == Some(404)
  {
    assert MatchAt("[404x]", 0);
    assert Captured("[404x]", 0) == "404";
    assert DecimalValue("40") == 40 by {
      assert "40"[..1] == "4";
    }
    assert "404"[..2] == "40";
  }

  /** Digits after a letter are not part of the code. */
  lemma DigitsStopAtLetterExample()
    ensures ExtractCode("[4a2]") == Some(4)
  {
    assert MatchAt("[4a2]", 0);
    assert Captured("[4a2]", 0) == "4";
  }

  /** The leftmost qualifying '[' wins. */
  lemma LeftmostExample()
    ensures ExtractCode("[1] [2]") == Some(1)
  {
    assert MatchAt("[1] [2]", 0);
    assert Captured("[1] [2]", 0) == "1";
  }

  lemma ResponseReprOuter(r: string)
    requires r == "[<Response [200 OK]>]"
    ensures FindFrom(r, 0) == FindFrom(r, 1)
  {
    assert !IsDigit(r[1]);
  }

  lemma ResponseReprInner()
    ensures FindFrom("[<Response [200 OK]>]", 11) == Some(11)
  {
    assert MatchAt("[<Response [200 OK]>]", 11);
  }

  lemma ResponseReprPrefix(r: string)
    requires r == "[<Response [200 OK]>]"
    ensures forall k :: 1 <= k < 11 ==> r[k] != '['
  {
  }

  lemma ResponseReprSearch(r: string)
    requires r == "[<Response [200 OK]>]"
    ensures FindFrom(r, 0) == Some(11)
  {
    ResponseReprOuter(r);
    ResponseReprPrefix(r);
    SkipToBracket(r, 1, 11);
    ResponseReprInner();
  }

  /** The '[' of a response's repr does not qualify; the bracket inside it does. */
  lemma ResponseReprExample(r: string)
    requires r == "[<Response [200 OK]>]"
    ensures ExtractCode(r) == Some(200)
  {
    ResponseReprSearch(r);
    assert r[12..16] == "200 ";
    assert DigitRunEnd(r, 15) == 15;
    assert DigitRunEnd(r, 13) == 15;
    assert DigitRunEnd(r, 12) == 15;
    assert r[12..15] == "200";
    assert DecimalValue("20") == 20 by {
      assert "20"[..1] == "2";
    }
    assert "200"[..2] == "20";
  }

  /** A character outside `\w` and `\s` before ']' rules the match out. */
  lemma RejectExample()
    ensures ExtractCode("[200-OK]") == None
  {
    var r := "[200-OK]";
    assert !MatchAt(r, 0);
    assert forall k :: 1 <= k < |r| ==> r[k] != '[';
  }

  /** `int()` drops leading zeros. */
  lemma LeadingZerosExample()
    ensures ExtractCode("[007]") == Some(7)
  {
    assert MatchAt("[007]", 0);
    assert Captured("[007]", 0) == "007";
    assert DecimalValue("00") == 0 by {
      assert "00"[..1] == "0";
    }
    assert "007"[..2] == "00";
  }
}
