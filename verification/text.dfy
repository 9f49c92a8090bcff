/** String helpers the source takes from JavaScript's `String` prototype:
    `toUpperCase`, `trim`, `split(".").pop()` and decimal rendering of
    integers. Strings are sequences of characters. */
module Text {

  import opened Wrappers

  predicate IsLower(c: char) { 'a' <= c <= 'z' }
  predicate IsUpper(c: char) { 'A' <= c <= 'Z' }
  predicate IsDigit(c: char) { '0' <= c <= '9' }

  /** The characters a class code may hold: `[0-9A-Z]`. */
  predicate IsCodeChar(c: char) { IsDigit(c) || IsUpper(c) }

  /** Upper-cases one ASCII letter; every other character is unchanged. */
  function UpperChar(c: char): (u: char)
    ensures IsLower(c) ==> IsUpper(u) && u as int == c as int - 32
    ensures !IsLower(c) ==> u == c
  {
    if IsLower(c) then (c as int - 32) as char else c
  }

  predicate IsAscii(c: char) { c as int < 128 }

  ghost predicate AllAscii(s: string) {
    forall i :: 0 <= i < |s| ==> IsAscii(s[i])
  }

  /** The characters outside ASCII whose `toUpperCase` holds an ASCII
      letter: the dotless i and the long s, which upper-case to I and S, and
      the characters whose capital is longer than they are (the sharp s, the
      Latin ligatures, and six letters that capitalise to an ASCII letter
      plus a mark). */
  const SpecialUpper: map<char, string> := map[
    '\U{131}' := "I", '\U{17F}' := "S", '\U{DF}' := "SS",
    '\U{FB00}' := "FF", '\U{FB01}' := "FI", '\U{FB02}' := "FL",
    '\U{FB03}' := "FFI", '\U{FB04}' := "FFL", '\U{FB05}' := "ST", '\U{FB06}' := "ST",
    '\U{149}' := "\U{2BC}N", '\U{1F0}' := "J\U{30C}", '\U{1E96}' := "H\U{331}",
    '\U{1E97}' := "T\U{308}", '\U{1E98}' := "W\U{30A}", '\U{1E99}' := "Y\U{30A}",
    '\U{1E9A}' := "A\U{2BE}"]

  /** A modifier letter or combining mark (U+02B0 to U+036F): the second
      character of some special capitals. */
  predicate IsMark(c: char) { 0x2B0 <= c as int <= 0x36F }

  /** No special character is ASCII or a mark. */
  lemma SpecialKeys(c: char)
    requires c in SpecialUpper
    ensures 0xDF <= c as int && !IsMark(c)
  {
  }

  /** Every special capital is one to three characters, each an ASCII
      capital or a mark. */
  lemma SpecialCapitals(c: char)
    requires c in SpecialUpper
    ensures 1 <= |SpecialUpper[c]| <= 3
    ensures forall k :: 0 <= k < |SpecialUpper[c]| ==> IsUpper(SpecialUpper[c][k]) || IsMark(SpecialUpper[c][k])
  {
  }

  /** A character of a capital is neither lower-case ASCII nor special. */
  lemma CapitalCharIsFixed(x: char)
    requires IsUpper(x) || IsMark(x)
    ensures !IsLower(x) && x !in SpecialUpper
  {
    if x in SpecialUpper {
      SpecialKeys(x);
    }
  }

  /** `toUpperCase` of one character, as far as the result holds an ASCII
      letter: an ASCII letter is capitalised, a character of `SpecialUpper`
      becomes its capital, and every other character is kept as it is. */
  function UpperOf(c: char): (u: string)
    ensures 1 <= |u| <= 3
    ensures IsAscii(c) ==> u == [UpperChar(c)]
    ensures forall k :: 0 <= k < |u| ==> !IsLower(u[k]) && u[k] !in SpecialUpper
  {
    if IsLower(c) then [UpperChar(c)]
    else if c in SpecialUpper then
      SpecialCapitals(c);
      var u := SpecialUpper[c];
      assert forall k :: 0 <= k < |u| ==> !IsLower(u[k]) && u[k] !in SpecialUpper by {
        forall k | 0 <= k < |u| ensures !IsLower(u[k]) && u[k] !in SpecialUpper {
          CapitalCharIsFixed(u[k]);
        }
      }
      u
    else [c]
  }

  /** `String.prototype.toUpperCase`, character by character through
      `UpperOf`; the result may be longer than the input. */
  function ToUpper(s: string): (r: string)
    ensures |s| <= |r| <= 3 * |s|
    ensures forall k :: 0 <= k < |r| ==> !IsLower(r[k])
    ensures AllAscii(s) ==> |r| == |s| && forall i :: 0 <= i < |s| ==> r[i] == UpperChar(s[i])
  {
    if |s| == 0 then "" else UpperOf(s[0]) + ToUpper(s[1..])
  }

  /** Upper-casing distributes over concatenation. */
  lemma {:induction false} ToUpperAppend(a: string, b: string)
    ensures ToUpper(a + b) == ToUpper(a) + ToUpper(b)
    decreases |a|
  {
    if |a| > 0 {
      assert (a + b)[0] == a[0] && (a + b)[1..] == a[1..] + b;
      ToUpperAppend(a[1..], b);
    } else {
      assert a + b == b;
    }
  }

  /** A character that is neither lower-case ASCII nor special is its own
      capital. */
  lemma UpperOfFixed(c: char)
    requires !IsLower(c) && c !in SpecialUpper
    ensures UpperOf(c) == [c]
  {
  }

  /** Upper-casing a string of such characters changes nothing. */
  lemma {:induction false} ToUpperFixed(u: string)
    requires forall k :: 0 <= k < |u| ==> !IsLower(u[k]) && u[k] !in SpecialUpper
    ensures ToUpper(u) == u
    decreases |u|
  {
    if |u| > 0 {
      UpperOfFixed(u[0]);
      ToUpperFixed(u[1..]);
    }
  }

  /** Upper-casing a single character's capital changes nothing. */
  lemma UpperOfIsUpper(c: char)
    ensures ToUpper(UpperOf(c)) == UpperOf(c)
  {
    ToUpperFixed(UpperOf(c));
  }

  /** Upper-casing is idempotent: an already upper-cased code is its own
      upper-case form. */
  lemma {:induction false} ToUpperIdempotent(s: string)
    ensures ToUpper(ToUpper(s)) == ToUpper(s)
    decreases |s|
  {
    if |s| > 0 {
      ToUpperAppend(UpperOf(s[0]), ToUpper(s[1..]));
      UpperOfIsUpper(s[0]);
      ToUpperIdempotent(s[1..]);
    }
  }

  /** Each sharp s upper-cases to "SS": a run of them doubles in length. */
  lemma {:induction false} SharpSDoubles(s: string)
    requires forall i :: 0 <= i < |s| ==> s[i] == '\U{DF}'
    ensures |ToUpper(s)| == 2 * |s|
    decreases |s|
  {
    if |s| > 0 {
      SharpSDoubles(s[1..]);
    }
  }

  /** The sharp s has a two-letter capital. */
  lemma SharpSUpper()
    ensures ToUpper("\U{DF}") == "SS"
  {
    assert "\U{DF}"[1..] == "";
  }

  /** The dotless i capitalises to the ASCII I. */
  lemma DotlessIUpper()
    ensures ToUpper("\U{131}") == "I"
  {
    assert "\U{131}"[1..] == "";
  }

  /** A dotless i ahead of ASCII capitals upper-cases to an ASCII I ahead of
      the same capitals. */
  lemma DotlessIPrefixUpper(rest: string)
    requires forall k :: 0 <= k < |rest| ==> IsUpper(rest[k])
    ensures ToUpper(['\U{131}'] + rest) == ['I'] + rest
  {
    forall k | 0 <= k < |rest|
      ensures !IsLower(rest[k]) && rest[k] !in SpecialUpper
    {
      if rest[k] in SpecialUpper {
        SpecialKeys(rest[k]);
      }
    }
    ToUpperFixed(rest);
    ToUpperAppend(['\U{131}'], rest);
    DotlessIUpper();
  }

  /** Six typed sharp s upper-case to twelve letters. */
  lemma LengtheningExamples()
    ensures |ToUpper("\U{DF}\U{DF}\U{DF}\U{DF}\U{DF}\U{DF}")| == 12
  {
    SharpSDoubles("\U{DF}\U{DF}\U{DF}\U{DF}\U{DF}\U{DF}");
  }

  /** Two strings whose characters agree one for one up to case have the
      same upper-case form. */
  ghost predicate SameIgnoringCase(a: string, b: string) {
    |a| == |b| && forall i :: 0 <= i < |a| ==> UpperOf(a[i]) == UpperOf(b[i])
  }

  lemma {:induction false} SameIgnoringCaseUpper(a: string, b: string)
    requires SameIgnoringCase(a, b)
    ensures ToUpper(a) == ToUpper(b)
    decreases |a|
  {
    if |a| > 0 {
      assert UpperOf(a[0]) == UpperOf(b[0]);
      SameIgnoringCaseUpper(a[1..], b[1..]);
    }
  }

  /** The white space `String.prototype.trim` strips: the WhiteSpace and
      LineTerminator characters of ECMAScript (tab, vertical tab, form
      feed, the space separators, the byte-order mark, line feed, carriage
      return and the line and paragraph separators). */
  predicate IsSpace(c: char) {
    || c == '\t' || c == '\n' || c == '\U{B}' || c == '\U{C}' || c == '\r' || c == ' '
    || c == '\U{A0}' || c == '\U{1680}' || ('\U{2000}' <= c <= '\U{200A}')
    || c == '\U{2028}' || c == '\U{2029}' || c == '\U{202F}' || c == '\U{205F}'
    || c == '\U{3000}' || c == '\U{FEFF}'
  }

  function TrimStart(s: string): (r: string)
    ensures |r| <= |s|
    ensures r == s[|s| - |r|..]
    ensures |r| > 0 ==> !IsSpace(r[0])
    ensures forall i :: 0 <= i < |s| - |r| ==> IsSpace(s[i])
  {
    if |s| > 0 && IsSpace(s[0]) then
      var r := TrimStart(s[1..]);
      assert s[1..][|s| - 1 - |r|..] == s[|s| - |r|..];
      assert forall i :: 1 <= i < |s| ==> s[i] == s[1..][i - 1];
      r
    else s
  }

  function TrimEnd(s: string): (r: string)
    ensures |r| <= |s|
    ensures r == s[..|r|]
    ensures |r| > 0 ==> !IsSpace(r[|r| - 1])
    ensures forall i :: |r| <= i < |s| ==> IsSpace(s[i])
  {
    if |s| > 0 && IsSpace(s[|s| - 1]) then
      var r := TrimEnd(s[..|s| - 1]);
      assert s[..|s| - 1][..|r|] == s[..|r|];
      assert forall i :: 0 <= i < |s| - 1 ==> s[i] == s[..|s| - 1][i];
      r
    else s
  }

  /** `String.prototype.trim`: white space removed from both ends; what is
      left, if anything, starts and ends with something else. */
  function Trim(s: string): (r: string)
    ensures |r| <= |s|
    ensures |r| > 0 ==> !IsSpace(r[0]) && !IsSpace(r[|r| - 1])
  {
    var t := TrimStart(s);
    var r := TrimEnd(t);
    assert |r| > 0 ==> r[0] == t[0];
    r
  }

  /** A string of white space only loses all of it at the start. */
  lemma {:induction false} AllSpaceTrimsAway(s: string)
    requires forall i :: 0 <= i < |s| ==> IsSpace(s[i])
    ensures TrimStart(s) == ""
    decreases |s|
  {
    if |s| > 0 {
      assert IsSpace(s[0]);
      AllSpaceTrimsAway(s[1..]);
    }
  }

  /** A character that is not white space stops `TrimStart` at or before it. */
  lemma {:induction false} TrimStartKeeps(s: string, k: int)
    requires 0 <= k < |s| && !IsSpace(s[k])
    ensures |TrimStart(s)| >= |s| - k
    decreases |s|
  {
    if IsSpace(s[0]) {
      assert s[1..][k - 1] == s[k];
      TrimStartKeeps(s[1..], k - 1);
    }
  }

  /** A character that is not white space stops `TrimEnd` at or after it. */
  lemma {:induction false} TrimEndKeeps(s: string, k: int)
    requires 0 <= k < |s| && !IsSpace(s[k])
    ensures |TrimEnd(s)| > k
    decreases |s|
  {
    if IsSpace(s[|s| - 1]) {
      assert s[..|s| - 1][k] == s[k];
      TrimEndKeeps(s[..|s| - 1], k);
    }
  }

  /** A string trims to "" exactly when it is all white space. */
  lemma TrimEmptyIff(s: string)
    ensures Trim(s) == "" <==> forall i :: 0 <= i < |s| ==> IsSpace(s[i])
  {
    if forall i :: 0 <= i < |s| ==> IsSpace(s[i]) {
      AllSpaceTrimsAway(s);
    } else {
      var k :| 0 <= k < |s| && !IsSpace(s[k]);
      TrimStartKeeps(s, k);
      TrimEndKeeps(TrimStart(s), 0);
    }
  }

  /** A no-break space and a vertical tab are white space to `trim`. */
  lemma NonAsciiBlankTrims()
    ensures Trim("\U{A0}") == "" && Trim("\U{B}") == "" && Trim(" \U{3000}\U{FEFF}") == ""
  {
    TrimEmptyIff("\U{A0}");
    TrimEmptyIff("\U{B}");
    TrimEmptyIff(" \U{3000}\U{FEFF}");
  }

  /** `name.split(".").pop()`: the text after the last '.', or the whole
      name when it has no '.'. */
  function LastSegment(name: string): (r: string)
    ensures |r| <= |name|
    ensures r == name[|name| - |r|..]
    ensures '.' !in r
    ensures |r| < |name| ==> name[|name| - |r| - 1] == '.'
  {
    if |name| == 0 then ""
    else if name[|name| - 1] == '.' then ""
    else LastSegment(name[..|name| - 1]) + [name[|name| - 1]]
  }

  /** One decimal digit character. */
  function DigitChar(d: nat): (c: char)
    requires d < 10
    ensures IsDigit(c) && c as int - '0' as int == d
  {
    ('0' as int + d) as char
  }

  /** Decimal rendering of a natural number without leading zeros
      (`Number.prototype.toString()`). */
  function NatToString(n: nat): (r: string)
    ensures |r| > 0
    ensures forall i :: 0 <= i < |r| ==> IsDigit(r[i])
    decreases n
  {
    if n < 10 then [DigitChar(n)] else NatToString(n / 10) + [DigitChar(n % 10)]
  }

  /** The value of a string of decimal digits, most significant first. */
  function DigitsValue(s: string): nat
    requires forall i :: 0 <= i < |s| ==> IsDigit(s[i])
  {
    if |s| == 0 then 0
    else
      assert IsDigit(s[|s| - 1]);
      10 * DigitsValue(s[..|s| - 1]) + (s[|s| - 1] as int - '0' as int) as nat
  }

  /** Decimal rendering of an integer, with a leading '-' when negative. */
  function IntToString(n: int): (r: string)
    ensures |r| > 0
  {
    if n < 0 then "-" + NatToString(-n) else NatToString(n)
  }

  /** Parses an optionally signed string of decimal digits; anything else
      is not a number. */
  function ParseInt(s: string): Option<int>
  {
    if |s| > 0 && s[0] == '-' then
      var d := s[1..];
      if |d| > 0 && forall i :: 0 <= i < |d| ==> IsDigit(d[i]) then Some(0 - DigitsValue(d)) else None
    else if |s| > 0 && forall i :: 0 <= i < |s| ==> IsDigit(s[i]) then Some(DigitsValue(s) as int)
    else None
  }

  lemma {:induction false} NatToStringValue(n: nat)
    ensures DigitsValue(NatToString(n)) == n
    decreases n
  {
    var r := NatToString(n);
    if n >= 10 {
      NatToStringValue(n / 10);
      assert r[..|r| - 1] == NatToString(n / 10);
    }
  }

  /** Rendering then parsing an integer gives it back. */
  lemma ParseIntRoundTrip(n: int)
    ensures ParseInt(IntToString(n)) == Some(n)
  {
    var r := IntToString(n);
    if n < 0 {
      NatToStringValue(-n);
      assert r[1..] == NatToString(-n);
    } else {
      NatToStringValue(n);
      assert r[0] != '-';
    }
  }
}
