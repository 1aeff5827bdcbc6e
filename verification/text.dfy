/** The string primitives the services call on answers, words and messages:
    JavaScript's `trim` and `toLowerCase`, `replace` of one letter by another,
    accent stripping (`normalize('NFD')` followed by removal of combining marks),
    `split('').join(' - ')`, and the decimal rendering of a level number inside
    a template string.
 */
module Text {

  // ---------------------------------------------------------------- trim

  /** The code points JavaScript's `trim` removes: WhiteSpace (including every
      space separator) and LineTerminator. */
  predicate IsJsWhitespace(c: char) {
    var k := c as int;
    k == 0x09 || k == 0x0A || k == 0x0B || k == 0x0C || k == 0x0D || k == 0x20
    || k == 0xA0 || k == 0x1680 || (0x2000 <= k <= 0x200A) || k == 0x2028
    || k == 0x2029 || k == 0x202F || k == 0x205F || k == 0x3000 || k == 0xFEFF
  }

  /** Drops the leading whitespace: the result is the suffix of `s` that starts
      at its first non-whitespace character. */
  function TrimStart(s: string): (r: string)
    ensures |r| <= |s| && r == s[|s| - |r|..]
    ensures r == [] || !IsJsWhitespace(r[0])
  {
    if |s| > 0 && IsJsWhitespace(s[0]) then TrimStart(s[1..]) else s
  }

  /** Drops the trailing whitespace: the result is the prefix of `s` that ends
      at its last non-whitespace character. */
  function TrimEnd(s: string): (r: string)
    ensures |r| <= |s| && r == s[..|r|]
    ensures r == [] || !IsJsWhitespace(r[|r| - 1])
  {
    if |s| > 0 && IsJsWhitespace(s[|s| - 1]) then TrimEnd(s[..|s| - 1]) else s
  }

  /** Only whitespace is dropped at the front. */
  lemma {:induction false} TrimStartDropsWhitespace(s: string)
    ensures forall i :: 0 <= i < |s| - |TrimStart(s)| ==> IsJsWhitespace(s[i])
  {
    if |s| > 0 && IsJsWhitespace(s[0]) {
      TrimStartDropsWhitespace(s[1..]);
      assert forall i :: 1 <= i < |s| ==> s[i] == s[1..][i - 1];
    }
  }

  /** Only whitespace is dropped at the back. */
  lemma {:induction false} TrimEndDropsWhitespace(s: string)
    ensures forall i :: |TrimEnd(s)| <= i < |s| ==> IsJsWhitespace(s[i])
  {
    if |s| > 0 && IsJsWhitespace(s[|s| - 1]) {
      TrimEndDropsWhitespace(s[..|s| - 1]);
      assert forall i :: 0 <= i < |s| - 1 ==> s[i] == s[..|s| - 1][i];
    }
  }

  /** `s.trim()`: neither starts nor ends with whitespace. */
  function Trim(s: string): (r: string)
    ensures |r| <= |s|
    ensures r == [] || (!IsJsWhitespace(r[0]) && !IsJsWhitespace(r[|r| - 1]))
  {
    var t := TrimStart(s);
    var r := TrimEnd(t);
    assert r != [] ==> r[0] == t[0];
    r
  }

  /** `Trim(s)` is the slice of `s` that starts where `TrimStart` stops. */
  lemma TrimIsSlice(s: string)
    ensures var k, r := |s| - |TrimStart(s)|, Trim(s);
      k + |r| <= |s| && r == s[k..k + |r|]
  {
    var t := TrimStart(s);
    var r := TrimEnd(t);
    var k := |s| - |t|;
    assert Trim(s) == r;
    assert t == s[k..];
    assert r == t[..|r|];
    assert forall i :: 0 <= i < |r| ==> r[i] == s[k + i];
  }

  /** What `trim` removes is whitespace: `s` is some whitespace, then
      `Trim(s)`, then some whitespace. */
  lemma TrimRemovesOnlyWhitespace(s: string)
    ensures var k, r := |s| - |TrimStart(s)|, Trim(s);
      && k + |r| <= |s|
      && r == s[k..k + |r|]
      && (forall i :: 0 <= i < k ==> IsJsWhitespace(s[i]))
      && (forall i :: k + |r| <= i < |s| ==> IsJsWhitespace(s[i]))
  {
    var t := TrimStart(s);
    var r := Trim(s);
    var k := |s| - |t|;
    TrimIsSlice(s);
    TrimStartDropsWhitespace(s);
    TrimEndDropsWhitespace(t);
    assert r == TrimEnd(t);
    forall i | k + |r| <= i < |s| ensures IsJsWhitespace(s[i]) {
      assert s[i] == t[i - k];
    }
  }

  /** Trimming a string that has no surrounding whitespace leaves it alone;
      in particular trimming twice is trimming once. */
  lemma TrimLeavesTrimmed(s: string)
    requires s == [] || (!IsJsWhitespace(s[0]) && !IsJsWhitespace(s[|s| - 1]))
    ensures Trim(s) == s
  {
  }

  lemma TrimIdempotent(s: string)
    ensures Trim(Trim(s)) == Trim(s)
  {
    TrimLeavesTrimmed(Trim(s));
  }

  // ---------------------------------------------------------------- lower case

  /** Upper-case letters of the Basic Latin and Latin-1 blocks; `toLowerCase`
      maps each to the code point 32 above it. */
  predicate IsUpper(c: char) {
    ('A' <= c <= 'Z') || (0xC0 <= c as int <= 0xDE && c as int != 0xD7)
  }

  function LowerChar(c: char): (d: char)
    ensures !IsUpper(d)
    ensures IsUpper(c) ==> d as int == c as int + 32
    ensures !IsUpper(c) ==> d == c
  {
    if IsUpper(c) then (c as int + 32) as char else c
  }

  /** `s.toLowerCase()`, position by position. */
  function Lower(s: string): (r: string)
    ensures |r| == |s|
    ensures forall i :: 0 <= i < |s| ==> r[i] == LowerChar(s[i])
  {
    if s == [] then [] else [LowerChar(s[0])] + Lower(s[1..])
  }

  lemma LowerIdempotent(s: string)
    ensures Lower(Lower(s)) == Lower(s)
  {
  }

  // ---------------------------------------------------------------- replace

  /** `s.replace(/from/g, to)` for a single letter `from`. */
  function Replace(s: string, from: char, to: char): (r: string)
    ensures |r| == |s|
    ensures forall i :: 0 <= i < |s| ==> r[i] == (if s[i] == from then to else s[i])
  {
    if s == [] then [] else [if s[0] == from then to else s[0]] + Replace(s[1..], from, to)
  }

  // ---------------------------------------------------------------- accents

  /** Combining diacritical marks, U+0300 to U+036F: what the source's regular
      expression removes after canonical decomposition. */
  predicate IsCombiningMark(c: char) {
    0x300 <= c as int <= 0x36F
  }

  /** The first code point of the canonical decomposition of `c`, for the
      precomposed letters of the Latin-1 block; every other character is its
      own decomposition. */
  function BaseLetter(c: char): char {
    var k := c as int;
    if 0xC0 <= k <= 0xC5 then 'A'
    else if k == 0xC7 then 'C'
    else if 0xC8 <= k <= 0xCB then 'E'
    else if 0xCC <= k <= 0xCF then 'I'
    else if k == 0xD1 then 'N'
    else if 0xD2 <= k <= 0xD6 then 'O'
    else if 0xD9 <= k <= 0xDC then 'U'
    else if k == 0xDD then 'Y'
    else if 0xE0 <= k <= 0xE5 then 'a'
    else if k == 0xE7 then 'c'
    else if 0xE8 <= k <= 0xEB then 'e'
    else if 0xEC <= k <= 0xEF then 'i'
    else if k == 0xF1 then 'n'
    else if 0xF2 <= k <= 0xF6 then 'o'
    else if 0xF9 <= k <= 0xFC then 'u'
    else if k == 0xFD || k == 0xFF then 'y'
    else c
  }

  /** A character that accent stripping keeps as it is. */
  predicate IsPlain(c: char) {
    !IsCombiningMark(c) && BaseLetter(c) == c
  }

  predicate AllPlain(s: string) {
    forall i :: 0 <= i < |s| ==> IsPlain(s[i])
  }

  /** Canonical decomposition followed by removal of the combining marks:
      every precomposed letter becomes its base letter and every combining
      mark disappears. */
  function StripAccents(s: string): (r: string)
    ensures |r| <= |s|
    ensures AllPlain(r)
  {
    if s == [] then []
    else if IsCombiningMark(s[0]) then StripAccents(s[1..])
    else [BaseLetter(s[0])] + StripAccents(s[1..])
  }

  /** A string with nothing to strip is its own stripped form. */
  lemma {:induction false} StripAccentsKeepsPlain(s: string)
    requires AllPlain(s)
    ensures StripAccents(s) == s
  {
    if s != [] {
      assert AllPlain(s[1..]) by {
        forall i | 0 <= i < |s[1..]| ensures IsPlain(s[1..][i]) {
          assert s[1..][i] == s[i + 1];
        }
      }
      StripAccentsKeepsPlain(s[1..]);
      assert s == [s[0]] + s[1..];
    }
  }

  lemma StripAccentsIdempotent(s: string)
    ensures StripAccents(StripAccents(s)) == StripAccents(s)
  {
    StripAccentsKeepsPlain(StripAccents(s));
  }

  // ---------------------------------------------------------------- spelling aid

  const LetterSeparator := " - "

  /** `w.split('').join(' - ')`: the letters of `w` with `" - "` between each
      neighbouring pair. Letter `i` sits at position `4 * i`. */
  function JoinLetters(w: string): (r: string)
    ensures w == [] ==> r == []
    ensures w != [] ==> |r| == 4 * |w| - 3
    ensures forall i :: 0 <= i < |w| ==> r[4 * i] == w[i]
  {
    if |w| <= 1 then w
    else
      var rest := JoinLetters(w[1..]);
      var r := [w[0]] + LetterSeparator + rest;
      assert forall i :: 1 <= i < |w| ==> r[4 * i] == rest[4 * (i - 1)];
      r
  }

  /** Reads back every fourth character, undoing `JoinLetters`. */
  function EveryFourth(r: string): string
    decreases |r|
  {
    if r == [] then [] else if |r| < 4 then [r[0]] else [r[0]] + EveryFourth(r[4..])
  }

  /** The spelling aid loses nothing: the word can be read back from it. */
  lemma {:induction false} JoinLettersReadsBack(w: string)
    ensures EveryFourth(JoinLetters(w)) == w
  {
    if |w| > 1 {
      var rest := JoinLetters(w[1..]);
      var r := [w[0]] + LetterSeparator + rest;
      assert JoinLetters(w) == r;
      assert r[0] == w[0] && r[4..] == rest;
      JoinLettersReadsBack(w[1..]);
      assert EveryFourth(r) == [w[0]] + EveryFourth(rest);
      assert w == [w[0]] + w[1..];
    }
  }

  // ---------------------------------------------------------------- numbers

  predicate IsDigit(c: char) {
    '0' as int <= c as int <= '9' as int
  }

  function DigitChar(d: int): (c: char)
    requires 0 <= d < 10
    ensures IsDigit(c) && c as int - '0' as int == d
  {
    "0123456789"[d]
  }

  /** Decimal rendering of a natural number, most significant digit first and
      without leading zeros. */
  function NatToString(n: nat): (r: string)
    ensures |r| >= 1
    ensures forall i :: 0 <= i < |r| ==> IsDigit(r[i])
    ensures r[0] == '0' ==> n == 0
    decreases n
  {
    if n < 10 then [DigitChar(n)] else NatToString(n / 10) + [DigitChar(n % 10)]
  }

  /** The number a string of decimal digits denotes. */
  function ParseNat(s: string): nat
    requires forall i :: 0 <= i < |s| ==> IsDigit(s[i])
    decreases |s|
  {
    if s == [] then 0
    else
      assert IsDigit(s[|s| - 1]);
      ParseNat(s[..|s| - 1]) * 10 + (s[|s| - 1] as int - '0' as int)
  }

  lemma {:induction false} ParseNatToString(n: nat)
    ensures ParseNat(NatToString(n)) == n
    decreases n
  {
    if n >= 10 {
      var r := NatToString(n);
      assert r[..|r| - 1] == NatToString(n / 10);
      ParseNatToString(n / 10);
    }
  }

  /** How a template string renders an integral number: a minus sign for a
      negative number, then the decimal digits of its magnitude. */
  function IntToString(i: int): (r: string)
    ensures |r| >= 1
    ensures r[0] == '-' <==> i < 0
  {
    if i < 0 then "-" + NatToString(-i) else NatToString(i)
  }

  function ParseInt(s: string): int
    requires |s| >= 1
    requires forall i :: (if s[0] == '-' then 1 else 0) <= i < |s| ==> IsDigit(s[i])
  {
    if s[0] == '-' then -(ParseNat(s[1..]) as int) else ParseNat(s)
  }

  /** The rendering is faithful: the number can be read back from it. */
  lemma IntToStringReadsBack(i: int)
    ensures var r := IntToString(i);
      (forall k :: (if r[0] == '-' then 1 else 0) <= k < |r| ==> IsDigit(r[k]))
      && ParseInt(r) == i
  {
    var r := IntToString(i);
    if i < 0 {
      var digits := NatToString(-i);
      assert r == "-" + digits;
      assert r[1..] == digits;
      assert forall k :: 1 <= k < |r| ==> r[k] == digits[k - 1];
      ParseNatToString(-i);
      assert ParseInt(r) == -(ParseNat(digits) as int);
    } else {
      assert r == NatToString(i);
      ParseNatToString(i);
    }
  }

  /** Distinct numbers render differently. */
  lemma IntToStringInjective(i: int, j: int)
    requires IntToString(i) == IntToString(j)
    ensures i == j
  {
    IntToStringReadsBack(i);
    IntToStringReadsBack(j);
  }

  /** A rendered number holds only digits and the minus sign. */
  lemma IntToStringChars(i: int, c: char)
    requires c != '-' && !IsDigit(c)
    ensures c !in IntToString(i)
  {
    var r := IntToString(i);
    forall k | 0 <= k < |r| ensures r[k] != c {
      if i < 0 && k > 0 {
        assert r[k] == NatToString(-i)[k - 1];
      }
    }
  }

  // ---------------------------------------------------------------- delimited runs

  /** Position of the first `c` in `s`, or `|s|` when there is none. */
  function IndexOf(s: string, c: char): (r: nat)
    ensures r <= |s|
    ensures r < |s| ==> s[r] == c
    ensures forall k :: 0 <= k < r ==> s[k] != c
  {
    if s == [] then 0
    else if s[0] == c then 0
    else 1 + IndexOf(s[1..], c)
  }

  /** A run free of `c` that is followed by `c` is what comes before the
      first `c`, whatever follows; so such a run can be read back. */
  lemma DelimitedRun(a: string, c: char, x: string, b: string, y: string)
    requires c !in a && c !in b
    requires a + [c] + x == b + [c] + y
    ensures a == b
  {
    var h := a + [c] + x;
    assert h[|a|] == c && h[|b|] == c;
    assert forall k :: 0 <= k < |a| ==> h[k] == a[k];
    assert forall k :: 0 <= k < |b| ==> h[k] == b[k];
    assert IndexOf(h, c) == |a| == |b|;
    assert a == h[..|a|] && b == h[..|b|];
  }
}
