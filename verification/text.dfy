/** The optional value used wherever the source returns null, throws a
    recoverable exception, or simply does nothing. */
module Options {

  datatype Option<+T> = None | Some(value: T)
}

/**
 The few pieces of java.lang.String / java.lang.Integer / java.util.regex
 behaviour the validators of the system rely on, written out over `seq<char>`.
 Only ASCII decimal digits are modelled as digits.
 */
module JavaText {
  import opened Options

  const INT_MIN: int := -0x8000_0000
  const INT_MAX: int := 0x7fff_ffff

  predicate IsDigit(c: char) {
    '0' <= c <= '9'
  }

  predicate AllDigits(s: string) {
    forall i :: 0 <= i < |s| ==> IsDigit(s[i])
  }

  /** String.startsWith */
  predicate StartsWith(s: string, prefix: string) {
    |prefix| <= |s| && s[..|prefix|] == prefix
  }

  /** The decimal value of a string of digits, most significant first. */
  function DigitsValue(s: string): (v: nat)
    requires AllDigits(s)
    ensures v < Pow10(|s|)
  {
    if |s| == 0 then 0
    else DigitsValue(s[..|s| - 1]) * 10 + (s[|s| - 1] - '0') as nat
  }

  function Pow10(n: nat): (p: nat)
    ensures p >= 1
  {
    if n == 0 then 1 else 10 * Pow10(n - 1)
  }

  /** Integer.parseInt(s): an optional sign followed by at least one digit,
      and the value must fit in a 32-bit int; anything else is a
      NumberFormatException, modelled as None. */
  function ParseInt(s: string): (r: Option<int>)
    ensures r.Some? ==> INT_MIN <= r.value <= INT_MAX
    ensures r.Some? ==> 1 <= |s|
  {
    if |s| == 0 then None
    else
      var signed := s[0] == '-' || s[0] == '+';
      var digits := if signed then s[1..] else s;
      if |digits| == 0 || !AllDigits(digits) then None
      else
        var magnitude: int := DigitsValue(digits);
        var v: int := if s[0] == '-' then -magnitude else magnitude;
        if INT_MIN <= v <= INT_MAX then Some(v) else None
  }

  /** Only digits, and a sign in front, get through parseInt. */
  lemma ParsedCharacters(s: string)
    requires ParseInt(s).Some?
    ensures forall i :: 0 <= i < |s| ==> IsDigit(s[i]) || (i == 0 && (s[0] == '-' || s[0] == '+'))
  {
    if s[0] == '-' || s[0] == '+' {
      assert forall i :: 1 <= i < |s| ==> s[i] == s[1..][i - 1];
    }
  }

  /** A decimal string of at most nine digits always parses, to its value. */
  lemma ParseShortDigits(s: string)
    requires 1 <= |s| <= 9 && AllDigits(s)
    ensures ParseInt(s) == Some(DigitsValue(s))
  {
    Pow10Monotone(|s|, 9);
  }

  lemma Pow10Monotone(m: nat, n: nat)
    requires m <= n
    ensures Pow10(m) <= Pow10(n)
  {
  }

  /** A character outside the Basic Multilingual Plane is stored by Java as
      a surrogate pair, two UTF-16 code units; any other takes one. */
  function Utf16Units(c: char): (n: nat)
    ensures n == 1 || n == 2
  {
    if c as int >= 0x1_0000 then 2 else 1
  }

  /** String.length(): the number of UTF-16 code units, not of characters. */
  function Utf16Length(s: string): (n: nat)
    ensures |s| <= n <= 2 * |s|
  {
    if |s| == 0 then 0 else Utf16Units(s[0]) + Utf16Length(s[1..])
  }

  /** Every character of `s` lies in the Basic Multilingual Plane. */
  predicate InBmp(s: string) {
    forall i :: 0 <= i < |s| ==> s[i] as int < 0x1_0000
  }

  /** String.length() agrees with the character count exactly when no
      character needs a surrogate pair. */
  lemma {:induction false} Utf16LengthOfBmp(s: string)
    ensures Utf16Length(s) == |s| <==> InBmp(s)
  {
    if |s| > 0 {
      Utf16LengthOfBmp(s[1..]);
      assert InBmp(s) <==> s[0] as int < 0x1_0000 && InBmp(s[1..]) by {
        assert forall i :: 1 <= i < |s| ==> s[i] == s[1..][i - 1];
      }
    }
  }

  /** The code units of a concatenation are those of its two halves. */
  lemma {:induction false} Utf16LengthConcat(a: string, b: string)
    ensures Utf16Length(a + b) == Utf16Length(a) + Utf16Length(b)
  {
    if |a| > 0 {
      Utf16LengthConcat(a[1..], b);
      assert (a + b)[1..] == a[1..] + b;
    } else {
      assert a + b == b;
    }
  }

  /** Whatever parseInt accepts is ASCII, so its length() is its character
      count. */
  lemma ParsedLength(s: string)
    requires ParseInt(s).Some?
    ensures Utf16Length(s) == |s|
  {
    ParsedCharacters(s);
    Utf16LengthOfBmp(s);
  }

  /** `sep` occurs in `s` starting at position j. */
  predicate OccursAt(s: string, sep: string, j: int) {
    0 <= j && j + |sep| <= |s| && s[j..j + |sep|] == sep
  }

  /** A mismatch on the first character rules out an occurrence. */
  lemma FirstCharMismatch(s: string, sep: string, j: int)
    requires 0 <= j < |s| && |sep| > 0 && s[j] != sep[0]
    ensures !OccursAt(s, sep, j)
  {
    if j + |sep| <= |s| {
      assert s[j..j + |sep|][0] == s[j];
    }
  }

  /** Index of the first occurrence of `sep` in `s` at or after `from`. */
  function IndexFrom(s: string, sep: string, from: nat): (r: Option<nat>)
    requires |sep| > 0
    requires from <= |s|
    ensures r.Some? ==> from <= r.value && OccursAt(s, sep, r.value)
    ensures r.Some? ==> forall j :: from <= j < r.value ==> !OccursAt(s, sep, j)
    ensures r.None? ==> forall j :: from <= j ==> !OccursAt(s, sep, j)
    decreases |s| - from
  {
    if from + |sep| > |s| then None
    else if OccursAt(s, sep, from) then Some(from)
    else IndexFrom(s, sep, from + 1)
  }

  function IndexOf(s: string, sep: string): Option<nat>
    requires |sep| > 0
  {
    IndexFrom(s, sep, 0)
  }

  /** The pieces between successive left-to-right, non-overlapping matches,
      including empty ones. */
  function Pieces(s: string, sep: string): (r: seq<string>)
    requires |sep| > 0
    ensures |r| >= 1
    ensures StartsWith(s, r[0])
    decreases |s|
  {
    match IndexOf(s, sep)
    case None => [s]
    case Some(k) => [s[..k]] + Pieces(s[k + |sep|..], sep)
  }

  /** Drop trailing empty strings, as String.split with limit 0 does. */
  function StripTrailingEmpty(xs: seq<string>): (r: seq<string>)
    ensures |r| <= |xs| && r == xs[..|r|]
    ensures |r| > 0 ==> r[|r| - 1] != ""
    ensures forall i :: |r| <= i < |xs| ==> xs[i] == ""
  {
    if |xs| > 0 && xs[|xs| - 1] == "" then StripTrailingEmpty(xs[..|xs| - 1]) else xs
  }

  /** String.split(sep) for a separator without regex metacharacters: when
      there is no match the result is the input alone, otherwise the pieces
      with trailing empty strings removed. */
  function JavaSplit(s: string, sep: string): seq<string>
    requires |sep| > 0
  {
    if IndexOf(s, sep).None? then [s] else StripTrailingEmpty(Pieces(s, sep))
  }

  /** Splitting a string that starts with the separator yields an empty first
      piece, and the second piece is a prefix of what follows the separator. */
  lemma {:induction false} SplitAfterLeadingSeparator(s: string, sep: string)
    requires |sep| > 0 && StartsWith(s, sep)
    ensures |JavaSplit(s, sep)| >= 2 ==>
              JavaSplit(s, sep)[0] == "" && StartsWith(s[|sep|..], JavaSplit(s, sep)[1])
  {
    assert OccursAt(s, sep, 0);
    assert IndexOf(s, sep) == Some(0);
    var ps := Pieces(s, sep);
    assert ps == [s[..0]] + Pieces(s[|sep|..], sep);
    var r := JavaSplit(s, sep);
    if |r| >= 2 {
      assert r == StripTrailingEmpty(ps);
      assert r[0] == ps[0] && r[1] == ps[1];
      assert ps[1] == Pieces(s[|sep|..], sep)[0];
    }
  }

  /** java.util.regex `^S\d*$` with String.matches: an upper-case S followed
      by any number of digits and nothing else. */
  predicate IsSecondaryQualifier(q: string) {
    |q| >= 1 && q[0] == 'S' && AllDigits(q[1..])
  }

  /** String.valueOf on a non-negative int. */
  function NatToString(n: nat): (s: string)
    ensures |s| >= 1 && AllDigits(s)
  {
    if n < 10 then [DigitChar(n)] else NatToString(n / 10) + [DigitChar(n % 10)]
  }

  function DigitChar(d: nat): (c: char)
    requires d < 10
    ensures IsDigit(c) && (c - '0') as nat == d
  {
    ('0' as int + d) as char
  }

  /** Reading back the decimal rendering gives the number. */
  lemma {:induction false} NatToStringRoundTrip(n: nat)
    ensures DigitsValue(NatToString(n)) == n
  {
    var s := NatToString(n);
    if n >= 10 {
      NatToStringRoundTrip(n / 10);
      assert s[..|s| - 1] == NatToString(n / 10);
    }
  }

  /** The numbered secondary qualifier produced by the naming server matches
      the secondary wildcard pattern. */
  lemma NumberedSecondaryMatches(n: nat)
    ensures IsSecondaryQualifier("S" + NatToString(n))
  {
    var q := "S" + NatToString(n);
    assert q[1..] == NatToString(n);
  }

  /** Collectors.joining(" ") */
  function JoinWithSpaces(parts: seq<string>): (r: string)
    ensures |parts| == 1 ==> r == parts[0]
  {
    if |parts| == 0 then ""
    else if |parts| == 1 then parts[0]
    else JoinWithSpaces(parts[..|parts| - 1]) + " " + parts[|parts| - 1]
  }

  /** The joined string has every part plus one separator between each two. */
  lemma {:induction false} JoinLength(parts: seq<string>)
    requires |parts| >= 1
    ensures |JoinWithSpaces(parts)| == SumLengths(parts) + |parts| - 1
  {
    if |parts| > 1 {
      JoinLength(parts[..|parts| - 1]);
      SumLengthsSnoc(parts);
    }
  }

  function SumLengths(parts: seq<string>): nat {
    if |parts| == 0 then 0 else |parts[0]| + SumLengths(parts[1..])
  }

  /** The code units of all parts together. */
  function SumUtf16Lengths(parts: seq<string>): nat {
    if |parts| == 0 then 0 else Utf16Length(parts[0]) + SumUtf16Lengths(parts[1..])
  }

  /** Joined with single spaces, the parts' code units add up, plus one per
      separator. */
  lemma {:induction false} JoinUtf16Length(parts: seq<string>)
    requires |parts| >= 1
    ensures Utf16Length(JoinWithSpaces(parts)) == SumUtf16Lengths(parts) + |parts| - 1
  {
    if |parts| > 1 {
      var init := parts[..|parts| - 1];
      JoinUtf16Length(init);
      Utf16LengthConcat(JoinWithSpaces(init), " ");
      Utf16LengthConcat(JoinWithSpaces(init) + " ", parts[|parts| - 1]);
      assert Utf16Length(" ") == 1;
      SumUtf16LengthsSnoc(parts);
    }
  }

  lemma {:induction false} SumUtf16LengthsSnoc(parts: seq<string>)
    requires |parts| >= 1
    ensures SumUtf16Lengths(parts) == SumUtf16Lengths(parts[..|parts| - 1]) + Utf16Length(parts[|parts| - 1])
  {
    if |parts| > 1 {
      SumUtf16LengthsSnoc(parts[1..]);
      assert parts[1..][..|parts[1..]| - 1] == parts[..|parts| - 1][1..];
    }
  }

  lemma {:induction false} SumLengthsSnoc(parts: seq<string>)
    requires |parts| >= 1
    ensures SumLengths(parts) == SumLengths(parts[..|parts| - 1]) + |parts[|parts| - 1]|
  {
    if |parts| > 1 {
      SumLengthsSnoc(parts[1..]);
      assert parts[1..][..|parts[1..]| - 1] == parts[..|parts| - 1][1..];
    }
  }
}
