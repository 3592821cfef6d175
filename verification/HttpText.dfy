/**
 The Foundation string operations that the HTTP parsers of RHSniffOperation.mm use:
 ASCII decoding, splitting at a character set, trimming and `integerValue`.
 */
module HttpText {
  import opened Bytes

  const NS_INTEGER_MAX := 0x7fff_ffff_ffff_ffff
  const NS_INTEGER_MIN := -0x8000_0000_0000_0000

  /** One character per byte; bytes above 127 keep their code. */
  function DecodeAscii(data: seq<byte>): string
  {
    seq(|data|, i requires 0 <= i < |data| => data[i] as char)
  }

  predicate IsAscii(s: string)
  {
    forall i :: 0 <= i < |s| ==> s[i] < '\U{80}'
  }

  /** The bytes of an ASCII text. */
  function AsciiBytes(s: string): seq<byte>
    requires IsAscii(s)
  {
    seq(|s|, i requires 0 <= i < |s| => s[i] as int)
  }

  /** Decoding reads every byte as the character with its code, so it gives an ASCII text back. */
  lemma DecodeAsciiBytes(s: string, data: seq<byte>)
    requires IsAscii(s)
    ensures |DecodeAscii(data)| == |data| && forall i :: 0 <= i < |data| ==> DecodeAscii(data)[i] as int == data[i]
    ensures DecodeAscii(AsciiBytes(s) + data) == s + DecodeAscii(data)
  {
  }

  /** The members of `newlineCharacterSet`. */
  predicate IsNewline(c: char)
  {
    '\n' <= c <= '\r' || c == '\U{85}' || c == '\U{2028}' || c == '\U{2029}'
  }

  /** The members of `whitespaceAndNewlineCharacterSet`. */
  predicate IsWhitespace(c: char)
  {
    || IsNewline(c)
    || c == '\t' || c == ' ' || c == '\U{A0}' || c == '\U{1680}'
    || '\U{2000}' <= c <= '\U{200A}'
    || c == '\U{202F}' || c == '\U{205F}' || c == '\U{3000}'
  }

  /** Both sets by code. */
  lemma SeparatorCodes(c: char)
    ensures IsNewline(c) <==> c as int in {10, 11, 12, 13, 0x85, 0x2028, 0x2029}
    ensures IsWhitespace(c) <==>
      || c as int in {9, 10, 11, 12, 13, 32, 0x85, 0xA0, 0x1680, 0x2028, 0x2029, 0x202F, 0x205F, 0x3000}
      || 0x2000 <= c as int <= 0x200A
  {
  }

  /** `componentsSeparatedByCharactersInSet:` - every separator ends one component. */
  function Split(s: string, separator: char -> bool): (parts: seq<string>)
    ensures |parts| >= 1
  {
    if s == "" then [""]
    else
      var rest := Split(s[1..], separator);
      if separator(s[0]) then [""] + rest else [[s[0]] + rest[0]] + rest[1..]
  }

  predicate Free(s: string, separator: char -> bool)
  {
    forall i :: 0 <= i < |s| ==> !separator(s[i])
  }

  lemma {:induction false} SplitFree(s: string, separator: char -> bool)
    requires Free(s, separator)
    ensures Split(s, separator) == [s]
  {
    if s != "" {
      assert forall i :: 0 <= i < |s[1..]| ==> s[1..][i] == s[i + 1];
      SplitFree(s[1..], separator);
      assert [s[0]] + s[1..] == s;
    }
  }

  lemma PrependParts(c: char, left: seq<string>, right: seq<string>)
    requires |left| >= 1
    ensures [""] + (left + right) == ([""] + left) + right
    ensures [[c] + (left + right)[0]] + (left + right)[1..] == ([[c] + left[0]] + left[1..]) + right
  {
  }

  /** A separator cuts the split in two. */
  lemma {:induction false} SplitAt(x: string, c: char, y: string, separator: char -> bool)
    requires separator(c)
    ensures Split(x + [c] + y, separator) == Split(x, separator) + Split(y, separator)
  {
    var s := x + [c] + y;
    if x == "" {
      assert s[0] == c && s[1..] == y;
    } else {
      assert s[0] == x[0] && s[1..] == x[1..] + [c] + y;
      SplitAt(x[1..], c, y, separator);
      PrependParts(x[0], Split(x[1..], separator), Split(y, separator));
    }
  }

  function TrimLeft(s: string): string
  {
    if s != "" && IsWhitespace(s[0]) then TrimLeft(s[1..]) else s
  }

  function TrimRight(s: string): string
  {
    if s != "" && IsWhitespace(s[|s| - 1]) then TrimRight(s[..|s| - 1]) else s
  }

  /** `stringByTrimmingCharactersInSet:` with the whitespace-and-newline set. */
  function Trim(s: string): string
  {
    TrimRight(TrimLeft(s))
  }

  predicate White(s: string)
  {
    forall i :: 0 <= i < |s| ==> IsWhitespace(s[i])
  }

  /** No white space at either end. */
  predicate Neat(s: string)
  {
    s == "" || (!IsWhitespace(s[0]) && !IsWhitespace(s[|s| - 1]))
  }

  lemma {:induction false} TrimLeftCuts(s: string) returns (i: nat)
    ensures i <= |s| && TrimLeft(s) == s[i..] && White(s[..i]) && (i < |s| ==> !IsWhitespace(s[i]))
  {
    if s != "" && IsWhitespace(s[0]) {
      i := TrimLeftCuts(s[1..]);
      assert s[1..][i..] == s[i + 1..] && s[..i + 1] == [s[0]] + s[1..][..i];
      i := i + 1;
    } else {
      i := 0;
      assert s[0..] == s;
    }
  }

  lemma {:induction false} TrimRightCuts(s: string) returns (j: nat)
    ensures j <= |s| && TrimRight(s) == s[..j] && White(s[j..]) && (j > 0 ==> !IsWhitespace(s[j - 1]))
  {
    if s != "" && IsWhitespace(s[|s| - 1]) {
      j := TrimRightCuts(s[..|s| - 1]);
      assert s[..|s| - 1][..j] == s[..j] && s[j..] == s[..|s| - 1][j..] + [s[|s| - 1]];
    } else {
      j := |s|;
      assert s[..j] == s;
    }
  }

  /** Trimming cuts off the white space at both ends, and nothing else. */
  lemma TrimCuts(s: string) returns (i: nat, j: nat)
    ensures i <= j <= |s| && Trim(s) == s[i..j] && White(s[..i]) && White(s[j..]) && Neat(s[i..j])
  {
    i := TrimLeftCuts(s);
    var k := TrimRightCuts(s[i..]);
    j := i + k;
    assert s[i..][..k] == s[i..j] && s[i..][k..] == s[j..];
    assert k > 0 ==> s[i..j][0] == s[i] && s[i..j][k - 1] == s[i..][k - 1];
  }

  lemma {:induction false} TrimLeftSkips(left: string, s: string)
    requires White(left)
    ensures TrimLeft(left + s) == TrimLeft(s)
  {
    if left == "" {
      assert left + s == s;
    } else {
      assert (left + s)[1..] == left[1..] + s;
      TrimLeftSkips(left[1..], s);
    }
  }

  lemma {:induction false} TrimRightSkips(s: string, right: string)
    requires White(right)
    ensures TrimRight(s + right) == TrimRight(s)
  {
    if right == "" {
      assert s + right == s;
    } else {
      var n := |right| - 1;
      assert (s + right)[..|s| + n] == s + right[..n];
      TrimRightSkips(s, right[..n]);
    }
  }

  /** So white space round a neat text is taken off, whatever stands inside. */
  lemma TrimStrips(left: string, v: string, right: string)
    requires White(left) && Neat(v) && White(right)
    ensures Trim(left + v + right) == v
  {
    assert left + v + right == left + (v + right);
    TrimLeftSkips(left, v + right);
    if v == "" {
      assert v + right == right + "";
      TrimLeftSkips(right, "");
    } else {
      assert (v + right)[0] == v[0];
      TrimRightSkips(v, right);
    }
  }

  /** The index of the first colon; the length when there is none. */
  function ColonIndex(line: string): (i: nat)
    ensures i <= |line|
    ensures i < |line| ==> line[i] == ':'
    ensures forall j :: 0 <= j < i ==> line[j] != ':'
  {
    if line == "" || line[0] == ':' then 0
    else
      var i := 1 + ColonIndex(line[1..]);
      assert forall j :: 0 < j < i ==> line[j] == line[1..][j - 1];
      i
  }

  lemma ColonIndexOf(name: string, rest: string)
    requires forall i :: 0 <= i < |name| ==> name[i] != ':'
    ensures ColonIndex(name + [':'] + rest) == |name|
  {
    var line := name + [':'] + rest;
    var k := ColonIndex(line);
    assert line[|name|] == ':';
    assert forall i :: 0 <= i < |name| ==> line[i] == name[i];
  }

  predicate IsDigit(c: char)
  {
    '0' <= c <= '9'
  }

  /** The value of the longest run of digits at the start of `s`, continuing from `acc`. */
  function LeadingDigits(s: string, acc: nat): nat
  {
    if s != "" && IsDigit(s[0]) then
      LeadingDigits(s[1..], 10 * acc + (s[0] as int - '0' as int))
    else acc
  }

  /** `integerValue` on a component that holds no whitespace: sign, digits, saturation. */
  function IntegerValue(s: string): int
  {
    var negative := s != "" && s[0] == '-';
    var signed := negative || (s != "" && s[0] == '+');
    var magnitude: int := LeadingDigits(if signed then s[1..] else s, 0);
    if negative then
      (if -magnitude < NS_INTEGER_MIN then NS_INTEGER_MIN else -magnitude)
    else
      (if magnitude > NS_INTEGER_MAX then NS_INTEGER_MAX else magnitude)
  }

  /** Decimal notation of a natural number. */
  function Decimal(n: nat): (s: string)
    ensures |s| > 0
    ensures forall i :: 0 <= i < |s| ==> IsDigit(s[i])
  {
    var last := [('0' as int + n % 10) as char];
    if n < 10 then last else Decimal(n / 10) + last
  }

  /** Decimal notation of a signed number. */
  function SignedDecimal(n: int): string
  {
    if n < 0 then "-" + Decimal(-n) else Decimal(n)
  }

  lemma {:induction false} LeadingDigitsAppend(s: string, c: char, acc: nat)
    requires forall i :: 0 <= i < |s| ==> IsDigit(s[i])
    requires IsDigit(c)
    ensures LeadingDigits(s + [c], acc) == 10 * LeadingDigits(s, acc) + (c as int - '0' as int)
  {
    if s == "" {
      assert LeadingDigits([c][1..], 10 * acc + (c as int - '0' as int)) == 10 * acc + (c as int - '0' as int);
      assert s + [c] == [c];
    } else {
      assert (s + [c])[1..] == s[1..] + [c];
      LeadingDigitsAppend(s[1..], c, 10 * acc + (s[0] as int - '0' as int));
    }
  }

  lemma {:induction false} LeadingDigitsDecimal(n: nat)
    ensures LeadingDigits(Decimal(n), 0) == n
  {
    if n >= 10 {
      LeadingDigitsDecimal(n / 10);
      LeadingDigitsAppend(Decimal(n / 10), ('0' as int + n % 10) as char, 0);
    }
  }

  /** `integerValue` reads back every NSInteger written in decimal, and saturates outside. */
  lemma IntegerValueDecimal(n: int)
    ensures IntegerValue(SignedDecimal(n)) ==
            if n < NS_INTEGER_MIN then NS_INTEGER_MIN else if n > NS_INTEGER_MAX then NS_INTEGER_MAX else n
  {
    if n < 0 {
      LeadingDigitsDecimal(-n);
      assert SignedDecimal(n)[1..] == Decimal(-n);
    } else {
      LeadingDigitsDecimal(n);
      assert IsDigit(SignedDecimal(n)[0]);
    }
  }

  predicate Digits(s: string)
  {
    forall i :: 0 <= i < |s| ==> IsDigit(s[i])
  }

  /** The number that a string of digits stands for. */
  function DigitsValue(s: string): int
    requires Digits(s)
  {
    if s == "" then 0 else 10 * DigitsValue(s[..|s| - 1]) + (s[|s| - 1] as int - '0' as int)
  }

  lemma {:induction false} LeadingDigitsValue(digits: string)
    requires Digits(digits)
    ensures LeadingDigits(digits, 0) == DigitsValue(digits)
  {
    if digits != "" {
      var n := |digits| - 1;
      LeadingDigitsValue(digits[..n]);
      assert digits == digits[..n] + [digits[n]];
      LeadingDigitsAppend(digits[..n], digits[n], 0);
    }
  }

  lemma {:induction false} LeadingDigitsStop(digits: string, junk: string, acc: nat)
    requires Digits(digits) && (junk == "" || !IsDigit(junk[0]))
    ensures LeadingDigits(digits + junk, acc) == LeadingDigits(digits, acc)
  {
    if digits == "" {
      assert digits + junk == junk;
    } else {
      assert (digits + junk)[1..] == digits[1..] + junk;
      LeadingDigitsStop(digits[1..], junk, 10 * acc + (digits[0] as int - '0' as int));
    }
  }

  /** The value within the range of NSInteger. */
  function Saturated(n: int): int
  {
    if n < -0x8000_0000_0000_0000 then -0x8000_0000_0000_0000
    else if n > 0x7fff_ffff_ffff_ffff then 0x7fff_ffff_ffff_ffff
    else n
  }

  lemma SignedRest(sign: char, s: string)
    ensures ([sign] + s)[0] == sign && ([sign] + s)[1..] == s
  {
  }

  /** On any text: an optional sign, the digits up to the first other character, saturation; zero when there are none. */
  lemma IntegerValueOf(digits: string, junk: string)
    requires Digits(digits) && (junk == "" || !IsDigit(junk[0]))
    ensures IntegerValue(['-'] + (digits + junk)) == Saturated(-DigitsValue(digits))
    ensures IntegerValue(['+'] + (digits + junk)) == Saturated(DigitsValue(digits))
    ensures !(digits == "" && junk != "" && junk[0] in {'-', '+'}) ==> IntegerValue(digits + junk) == Saturated(DigitsValue(digits))
  {
    LeadingDigitsValue(digits);
    LeadingDigitsStop(digits, junk, 0);
    SignedRest('-', digits + junk);
    SignedRest('+', digits + junk);
    assert digits != "" ==> (digits + junk)[0] == digits[0] && IsDigit(digits[0]);
    assert digits == "" ==> digits + junk == junk;
  }

  /** No character of a decimal number is white space. */
  lemma SignedDecimalFree(n: int)
    ensures Free(SignedDecimal(n), IsWhitespace)
  {
    var digits := Decimal(if n < 0 then -n else n);
    assert forall i :: 0 <= i < |digits| ==> IsDigit(digits[i]);
  }
}
