/** The text form of hardware addresses: the printer and the parser of hw_address.h. */
module HwAddressText {
  import opened Bytes
  import opened Wrappers

  // -------------------------------------------------------------------------
  // Printing
  // -------------------------------------------------------------------------

  function HexDigit(v: nat): char
    requires v < 16
  {
    if v < 10 then ('0' as int + v) as char else ('a' as int + v - 10) as char
  }

  /** `std::hex` output: no leading zero. */
  function Hex(v: nat): string
  {
    if v < 16 then [HexDigit(v)] else Hex(v / 16) + [HexDigit(v % 16)]
  }

  /** `storage_to_string` */
  function StorageToString(element: byte): string
  {
    (if element < 0x10 then "0" else "") + Hex(element)
  }

  /** `operator<<`: the elements, with colons between them. */
  function Print(addr: seq<byte>): string
    requires addr != []
  {
    if |addr| == 1 then StorageToString(addr[0]) else StorageToString(addr[0]) + ":" + Print(addr[1..])
  }

  // -------------------------------------------------------------------------
  // Parsing
  // -------------------------------------------------------------------------

  datatype ParseError = InvalidByte | InvalidSeparator

  predicate IsHex(c: char)
  {
    'a' <= c <= 'f' || 'A' <= c <= 'F' || '0' <= c <= '9'
  }

  function HexValue(c: char): nat
    requires IsHex(c)
  {
    if 'a' <= c <= 'f' then c as int - 'a' as int + 10
    else if 'A' <= c <= 'F' then c as int - 'A' as int + 10
    else c as int - '0' as int
  }

  /** `(tmp << 4) | digit` in one byte. */
  function PushDigit(tmp: byte, c: char): byte
    requires IsHex(c)
  {
    (16 * tmp) % 256 + HexValue(c)
  }

  /** Up to `left` digits; the terminating NUL is not one, so the text may not end before them. */
  function ReadGroup(s: string, left: nat, tmp: byte): (r: Result<(byte, string), ParseError>)
    ensures r.Ok? ==> |r.value.1| <= |s|
  {
    if left == 0 then Ok((tmp, s))
    else if s != "" && IsHex(s[0]) then ReadGroup(s[1..], left - 1, PushDigit(tmp, s[0]))
    else if s != "" && s[0] == ':' then Ok((tmp, s))
    else Err(InvalidByte)
  }

  function Prepend(bytes: seq<byte>, r: Result<seq<byte>, ParseError>): Result<seq<byte>, ParseError>
  {
    match r case Ok(more) => Ok(bytes + more) case Err(e) => Err(e)
  }

  /** Parsing the rest of a text into `n` bytes. */
  function Parse(s: string, n: nat): Result<seq<byte>, ParseError>
    decreases n
  {
    if s == "" || n == 0 then Ok(Fill(0, n))
    else
      match ReadGroup(s, 2, 0)
      case Err(e) => Err(e)
      case Ok((value, rest)) =>
        if rest == "" then Prepend([value], Parse("", n - 1))
        else if rest[0] == ':' then Prepend([value], Parse(rest[1..], n - 1))
        else Err(InvalidSeparator)
  }

  /** `convert` */
  method Convert(text: string, n: nat) returns (r: Result<seq<byte>, ParseError>)
    ensures r == Parse(text, n)
  {
    var output: seq<byte> := [];
    var i, count := 0, 0;
    assert text[0..] == text;
    PrependNothing(Parse(text, n));
    while i < |text| && count < n
      invariant 0 <= i <= |text| && count == |output| <= n
      invariant Parse(text, n) == Prepend(output, Parse(text[i..], n - count))
      decreases n - count
    {
      var group := ConvertGroup(text, i);
      if group.None? {
        return Err(InvalidByte);
      }
      var tmp: byte := group.value.0;
      i := group.value.1;
      PrependTwice(output, [tmp], Parse(if i < |text| then text[i + 1..] else "", n - count - 1));
      output := output + [tmp];
      count := count + 1;
      if i < |text| {
        if text[i] == ':' {
          i := i + 1;
        } else {
          return Err(InvalidSeparator);
        }
      }
    }
    while count < n
      invariant count == |output| <= n
      invariant Parse(text, n) == Ok(output + Fill(0, n - count))
    {
      assert Fill(0, n - count) == [0] + Fill(0, n - count - 1);
      assert output + Fill(0, n - count) == output + [0] + Fill(0, n - count - 1);
      output := output + [0];
      count := count + 1;
    }
    assert output + Fill(0, 0) == output;
    return Ok(output);
  }

  /** The inner loop: up to two digits from `start`, and where they end. */
  method ConvertGroup(text: string, start: nat) returns (group: Option<(byte, nat)>)
    requires start <= |text|
    ensures group.None? ==> ReadGroup(text[start..], 2, 0) == Err(InvalidByte)
    ensures group.Some? ==> start <= group.value.1 <= |text|
    ensures group.Some? ==> ReadGroup(text[start..], 2, 0) == Ok((group.value.0, text[group.value.1..]))
  {
    var i, end := start, start + 2;
    var tmp: byte := 0;
    while i < end
      invariant start <= i <= |text| && i <= end
      invariant ReadGroup(text[start..], 2, 0) == ReadGroup(text[i..], end - i, tmp)
    {
      if i < |text| && 'a' <= text[i] <= 'f' {
        tmp := (16 * tmp) % 256 + (text[i] as int - 'a' as int + 10);
      } else if i < |text| && 'A' <= text[i] <= 'F' {
        tmp := (16 * tmp) % 256 + (text[i] as int - 'A' as int + 10);
      } else if i < |text| && '0' <= text[i] <= '9' {
        tmp := (16 * tmp) % 256 + (text[i] as int - '0' as int);
      } else if i < |text| && text[i] == ':' {
        break;
      } else {
        return None;
      }
      i := i + 1;
    }
    return Some((tmp, i));
  }

  lemma PrependNothing(r: Result<seq<byte>, ParseError>)
    ensures Prepend([], r) == r
  {
    if r.Ok? {
      assert [] + r.value == r.value;
    }
  }

  lemma PrependTwice(a: seq<byte>, b: seq<byte>, r: Result<seq<byte>, ParseError>)
    ensures Prepend(a, Prepend(b, r)) == Prepend(a + b, r)
  {
    if r.Ok? {
      assert a + (b + r.value) == a + b + r.value;
    }
  }

  /** The parser writes exactly `n` bytes on every success. */
  lemma {:induction false} ParseWritesAll(s: string, n: nat)
    ensures Parse(s, n).Ok? ==> |Parse(s, n).value| == n
    decreases n
  {
    if s != "" && n > 0 && ReadGroup(s, 2, 0).Ok? {
      var rest := ReadGroup(s, 2, 0).value.1;
      ParseWritesAll("", n - 1);
      if rest != "" {
        ParseWritesAll(rest[1..], n - 1);
      }
    }
  }

  // -------------------------------------------------------------------------
  // What the parser accepts
  // -------------------------------------------------------------------------

  predicate IsGroup(g: string)
  {
    |g| <= 2 && forall i :: 0 <= i < |g| ==> IsHex(g[i])
  }

  /** The number a group of at most two digits stands for. */
  function GroupValue(g: string): byte
    requires IsGroup(g)
  {
    if g == "" then 0 else if |g| == 1 then HexValue(g[0]) else 16 * HexValue(g[0]) + HexValue(g[1])
  }

  predicate AreGroups(gs: seq<string>)
  {
    forall i :: 0 <= i < |gs| ==> IsGroup(gs[i])
  }

  function GroupValues(gs: seq<string>): seq<byte>
    requires AreGroups(gs)
  {
    seq(|gs|, i requires 0 <= i < |gs| => GroupValue(gs[i]))
  }

  /** Every group followed by a colon. */
  function Terminated(gs: seq<string>): string
  {
    if gs == [] then "" else gs[0] + ":" + Terminated(gs[1..])
  }

  /**
   The accepted texts: groups that end in colons, then nothing, or one full group if there is
   room for it, or anything at all if there is none.
   */
  predicate Shape(s: string, n: nat, gs: seq<string>, last: string)
  {
    && AreGroups(gs) && s == Terminated(gs) + last
    && (|gs| == n || (|gs| < n && (last == "" || (|last| == 2 && IsGroup(last)))))
  }

  /** The bytes of such a text: the group values, padded with zeros. */
  function ShapeValue(n: nat, gs: seq<string>, last: string): seq<byte>
    requires AreGroups(gs) && |gs| <= n && (|gs| < n ==> IsGroup(last))
  {
    GroupValues(gs) +
    (if |gs| == n then [] else if last == "" then Fill(0, n - |gs|) else [GroupValue(last)] + Fill(0, n - |gs| - 1))
  }

  lemma TwoDigits(a: char, b: char)
    requires IsHex(a) && IsHex(b)
    ensures PushDigit(PushDigit(0, a), b) == 16 * HexValue(a) + HexValue(b)
  {
    assert PushDigit(0, a) == HexValue(a) < 16;
  }

  lemma ReadFullGroup(g: string, rest: string)
    requires IsGroup(g) && |g| == 2
    ensures ReadGroup(g + rest, 2, 0) == Ok((GroupValue(g), rest))
  {
    var s := g + rest;
    assert s[0] == g[0] && s[1..][0] == g[1] && s[1..][1..] == rest;
    assert ReadGroup(s, 2, 0) == ReadGroup(s[1..], 1, PushDigit(0, g[0]));
    var tmp := PushDigit(PushDigit(0, g[0]), g[1]);
    TwoDigits(g[0], g[1]);
    assert ReadGroup(s[1..], 1, PushDigit(0, g[0])) == ReadGroup(rest, 0, tmp) == Ok((tmp, rest));
  }

  lemma ReadColonGroup(g: string, rest: string)
    requires IsGroup(g)
    ensures ReadGroup(g + ":" + rest, 2, 0) == Ok((GroupValue(g), ":" + rest))
  {
    var s := g + ":" + rest;
    if |g| == 2 {
      ReadFullGroup(g, ":" + rest);
      assert s == g + (":" + rest);
    } else if |g| == 1 {
      assert s[0] == g[0] && s[1..] == ":" + rest;
    } else {
      assert s == ":" + rest;
    }
  }

  /** Every text of the shape parses, to its groups' values. */
  lemma {:induction false} ShapeParses(s: string, n: nat, gs: seq<string>, last: string)
    requires Shape(s, n, gs, last)
    ensures Parse(s, n) == Ok(ShapeValue(n, gs, last))
    decreases n
  {
    assert gs == [] ==> GroupValues(gs) == [] && ShapeValue(n, gs, "") == Fill(0, n);
    if n == 0 {
      assert Fill(0, 0) == [];
    } else if gs != [] {
      var rest := Terminated(gs[1..]) + last;
      assert s == gs[0] + ":" + rest;
      ReadColonGroup(gs[0], rest);
      assert (":" + rest)[1..] == rest;
      ShapeParses(rest, n - 1, gs[1..], last);
      assert GroupValues(gs) == [GroupValue(gs[0])] + GroupValues(gs[1..]);
      assert ShapeValue(n, gs, last) == [GroupValue(gs[0])] + ShapeValue(n - 1, gs[1..], last);
    } else if last != "" {
      ReadFullGroup(last, "");
      assert s == last + "";
      assert Parse("", n - 1) == Ok(Fill(0, n - 1));
      assert ShapeValue(n, gs, last) == [GroupValue(last)] + Fill(0, n - 1);
    }
  }

  /** What a successful group read has consumed. */
  lemma ReadGroupShape(s: string)
    requires ReadGroup(s, 2, 0).Ok?
    ensures var rest := ReadGroup(s, 2, 0).value.1;
      var g := s[..|s| - |rest|];
      IsGroup(g) && s == g + rest && (rest == "" ==> |g| == 2)
  {
    if IsHex(s[0]) && s[1..] != "" && IsHex(s[1]) {
      var tmp := PushDigit(0, s[0]);
      assert s[1..][0] == s[1] && s[1..][1..] == s[2..];
      assert ReadGroup(s[1..], 1, tmp) == ReadGroup(s[2..], 0, PushDigit(tmp, s[1]));
      assert ReadGroup(s[2..], 0, PushDigit(tmp, s[1])) == Ok((PushDigit(tmp, s[1]), s[2..]));
    }
  }

  /** And nothing else parses. */
  lemma {:induction false} ParsedShape(s: string, n: nat) returns (gs: seq<string>, last: string)
    requires Parse(s, n).Ok?
    ensures Shape(s, n, gs, last)
    decreases n
  {
    if s == "" || n == 0 {
      gs, last := [], s;
      assert Terminated(gs) + last == s;
    } else {
      var rest := ReadGroup(s, 2, 0).value.1;
      var g := s[..|s| - |rest|];
      ReadGroupShape(s);
      if rest == "" {
        gs, last := [], g;
        assert Terminated(gs) + last == s;
      } else {
        gs, last := ParsedShape(rest[1..], n - 1);
        assert s == g + ":" + rest[1..];
        ShapePrepend(g, rest[1..], n, gs, last);
        gs := [g] + gs;
      }
    }
  }

  lemma ShapePrepend(g: string, rest: string, n: nat, gs: seq<string>, last: string)
    requires IsGroup(g) && n > 0 && Shape(rest, n - 1, gs, last)
    ensures Shape(g + ":" + rest, n, [g] + gs, last)
  {
    var all := [g] + gs;
    assert all[1..] == gs && all[0] == g;
    assert Terminated(all) + last == g + ":" + (Terminated(gs) + last);
  }

  /** The parser accepts a text exactly when it has the shape. */
  lemma AcceptsIff(s: string, n: nat)
    ensures Parse(s, n).Ok? <==> exists gs, last :: Shape(s, n, gs, last)
  {
    if Parse(s, n).Ok? {
      var gs, last := ParsedShape(s, n);
    }
    forall gs, last | Shape(s, n, gs, last) ensures Parse(s, n).Ok? {
      ShapeParses(s, n, gs, last);
    }
  }

  /** Groups that end in colons, then two digits that neither a colon nor the end follows, while there is room. */
  ghost predicate SeparatorMissing(s: string, n: nat, gs: seq<string>, g: string, c: char, rest: string)
  {
    AreGroups(gs) && |gs| < n && IsGroup(g) && |g| == 2 && c != ':' && s == Terminated(gs) + (g + ([c] + rest))
  }

  lemma {:induction false} MissingSeparatorFound(s: string, n: nat, gs: seq<string>, g: string, c: char, rest: string)
    requires SeparatorMissing(s, n, gs, g, c, rest)
    ensures Parse(s, n) == Err(InvalidSeparator)
    decreases |gs|
  {
    if gs == [] {
      assert s == g + ([c] + rest);
      ReadFullGroup(g, [c] + rest);
    } else {
      var tail := Terminated(gs[1..]) + (g + ([c] + rest));
      assert s == gs[0] + ":" + tail;
      ReadColonGroup(gs[0], tail);
      assert (":" + tail)[1..] == tail;
      MissingSeparatorFound(tail, n - 1, gs[1..], g, c, rest);
    }
  }

  lemma {:induction false} MissingSeparator(s: string, n: nat) returns (gs: seq<string>, g: string, c: char, rest: string)
    requires Parse(s, n) == Err(InvalidSeparator)
    ensures SeparatorMissing(s, n, gs, g, c, rest)
    decreases n
  {
    SeparatorErrors(s, n);
    var after := ReadGroup(s, 2, 0).value.1;
    var first := s[..|s| - |after|];
    ReadGroupShape(s);
    if after[0] == ':' {
      gs, g, c, rest := MissingSeparator(after[1..], n - 1);
      assert s == first + ":" + after[1..];
      MissingPrepend(first, after[1..], n, gs, g, c, rest);
      gs := [first] + gs;
    } else {
      gs, g, c, rest := [], first, after[0], after[1..];
      FullBeforeOther(s);
      assert after == [c] + rest;
      assert Terminated([]) + (first + after) == s;
    }
  }

  lemma SeparatorErrors(s: string, n: nat)
    requires Parse(s, n) == Err(InvalidSeparator)
    ensures s != "" && n > 0 && ReadGroup(s, 2, 0).Ok?
    ensures var after := ReadGroup(s, 2, 0).value.1;
      after != "" && (after[0] == ':' ==> Parse(after[1..], n - 1) == Err(InvalidSeparator))
  {
    GroupErrors(s, 2, 0);
  }

  lemma MissingPrepend(first: string, s: string, n: nat, gs: seq<string>, g: string, c: char, rest: string)
    requires IsGroup(first) && n > 0 && SeparatorMissing(s, n - 1, gs, g, c, rest)
    ensures SeparatorMissing(first + ":" + s, n, [first] + gs, g, c, rest)
  {
    var all := [first] + gs;
    assert all[1..] == gs && all[0] == first;
    assert Terminated(all) + (g + ([c] + rest)) == first + ":" + (Terminated(gs) + (g + ([c] + rest)));
  }

  lemma {:induction false} GroupErrors(s: string, left: nat, tmp: byte)
    ensures ReadGroup(s, left, tmp).Err? ==> ReadGroup(s, left, tmp) == Err(InvalidByte)
  {
    if left > 0 && s != "" && IsHex(s[0]) {
      GroupErrors(s[1..], left - 1, PushDigit(tmp, s[0]));
    }
  }

  lemma FullBeforeOther(s: string)
    requires ReadGroup(s, 2, 0).Ok?
    ensures var rest := ReadGroup(s, 2, 0).value.1; rest != "" && rest[0] != ':' ==> |s| - |rest| == 2
  {
    if IsHex(s[0]) && s[1..] != "" && IsHex(s[1]) {
      var tmp := PushDigit(0, s[0]);
      assert s[1..][0] == s[1] && s[1..][1..] == s[2..];
      assert ReadGroup(s[1..], 1, tmp) == ReadGroup(s[2..], 0, PushDigit(tmp, s[1]));
    }
  }

  /** The separator exception is raised exactly in this case; the other exception for all other texts that are not accepted. */
  lemma InvalidSeparatorIff(s: string, n: nat)
    ensures Parse(s, n) == Err(InvalidSeparator) <==> exists gs, g, c, rest :: SeparatorMissing(s, n, gs, g, c, rest)
  {
    if Parse(s, n) == Err(InvalidSeparator) {
      var gs, g, c, rest := MissingSeparator(s, n);
    }
    if gs, g, c, rest :| SeparatorMissing(s, n, gs, g, c, rest) {
      MissingSeparatorFound(s, n, gs, g, c, rest);
    }
  }

  // -------------------------------------------------------------------------
  // Digits
  // -------------------------------------------------------------------------

  const DIGITS := "0123456789abcdef"

  /** The digits are those, and the upper-case letters with the value of their lower-case form. */
  lemma HexIff(c: char)
    ensures IsHex(c) <==> c in DIGITS || c in "ABCDEF"
    ensures IsHex(c) ==> HexValue(c) < 16
    ensures c in DIGITS ==> DIGITS[HexValue(c)] == c
    ensures c in "ABCDEF" ==> "ABCDEF"[HexValue(c) - 10] == c
  {
  }

  /** A byte is printed as two lower-case digits. */
  lemma PrintedByte(b: byte)
    ensures StorageToString(b) == [DIGITS[b / 16], DIGITS[b % 16]]
  {
    PrintedDigit(b / 16);
    PrintedDigit(b % 16);
    if b >= 16 {
      assert Hex(b / 16) == [HexDigit(b / 16)];
    }
  }

  lemma PrintedDigit(v: nat)
    requires v < 16
    ensures HexDigit(v) == DIGITS[v]
  {
  }

  /** And an address as its bytes, with a colon between two of them. */
  lemma {:induction false} PrintedAt(addr: seq<byte>, i: nat)
    requires i < |addr|
    ensures |Print(addr)| == 3 * |addr| - 1
    ensures Print(addr)[3 * i] == DIGITS[addr[i] / 16] && Print(addr)[3 * i + 1] == DIGITS[addr[i] % 16]
    ensures i + 1 < |addr| ==> Print(addr)[3 * i + 2] == ':'
  {
    PrintedByte(addr[0]);
    if |addr| > 1 {
      PrintedAt(addr[1..], if i == 0 then 0 else i - 1);
    }
  }

  // -------------------------------------------------------------------------
  // Round trip and letter case
  // -------------------------------------------------------------------------

  /** The converting constructor: the first `n` bytes, padded with zeros. */
  function Resize(addr: seq<byte>, n: nat): seq<byte>
  {
    if |addr| >= n then addr[..n] else addr + Fill(0, n - |addr|)
  }

  lemma StorageToStringIsGroup(b: byte)
    ensures |StorageToString(b)| == 2 && IsGroup(StorageToString(b)) && GroupValue(StorageToString(b)) == b
  {
    if b >= 16 {
      assert Hex(b / 16) == [HexDigit(b / 16)];
    }
  }

  function Printed(addr: seq<byte>): seq<string>
  {
    seq(|addr|, i requires 0 <= i < |addr| => StorageToString(addr[i]))
  }

  lemma PrintedGroups(addr: seq<byte>)
    ensures AreGroups(Printed(addr)) && GroupValues(Printed(addr)) == addr
  {
    forall i | 0 <= i < |addr| ensures IsGroup(Printed(addr)[i]) && GroupValue(Printed(addr)[i]) == addr[i] {
      StorageToStringIsGroup(addr[i]);
    }
  }

  /** The printed form is its groups, cut anywhere. */
  lemma {:induction false} PrintShape(addr: seq<byte>, k: nat)
    requires k < |addr|
    ensures Print(addr) == Terminated(Printed(addr[..k])) + Print(addr[k..])
  {
    if k == 0 {
      assert addr[..0] == [] && addr[0..] == addr;
    } else {
      PrintShape(addr[1..], k - 1);
      assert addr[1..][..k - 1] == addr[1..k] && addr[1..][k - 1..] == addr[k..];
      TerminatedPrinted(addr, k);
      Associative(StorageToString(addr[0]) + ":", Terminated(Printed(addr[1..k])), Print(addr[k..]));
    }
  }

  lemma Associative(a: string, b: string, c: string)
    ensures a + (b + c) == a + b + c
  {
  }

  lemma TerminatedPrinted(addr: seq<byte>, k: nat)
    requires 0 < k <= |addr|
    ensures Terminated(Printed(addr[..k])) == StorageToString(addr[0]) + ":" + Terminated(Printed(addr[1..k]))
  {
    var gs := Printed(addr[..k]);
    assert gs[0] == StorageToString(addr[0]) && gs[1..] == Printed(addr[1..k]);
  }

  /**
   Parsing the printed form of an address of any size into `n` bytes does what the converting
   constructor does; with n == |addr| it is the identity.
   */
  lemma PrintThenParse(addr: seq<byte>, n: nat)
    requires addr != []
    ensures Parse(Print(addr), n) == Ok(Resize(addr, n))
  {
    if |addr| > n {
      PrintShape(addr, n);
      PrintedGroups(addr[..n]);
      ShapeParses(Print(addr), n, Printed(addr[..n]), Print(addr[n..]));
      assert ShapeValue(n, Printed(addr[..n]), Print(addr[n..])) == addr[..n];
    } else {
      var k := |addr| - 1;
      PrintShape(addr, k);
      PrintedGroups(addr[..k]);
      StorageToStringIsGroup(addr[k]);
      assert Print(addr[k..]) == StorageToString(addr[k]);
      ShapeParses(Print(addr), n, Printed(addr[..k]), StorageToString(addr[k]));
      assert Resize(addr, n) == addr[..k] + ([addr[k]] + Fill(0, n - |addr|));
    }
  }

  function Upper(s: string): string
  {
    seq(|s|, i requires 0 <= i < |s| => if 'a' <= s[i] <= 'z' then (s[i] as int - 32) as char else s[i])
  }

  lemma {:induction false} ReadGroupUpper(s: string, left: nat, tmp: byte)
    ensures match ReadGroup(s, left, tmp)
      case Err(e) => ReadGroup(Upper(s), left, tmp) == Err(e)
      case Ok((v, rest)) => ReadGroup(Upper(s), left, tmp) == Ok((v, Upper(rest)))
  {
    if left > 0 && s != "" {
      assert Upper(s)[1..] == Upper(s[1..]);
      assert IsHex(Upper(s)[0]) <==> IsHex(s[0]);
      assert Upper(s)[0] == ':' <==> s[0] == ':';
      if IsHex(s[0]) {
        assert HexValue(Upper(s)[0]) == HexValue(s[0]);
        ReadGroupUpper(s[1..], left - 1, PushDigit(tmp, s[0]));
      }
    }
  }

  /** Letter case makes no difference, on any text. */
  lemma {:induction false} ParseIgnoresCase(s: string, n: nat)
    ensures Parse(Upper(s), n) == Parse(s, n)
    decreases n
  {
    if s != "" && n > 0 {
      ReadGroupUpper(s, 2, 0);
      if ReadGroup(s, 2, 0).Ok? {
        var rest := ReadGroup(s, 2, 0).value.1;
        if rest != "" {
          assert Upper(rest)[1..] == Upper(rest[1..]);
          assert Upper(rest)[0] == ':' <==> rest[0] == ':';
          ParseIgnoresCase(rest[1..], n - 1);
        }
      }
    }
  }
}
