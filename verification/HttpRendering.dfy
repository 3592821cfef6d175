/** HTTP heads written out (section 3 of RFC 7230), and the round trips through the parsers. */
module HttpRendering {
  import opened Wrappers
  import opened HttpText
  import opened HttpParsing

  function RenderHeader(h: Header): string
  {
    h.0 + ": " + h.1
  }

  function HeaderBlock(headers: seq<Header>): seq<string>
  {
    seq(|headers|, i requires 0 <= i < |headers| => RenderHeader(headers[i]))
  }

  /** Every line ended by CRLF. */
  function RenderLines(lines: seq<string>): string
  {
    if lines == [] then "" else lines[0] + CRLF + RenderLines(lines[1..])
  }

  /** A first line, header lines and an empty line. */
  function RenderHead(first: string, headers: seq<Header>): string
  {
    RenderLines([first] + HeaderBlock(headers)) + CRLF
  }

  function RenderStatusLine(version: string, status: int, reason: string): string
  {
    version + " " + SignedDecimal(status) + " " + reason
  }

  function RenderRequestLine(verb: string, path: string, version: string): string
  {
    verb + " " + path + " " + version
  }

  /** Names hold no colon, and neither part holds a line break. */
  predicate Sendable(headers: seq<Header>)
  {
    forall i :: 0 <= i < |headers| ==> LineSafe(headers[i].0) && NoColon(headers[i].0) && LineSafe(headers[i].1)
  }

  /** The values without surrounding white space. */
  function Trimmed(headers: seq<Header>): seq<Header>
  {
    seq(|headers|, i requires 0 <= i < |headers| => (headers[i].0, Trim(headers[i].1)))
  }

  /** Lines that may stand in a head. */
  predicate LinesSafe(lines: seq<string>)
  {
    forall i :: 0 <= i < |lines| ==> lines[i] != "" && LineSafe(lines[i])
  }

  // -------------------------------------------------------------------------
  // Any head
  // -------------------------------------------------------------------------

  lemma SplitLine(line: string, rest: string)
    requires LineSafe(line)
    ensures Split(line + CRLF + rest, IsNewline) == [line, ""] + Split(rest, IsNewline)
  {
    SplitCrlf(line, rest);
    SplitFree(line, IsNewline);
    assert [line] + [""] == [line, ""];
  }

  lemma HeadOfLine(line: string, rest: seq<string>, empties: nat)
    requires line != "" && empties <= 1
    ensures HeadLines([line, ""] + rest, empties) == [line] + HeadLines(rest, 1)
  {
    var all := [line, ""] + rest;
    assert all[1..] == [""] + rest && ([""] + rest)[1..] == rest;
    assert HeadLines(all[1..], 0) == HeadLines(rest, 1);
  }

  /** The head of the written lines is those lines, whatever body follows. */
  lemma {:induction false} WrittenHead(lines: seq<string>, body: string, empties: nat)
    requires LinesSafe(lines) && empties <= 1
    ensures HeadLines(Split(RenderLines(lines) + CRLF + body, IsNewline), empties) == lines
  {
    if lines == [] {
      SplitLine("", body);
      assert RenderLines(lines) + CRLF + body == "" + CRLF + body;
      var all := ["", ""] + Split(body, IsNewline);
      assert all[1..] == [""] + Split(body, IsNewline);
      assert HeadLines(all[1..], empties + 1) == [];
    } else {
      var rest := RenderLines(lines[1..]) + CRLF + body;
      assert RenderLines(lines) + CRLF + body == lines[0] + CRLF + rest;
      SplitLine(lines[0], rest);
      HeadOfLine(lines[0], Split(rest, IsNewline), empties);
      WrittenHead(lines[1..], body, 1);
      assert lines == [lines[0]] + lines[1..];
    }
  }

  lemma RenderedHeaderOf(h: Header)
    requires NoColon(h.0)
    ensures HeaderOf(RenderHeader(h)) == Some((h.0, Trim(h.1)))
  {
    var line := RenderHeader(h);
    assert line == h.0 + [':'] + (" " + h.1);
    ColonIndexOf(h.0, " " + h.1);
    TrimDropsLeadingSpace(h.1);
    assert line[..|h.0|] == h.0 && line[|h.0| + 1..] == " " + h.1;
  }

  lemma TrimDropsLeadingSpace(v: string)
    ensures Trim(" " + v) == Trim(v)
  {
    assert (" " + v)[1..] == v;
  }

  lemma HeaderLinesNext(line: string, rest: seq<string>, h: Header)
    requires HeaderOf(line) == Some(h)
    ensures HeaderLines([line] + rest) == [h] + HeaderLines(rest)
  {
    assert ([line] + rest)[1..] == rest;
  }

  /** The header lines of a written block are its headers, values trimmed. */
  lemma {:induction false} HeaderLinesOfBlock(headers: seq<Header>)
    requires Sendable(headers)
    ensures HeaderLines(HeaderBlock(headers)) == Trimmed(headers)
  {
    if headers != [] {
      var line, rest, h := RenderHeader(headers[0]), headers[1..], (headers[0].0, Trim(headers[0].1));
      assert HeaderBlock(headers) == [line] + HeaderBlock(rest);
      assert Trimmed(headers) == [h] + Trimmed(rest);
      RenderedHeaderOf(headers[0]);
      HeaderLinesOfBlock(rest);
      HeaderLinesNext(line, HeaderBlock(rest), h);
    }
  }

  lemma BlockSafe(first: string, headers: seq<Header>)
    requires first != "" && LineSafe(first) && Sendable(headers)
    ensures LinesSafe([first] + HeaderBlock(headers))
  {
    forall i | 0 <= i < |headers| ensures RenderHeader(headers[i]) != "" && LineSafe(RenderHeader(headers[i])) {
      RenderedLineSafe(headers[i]);
    }
  }

  lemma RenderedLineSafe(h: Header)
    requires LineSafe(h.0) && LineSafe(h.1)
    ensures RenderHeader(h) != "" && LineSafe(RenderHeader(h))
  {
    assert |RenderHeader(h)| >= 2;
  }

  // -------------------------------------------------------------------------
  // Responses
  // -------------------------------------------------------------------------

  lemma StatusLineParses(version: string, status: int, reason: string)
    requires Free(version, IsWhitespace) && NS_INTEGER_MIN <= status <= NS_INTEGER_MAX
    ensures StatusLine(RenderStatusLine(version, status, reason), RESPONSE_SCAN_START.response)
         == HttpResponse(status, Some(version), map[])
  {
    var code := SignedDecimal(status);
    var tail := code + [' '] + reason;
    assert RenderStatusLine(version, status, reason) == version + [' '] + tail;
    SplitAt(version, ' ', tail, IsWhitespace);
    SplitAt(code, ' ', reason, IsWhitespace);
    SignedDecimalFree(status);
    SplitFree(version, IsWhitespace);
    SplitFree(code, IsWhitespace);
    IntegerValueDecimal(status);
  }

  lemma StatusLineSafe(version: string, status: int, reason: string)
    requires Free(version, IsWhitespace) && LineSafe(reason)
    ensures LineSafe(RenderStatusLine(version, status, reason)) && RenderStatusLine(version, status, reason) != ""
  {
    SignedDecimalFree(status);
    assert |RenderStatusLine(version, status, reason)| >= 2;
  }

  /** Writing a response head and parsing it, whatever body follows, gives it back. */
  lemma ResponseRoundTrip(version: string, status: int, reason: string, headers: seq<Header>, body: string)
    requires Free(version, IsWhitespace) && LineSafe(reason)
    requires NS_INTEGER_MIN <= status <= NS_INTEGER_MAX && Sendable(headers)
    ensures ResponseOf(RenderHead(RenderStatusLine(version, status, reason), headers) + body)
         == HttpResponse(status, Some(version), HeaderMap(Trimmed(headers), map[]))
  {
    var first := RenderStatusLine(version, status, reason);
    var lines := [first] + HeaderBlock(headers);
    StatusLineSafe(version, status, reason);
    BlockSafe(first, headers);
    ResponseIsItsHead(RenderHead(first, headers) + body);
    WrittenHead(lines, body, 0);
    StatusLineParses(version, status, reason);
    HeaderLinesOfBlock(headers);
    assert lines[1..] == HeaderBlock(headers);
  }

  /** Values without white space at their ends are read back as they are. */
  lemma NeatIsTrimmed(headers: seq<Header>)
    requires forall i :: 0 <= i < |headers| ==> Neat(headers[i].1)
    ensures Trimmed(headers) == headers
  {
    forall i | 0 <= i < |headers| ensures Trim(headers[i].1) == headers[i].1 {
      TrimStrips("", headers[i].1, "");
      assert "" + headers[i].1 + "" == headers[i].1;
    }
  }

  /** Neat values under distinct names. */
  predicate Plain(headers: seq<Header>)
  {
    && Sendable(headers)
    && (forall i :: 0 <= i < |headers| ==> Neat(headers[i].1))
    && (forall i, j :: 0 <= i < j < |headers| ==> headers[i].0 != headers[j].0)
  }

  /** The dictionary holds the listed headers and no others. */
  predicate Holds(m: map<string, string>, headers: seq<Header>)
  {
    && (forall i :: 0 <= i < |headers| ==> headers[i].0 in m && m[headers[i].0] == headers[i].1)
    && (forall name :: name in m ==> exists i :: 0 <= i < |headers| && headers[i].0 == name)
  }

  lemma PlainHeaderMap(headers: seq<Header>)
    requires Plain(headers)
    ensures Trimmed(headers) == headers && Holds(HeaderMap(headers, map[]), headers)
  {
    NeatIsTrimmed(headers);
    HeaderMapExact(headers, "");
    var m := HeaderMap(headers, map[]);
    forall i | 0 <= i < |headers| ensures headers[i].0 in m && m[headers[i].0] == headers[i].1 {
      assert Lookup(m, headers[i].0) == Some(headers[i].1);
    }
    forall name | name in m ensures exists i :: 0 <= i < |headers| && headers[i].0 == name {
      HeaderMapExact(headers, name);
      assert Lookup(m, name).Some?;
    }
  }

  /** So a response with plain headers is read back as written. */
  lemma ResponseReadBack(version: string, status: int, reason: string, headers: seq<Header>, body: string)
    requires Free(version, IsWhitespace) && LineSafe(reason)
    requires NS_INTEGER_MIN <= status <= NS_INTEGER_MAX && Plain(headers)
    ensures var response := ResponseOf(RenderHead(RenderStatusLine(version, status, reason), headers) + body);
      response.status == status && response.version == Some(version) && Holds(response.headers, headers)
  {
    ResponseRoundTrip(version, status, reason, headers, body);
    PlainHeaderMap(headers);
  }

  /** A header line overrides all earlier ones of its name, and only those. */
  lemma ResponseLaterHeader(version: string, status: int, reason: string, headers: seq<Header>, h: Header, body: string)
    requires Free(version, IsWhitespace) && LineSafe(reason)
    requires NS_INTEGER_MIN <= status <= NS_INTEGER_MAX && Sendable(headers + [h]) && Neat(h.1)
    ensures var first := RenderStatusLine(version, status, reason);
      ResponseOf(RenderHead(first, headers + [h]) + body).headers == ResponseOf(RenderHead(first, headers) + body).headers[h.0 := h.1]
  {
    SendableInit(headers, h);
    ResponseRoundTrip(version, status, reason, headers, body);
    ResponseRoundTrip(version, status, reason, headers + [h], body);
    HeaderMapLater(headers, h);
  }

  lemma SendableInit(headers: seq<Header>, h: Header)
    requires Sendable(headers + [h])
    ensures Sendable(headers)
  {
    assert forall i :: 0 <= i < |headers| ==> (headers + [h])[i] == headers[i];
  }

  lemma HeaderMapLater(headers: seq<Header>, h: Header)
    requires Neat(h.1)
    ensures Trimmed(headers + [h]) == Trimmed(headers) + [h]
    ensures HeaderMap(Trimmed(headers + [h]), map[]) == HeaderMap(Trimmed(headers), map[])[h.0 := h.1]
  {
    NeatIsTrimmed([h]);
    assert Trimmed(headers + [h]) == Trimmed(headers) + Trimmed([h]);
    HeaderMapAppend(Trimmed(headers), [h], map[]);
    assert [h][1..] == [];
  }

  /** With distinct names the dictionary is exactly the list. */
  lemma HeaderMapExact(headers: seq<Header>, name: string)
    requires forall i, j :: 0 <= i < j < |headers| ==> headers[i].0 != headers[j].0
    ensures forall i :: 0 <= i < |headers| ==> Lookup(HeaderMap(headers, map[]), headers[i].0) == Some(headers[i].1)
    ensures Lookup(HeaderMap(headers, map[]), name) == None <==> forall i :: 0 <= i < |headers| ==> headers[i].0 != name
  {
    forall i | 0 <= i < |headers| ensures Lookup(HeaderMap(headers, map[]), headers[i].0) == Some(headers[i].1) {
      HeaderMapLookup(headers, map[], headers[i].0);
      LastValueAt(headers, i);
    }
    HeaderMapLookup(headers, map[], name);
    LastValueNone(headers, name);
  }

  lemma {:induction false} LastValueAt(headers: seq<Header>, i: nat)
    requires i < |headers| && forall j :: i < j < |headers| ==> headers[j].0 != headers[i].0
    ensures LastValue(headers, headers[i].0) == Some(headers[i].1)
  {
    LastValueNone(headers[1..], headers[i].0);
    if i > 0 {
      LastValueAt(headers[1..], i - 1);
    }
  }

  lemma {:induction false} LastValueNone(headers: seq<Header>, name: string)
    ensures LastValue(headers, name) == None <==> forall i :: 0 <= i < |headers| ==> headers[i].0 != name
  {
    if headers != [] {
      LastValueNone(headers[1..], name);
      assert forall i :: 0 < i < |headers| ==> headers[i] == headers[1..][i - 1];
    }
  }

  /** A written head ends in CRLFCRLF. */
  lemma {:induction false} LinesEnd(lines: seq<string>) returns (d: string)
    requires lines != []
    ensures RenderLines(lines) == d + CRLF
  {
    if |lines| == 1 {
      d := lines[0];
      assert RenderLines(lines[1..]) == "";
    } else {
      var d' := LinesEnd(lines[1..]);
      d := lines[0] + CRLF + d';
    }
  }

  lemma HeadEndsBlank(first: string, headers: seq<Header>) returns (d: string)
    ensures RenderHead(first, headers) == d + CRLF_CRLF
  {
    d := LinesEnd([first] + HeaderBlock(headers));
    assert d + CRLF + CRLF == d + CRLF_CRLF;
  }

  // -------------------------------------------------------------------------
  // Requests
  // -------------------------------------------------------------------------

  lemma RequestLineParses(verb: string, path: string, version: string)
    requires Free(verb, IsWhitespace) && Free(path, IsWhitespace)
    ensures Split(RenderRequestLine(verb, path, version), IsWhitespace) == [verb, path] + Split(version, IsWhitespace)
  {
    var target := path + [' '] + version;
    assert RenderRequestLine(verb, path, version) == verb + [' '] + target;
    SplitAt(verb, ' ', target, IsWhitespace);
    SplitAt(path, ' ', version, IsWhitespace);
    SplitFree(verb, IsWhitespace);
    SplitFree(path, IsWhitespace);
  }

  lemma RequestLineSafe(verb: string, path: string, version: string)
    requires Free(verb, IsWhitespace) && Free(path, IsWhitespace) && LineSafe(version)
    ensures LineSafe(RenderRequestLine(verb, path, version)) && RenderRequestLine(verb, path, version) != ""
  {
    assert |RenderRequestLine(verb, path, version)| >= 2;
  }

  lemma SkipBlank(line: string, rest: seq<string>)
    ensures HeaderLines([line, ""] + rest) == HeaderLines([line]) + HeaderLines(rest)
  {
    HeaderLinesAppend([line, ""], rest);
    HeaderLinesAppend([line], [""]);
    assert [line, ""] == [line] + [""];
    assert HeaderOf("").None? && HeaderLines([""]) == [];
  }

  lemma NoHeaderInBlankEnd()
    ensures HeaderLines(Split(CRLF, IsNewline)) == []
  {
    SplitLine("", "");
    assert "" + CRLF + "" == CRLF;
    SkipBlank("", Split("", IsNewline));
    assert Split("", IsNewline) == [""] && HeaderOf("").None? && HeaderLines([""]) == [];
  }

  /** The header lines of a written head. */
  lemma {:induction false} WrittenHeaders(lines: seq<string>)
    requires LinesSafe(lines)
    ensures HeaderLines(Split(RenderLines(lines) + CRLF, IsNewline)) == HeaderLines(lines)
  {
    if lines == [] {
      assert RenderLines(lines) + CRLF == CRLF;
      NoHeaderInBlankEnd();
    } else {
      var rest := RenderLines(lines[1..]) + CRLF;
      assert RenderLines(lines) + CRLF == lines[0] + CRLF + rest;
      SplitLine(lines[0], rest);
      WrittenHeaders(lines[1..]);
      SkipBlank(lines[0], Split(rest, IsNewline));
      HeaderLinesAppend([lines[0]], lines[1..]);
      assert lines == [lines[0]] + lines[1..];
    }
  }

  lemma NoHeader()
    ensures HeaderLines([""]) == []
  {
    assert HeaderOf("").None?;
  }

  /** The parser reads the written lines. */
  lemma RequestOfWritten(first: string, block: seq<string>)
    requires first != "" && LineSafe(first) && LinesSafe(block)
    ensures RequestOf(Some(RenderLines([first] + block) + CRLF)) == RequestOfLines([first] + block)
  {
    var rest := RenderLines(block) + CRLF;
    var lines, tail := [first, ""] + Split(rest, IsNewline), Split(rest, IsNewline);
    assert ([first] + block)[1..] == block;
    assert RenderLines([first] + block) + CRLF == first + CRLF + rest;
    SplitLine(first, rest);
    RequestIsItsLines(first + CRLF + rest);
    WrittenHeaders(block);
    HeaderLinesAppend([""], tail);
    NoHeader();
    assert lines[0] == first && lines[1..] == [""] + tail;
    assert FromFirstLine(lines) == lines;
    assert HeaderLines(lines[1..]) == HeaderLines(block);
  }

  /** A written request is recognised exactly when a header names the host, and is read back. */
  lemma RequestRoundTrip(verb: string, path: string, version: string, headers: seq<Header>)
    requires Free(verb, IsWhitespace) && Free(path, IsWhitespace) && LineSafe(version) && Sendable(headers)
    ensures var host, request := LastHost(Trimmed(headers)), RequestOf(Some(RenderHead(RenderRequestLine(verb, path, version), headers)));
      request == if host.None? then None else Some(HttpRequest(host.value, path, HeaderMap(Trimmed(headers), map[])))
  {
    var first, block := RenderRequestLine(verb, path, version), HeaderBlock(headers);
    RequestLineParses(verb, path, version);
    RequestLineSafe(verb, path, version);
    BlockSafe(first, headers);
    LinesSafeTail(first, block);
    RequestOfWritten(first, block);
    HeaderLinesOfBlock(headers);
    assert ([first] + block)[1..] == block;
  }

  /** So a request with plain headers is read back as written, with the value of its last header that spells "host". */
  lemma RequestReadBack(verb: string, path: string, version: string, headers: seq<Header>, h: nat)
    requires Free(verb, IsWhitespace) && Free(path, IsWhitespace) && LineSafe(version) && Plain(headers)
    requires h < |headers| && SpellsHost(headers[h].0) && forall i :: h < i < |headers| ==> !SpellsHost(headers[i].0)
    ensures var request := RequestOf(Some(RenderHead(RenderRequestLine(verb, path, version), headers)));
      && request.Some? && request.value.host == headers[h].1 && request.value.path == path
      && Holds(request.value.headers, headers)
  {
    RequestRoundTrip(verb, path, version, headers);
    PlainHeaderMap(headers);
    LastHostAt(headers, h);
  }

  /** And a request none of whose headers spells "host" is none. */
  lemma RequestWithoutHost(verb: string, path: string, version: string, headers: seq<Header>)
    requires Free(verb, IsWhitespace) && Free(path, IsWhitespace) && LineSafe(version) && Sendable(headers)
    requires forall i :: 0 <= i < |headers| ==> !SpellsHost(headers[i].0)
    ensures RequestOf(Some(RenderHead(RenderRequestLine(verb, path, version), headers))).None?
  {
    RequestRoundTrip(verb, path, version, headers);
    LastHostNone(Trimmed(headers));
  }

  lemma {:induction false} LastHostNone(headers: seq<Header>)
    requires forall i :: 0 <= i < |headers| ==> !SpellsHost(headers[i].0)
    ensures LastHost(headers) == None
  {
    if headers != [] {
      NamesHostIff(headers[0].0);
      LastHostNone(headers[1..]);
    }
  }

  lemma {:induction false} LastHostAt(headers: seq<Header>, h: nat)
    requires h < |headers| && SpellsHost(headers[h].0) && forall i :: h < i < |headers| ==> !SpellsHost(headers[i].0)
    ensures LastHost(headers) == Some(headers[h].1)
  {
    NamesHostIff(headers[0].0);
    if h == 0 {
      LastHostNone(headers[1..]);
    } else {
      LastHostAt(headers[1..], h - 1);
    }
  }

  /** A later header overrides all earlier ones of its name, and the host if it spells "host". */
  lemma RequestLaterHeader(verb: string, path: string, version: string, headers: seq<Header>, h: Header)
    requires Free(verb, IsWhitespace) && Free(path, IsWhitespace) && LineSafe(version)
    requires Sendable(headers + [h]) && Neat(h.1)
    ensures var first := RenderRequestLine(verb, path, version);
      var before, after := RequestOf(Some(RenderHead(first, headers))), RequestOf(Some(RenderHead(first, headers + [h])));
      && (before.Some? || SpellsHost(h.0) <==> after.Some?)
      && (before.Some? ==> after.value.headers == before.value.headers[h.0 := h.1])
      && (after.Some? ==> after.value.host == if SpellsHost(h.0) then h.1 else before.value.host)
  {
    SendableInit(headers, h);
    RequestRoundTrip(verb, path, version, headers);
    RequestRoundTrip(verb, path, version, headers + [h]);
    HeaderMapLater(headers, h);
    NamesHostIff(h.0);
    LastHostAppend(Trimmed(headers), [h]);
    assert LastHost([h]) == if NamesHost(h.0) then Some(h.1) else None;
  }

  lemma LinesSafeTail(first: string, block: seq<string>)
    requires LinesSafe([first] + block)
    ensures LinesSafe(block)
  {
    forall i | 0 <= i < |block| ensures block[i] != "" && LineSafe(block[i]) {
      assert ([first] + block)[i + 1] == block[i];
    }
  }

  /** A bare request line is no request by itself, and is one with a host line in its body. */
  lemma HostOnlyInBody(verb: string, path: string, version: string, host: string)
    requires Free(verb, IsWhitespace) && Free(path, IsWhitespace) && LineSafe(version)
    requires LineSafe(host) && Trim(host) == host
    ensures var head := RenderRequestLine(verb, path, version);
      && RequestOf(Some(head)).None?
      && var after := RequestOf(Some(head + CRLF_CRLF + ("Host:" + host)));
         after.Some? && after.value.host == host && after.value.path == path
  {
    var head := RenderRequestLine(verb, path, version);
    RequestLineParses(verb, path, version);
    RequestLineSafe(verb, path, version);
    SplitFree(head, IsNewline);
    RequestIsItsLines(head);
    assert FromFirstLine([head]) == [head] && HeaderLines([head][1..]) == [];
    BodyLineOverridesHost(head, host);
  }

  lemma HostOnlyInBodyExample()
    ensures RequestOf(Some(RenderRequestLine("GET", "/", "HTTP/1.1"))).None?
    ensures RequestOf(Some(RenderRequestLine("GET", "/", "HTTP/1.1") + CRLF_CRLF + ("Host:" + "x"))).Some?
  {
    HostOnlyInBody("GET", "/", "HTTP/1.1", "x");
  }
}
