/** The two HTTP head parsers of RHSniffOperation.mm. */
module HttpParsing {
  import opened Wrappers
  import opened HttpText

  const CRLF := "\r\n"
  const CRLF_CRLF := "\r\n\r\n"

  /** What `_parseHTTPResponseWithData:requestURL:` hands to NSHTTPURLResponse. */
  datatype HttpResponse = HttpResponse(status: int, version: Option<string>, headers: map<string, string>)

  /** What `_parseHTTPRequestWithData:` builds its NSURLRequest from. */
  datatype HttpRequest = HttpRequest(host: string, path: string, headers: map<string, string>)

  type Header = (string, string)

  /** A header line cut at its first colon, the value trimmed. */
  function HeaderOf(line: string): Option<Header>
  {
    var colon := ColonIndex(line);
    if colon == |line| then None else Some((line[..colon], Trim(line[colon + 1..])))
  }

  /** A line is a header exactly when it has a colon; white space round the value is taken off, none inside. */
  lemma HeaderLineRead(name: string, left: string, value: string, right: string)
    requires NoColon(name)
    ensures HeaderOf(name).None?
    ensures White(left) && Neat(value) && White(right) ==>
      HeaderOf(name + [':'] + (left + value + right)) == Some((name, value))
  {
    var line := name + [':'] + (left + value + right);
    ColonIndexOf(name, left + value + right);
    assert line[..|name|] == name && line[|name| + 1..] == left + value + right;
    if White(left) && Neat(value) && White(right) {
      TrimStrips(left, value, right);
    }
  }

  predicate NoColon(s: string)
  {
    forall i :: 0 <= i < |s| ==> s[i] != ':'
  }

  /** The header lines among `lines`, in order. */
  function HeaderLines(lines: seq<string>): seq<Header>
  {
    if lines == [] then []
    else (if HeaderOf(lines[0]).Some? then [HeaderOf(lines[0]).value] else []) + HeaderLines(lines[1..])
  }

  /** Headers put into a dictionary one after another. */
  function HeaderMap(headers: seq<Header>, acc: map<string, string>): map<string, string>
  {
    if headers == [] then acc else HeaderMap(headers[1..], acc[headers[0].0 := headers[0].1])
  }

  /** The last value given to a name, if any. */
  function LastValue(headers: seq<Header>, name: string): Option<string>
  {
    if headers == [] then None
    else if LastValue(headers[1..], name).Some? then LastValue(headers[1..], name)
    else if headers[0].0 == name then Some(headers[0].1) else None
  }

  function Lookup(m: map<string, string>, name: string): Option<string>
  {
    if name in m then Some(m[name]) else None
  }

  function OrElse<T>(first: Option<T>, second: Option<T>): Option<T>
  {
    if first.Some? then first else second
  }

  /** The dictionary holds, for each name, the last value given to it. */
  lemma {:induction false} HeaderMapLookup(headers: seq<Header>, acc: map<string, string>, name: string)
    ensures Lookup(HeaderMap(headers, acc), name) == OrElse(LastValue(headers, name), Lookup(acc, name))
  {
    if headers != [] {
      HeaderMapLookup(headers[1..], acc[headers[0].0 := headers[0].1], name);
    }
  }

  lemma SameLookups(a: map<string, string>, b: map<string, string>)
    requires forall name :: Lookup(a, name) == Lookup(b, name)
    ensures a == b
  {
    forall name ensures (name in a <==> name in b) && (name in a ==> a[name] == b[name]) {
      assert Lookup(a, name) == Lookup(b, name);
    }
  }

  // -------------------------------------------------------------------------
  // Responses
  // -------------------------------------------------------------------------

  /** The local variables of the response parser's loop. */
  datatype ResponseScan = ResponseScan(response: HttpResponse, lineIndex: nat, emptyLines: nat)

  const RESPONSE_SCAN_START := ResponseScan(HttpResponse(0, None, map[]), 0, 0)

  function StatusLine(line: string, r: HttpResponse): HttpResponse
  {
    var comps := Split(line, IsWhitespace);
    if |comps| >= 2 then r.(version := Some(comps[0]), status := IntegerValue(comps[1])) else r
  }

  /** The first two words of a status line are read, whether or not more follow; fewer words are ignored. */
  lemma StatusLineWords(version: string, gap: char, code: string, tail: string, r: HttpResponse)
    requires Free(version, IsWhitespace) && IsWhitespace(gap) && Free(code, IsWhitespace)
    requires tail == "" || IsWhitespace(tail[0])
    ensures StatusLine(version + [gap] + (code + tail), r) == HttpResponse(IntegerValue(code), Some(version), r.headers)
    ensures StatusLine(version, r) == r
  {
    SplitAt(version, gap, code + tail, IsWhitespace);
    SplitFree(version, IsWhitespace);
    SplitFree(code, IsWhitespace);
    if tail == "" {
      assert code + tail == code;
    } else {
      assert code + tail == code + [tail[0]] + tail[1..];
      SplitAt(code, tail[0], tail[1..], IsWhitespace);
    }
  }

  function ScanResponseLine(scan: ResponseScan, line: string): ResponseScan
  {
    if line == "" then scan.(emptyLines := scan.emptyLines + 1)
    else if scan.lineIndex == 0 then ResponseScan(StatusLine(line, scan.response), 1, 0)
    else
      match HeaderOf(line)
      case None => scan.(emptyLines := 0)
      case Some((name, value)) =>
        ResponseScan(scan.response.(headers := scan.response.headers[name := value]), scan.lineIndex + 1, 0)
  }

  /** The scan stops at the second empty line in a row. */
  function ScanResponse(lines: seq<string>, scan: ResponseScan): ResponseScan
  {
    if lines == [] || scan.emptyLines > 1 then scan
    else ScanResponse(lines[1..], ScanResponseLine(scan, lines[0]))
  }

  function ResponseOf(text: string): HttpResponse
  {
    ScanResponse(Split(text, IsNewline), RESPONSE_SCAN_START).response
  }

  /** `_parseHTTPResponseWithData:requestURL:` */
  method ParseResponse(text: string) returns (response: HttpResponse)
    ensures response == ResponseOf(text)
  {
    var lines := Split(text, IsNewline);
    var statusCode := 0;
    var httpVersion := None;
    var headers: map<string, string> := map[];
    var lineIndex := 0;
    var emptyLines := 0;
    var i := 0;
    while i < |lines|
      invariant 0 <= i <= |lines| && lineIndex >= 0 && emptyLines in {0, 1}
      invariant ScanResponse(lines, RESPONSE_SCAN_START)
             == ScanResponse(lines[i..], ResponseScan(HttpResponse(statusCode, httpVersion, headers), lineIndex, emptyLines))
    {
      var line := lines[i];
      i := i + 1;
      if |line| == 0 {
        emptyLines := emptyLines + 1;
        if emptyLines > 1 {
          break;
        }
        continue;
      }
      emptyLines := 0;
      if lineIndex == 0 {
        var comps := Split(line, IsWhitespace);
        if |comps| >= 2 {
          httpVersion := Some(comps[0]);
          statusCode := IntegerValue(comps[1]);
        }
      } else {
        var separatorLocation := ColonIndex(line);
        if separatorLocation == |line| {
          continue;
        }
        headers := headers[line[..separatorLocation] := Trim(line[separatorLocation + 1..])];
      }
      lineIndex := lineIndex + 1;
    }
    return HttpResponse(statusCode, httpVersion, headers);
  }

  /** The non-empty lines before the first two empty lines in a row, `empties` of which stand before. */
  function HeadLines(lines: seq<string>, empties: nat): seq<string>
  {
    if lines == [] || empties > 1 then []
    else if lines[0] == "" then HeadLines(lines[1..], empties + 1)
    else [lines[0]] + HeadLines(lines[1..], 0)
  }

  lemma {:induction false} ScanResponseHeaders(lines: seq<string>, scan: ResponseScan)
    requires scan.lineIndex > 0
    ensures ScanResponse(lines, scan).response ==
      scan.response.(headers := HeaderMap(HeaderLines(HeadLines(lines, scan.emptyLines)), scan.response.headers))
  {
    if lines != [] && scan.emptyLines <= 1 {
      var line, rest := lines[0], lines[1..];
      var next := ScanResponseLine(scan, line);
      ScanResponseHeaders(rest, next);
      if line != "" {
        var tail := HeadLines(rest, 0);
        assert HeadLines(lines, scan.emptyLines) == [line] + tail;
        assert ([line] + tail)[1..] == tail;
        if HeaderOf(line).Some? {
          var h := HeaderOf(line).value;
          assert HeaderLines([line] + tail) == [h] + HeaderLines(tail);
          assert ([h] + HeaderLines(tail))[1..] == HeaderLines(tail);
        } else {
          assert HeaderLines([line] + tail) == HeaderLines(tail);
        }
      }
    }
  }

  /** A response read off its head: the status line is the first line, every other line with a colon is a header. */
  function ResponseOfHead(head: seq<string>): HttpResponse
  {
    var empty := RESPONSE_SCAN_START.response;
    if head == [] then empty
    else StatusLine(head[0], empty).(headers := HeaderMap(HeaderLines(head[1..]), map[]))
  }

  lemma {:induction false} ScanResponseHead(lines: seq<string>, scan: ResponseScan)
    requires scan.lineIndex == 0 && scan.response == RESPONSE_SCAN_START.response
    ensures ScanResponse(lines, scan).response == ResponseOfHead(HeadLines(lines, scan.emptyLines))
  {
    if lines != [] && scan.emptyLines <= 1 {
      var next := ScanResponseLine(scan, lines[0]);
      if lines[0] == "" {
        ScanResponseHead(lines[1..], next);
      } else {
        ScanResponseHeaders(lines[1..], next);
        assert HeadLines(lines, scan.emptyLines)[1..] == HeadLines(lines[1..], 0);
      }
    }
  }

  /** For every text, the parser's loop reads the head, and nothing but the head. */
  lemma ResponseIsItsHead(text: string)
    ensures ResponseOf(text) == ResponseOfHead(HeadLines(Split(text, IsNewline), 0))
  {
    ScanResponseHead(Split(text, IsNewline), RESPONSE_SCAN_START);
  }

  /** A text of one word, or of none, has no status, no version and no headers. */
  lemma OneWordResponse(word: string)
    requires Free(word, IsWhitespace)
    ensures ResponseOf(word) == HttpResponse(0, None, map[])
  {
    SplitFree(word, IsNewline);
    SplitFree(word, IsWhitespace);
    ResponseIsItsHead(word);
    assert HeadLines([word], 0) == if word == "" then [] else [word];
    assert [word][1..] == [];
  }

  lemma SplitCrlf(x: string, rest: string)
    ensures Split(x + CRLF + rest, IsNewline) == Split(x, IsNewline) + [""] + Split(rest, IsNewline)
  {
    var tail := ['\n'] + rest;
    assert "" + ['\n'] + rest == tail;
    assert x + CRLF + rest == x + ['\r'] + tail;
    SplitAt("", '\n', rest, IsNewline);
    SplitAt(x, '\r', tail, IsNewline);
    assert Split("", IsNewline) == [""];
  }

  lemma JoinBlanks(h: seq<string>, b: seq<string>)
    ensures h + [""] + ([""] + [""] + b) == h + ["", "", ""] + b
  {
  }

  lemma SplitBlankLine(head: string, body: string)
    ensures Split(head + CRLF_CRLF + body, IsNewline) == Split(head, IsNewline) + ["", "", ""] + Split(body, IsNewline)
  {
    var tail := "" + CRLF + body;
    assert head + CRLF_CRLF + body == head + CRLF + tail;
    SplitCrlf(head, tail);
    SplitCrlf("", body);
    JoinBlanks(Split(head, IsNewline), Split(body, IsNewline));
  }

  /** Two empty lines end the head, whatever follows. */
  lemma {:induction false} HeadEnds(lines: seq<string>, rest: seq<string>, empties: nat)
    ensures HeadLines(lines + ["", "", ""] + rest, empties) == HeadLines(lines + ["", "", ""], empties)
  {
    var blanks := ["", "", ""];
    if lines == [] {
      HeadStopsAtBlanks(rest, empties);
      HeadStopsAtBlanks([], empties);
      assert lines + blanks + rest == blanks + rest && lines + blanks == blanks + [];
    } else if empties <= 1 {
      assert (lines + blanks + rest)[1..] == lines[1..] + blanks + rest;
      assert (lines + blanks)[1..] == lines[1..] + blanks;
      HeadEnds(lines[1..], rest, if lines[0] == "" then empties + 1 else 0);
    }
  }

  lemma HeadStopsAtBlanks(rest: seq<string>, empties: nat)
    ensures HeadLines(["", "", ""] + rest, empties) == []
  {
    var all := ["", "", ""] + rest;
    assert all[1..] == ["", ""] + rest && all[1..][1..] == [""] + rest;
    assert HeadLines(all[1..][1..], empties + 2) == [];
    assert HeadLines(all[1..], empties + 1) == [];
  }

  /** The parser never looks past the first CRLFCRLF: the body cannot change the result. */
  lemma ResponseIgnoresBody(head: string, body: string)
    ensures ResponseOf(head + CRLF_CRLF + body) == ResponseOf(head + CRLF_CRLF)
  {
    SplitBlankLine(head, body);
    SplitBlankLine(head, "");
    assert head + CRLF_CRLF + "" == head + CRLF_CRLF;
    HeadEnds(Split(head, IsNewline), Split(body, IsNewline), 0);
    HeadEnds(Split(head, IsNewline), Split("", IsNewline), 0);
    ResponseIsItsHead(head + CRLF_CRLF + body);
    ResponseIsItsHead(head + CRLF_CRLF);
  }

  /** Nor past two empty lines in a row that are ended by line feeds alone; one empty line does not stop it. */
  lemma BareLineFeeds(head: string, body: string)
    ensures ResponseOf(head + "\n\n\n" + body) == ResponseOf(head)
    ensures Free(head, IsNewline) && head != "" && Free(body, IsNewline) && body != "" ==>
      HeadLines(Split(head + "\n\n" + body, IsNewline), 0) == [head, body]
  {
    SplitLineFeeds(head, body);
    var lines, rest := Split(head, IsNewline), Split(body, IsNewline);
    ResponseIsItsHead(head + "\n\n\n" + body);
    ResponseIsItsHead(head);
    HeadEndsAtTwo(lines, rest, 0);
    if Free(head, IsNewline) && Free(body, IsNewline) && head != "" && body != "" {
      SplitFree(head, IsNewline);
      SplitFree(body, IsNewline);
      HeadSkipsOne(head, body);
    }
  }

  lemma HeadSkipsOne(head: string, body: string)
    requires head != "" && body != ""
    ensures HeadLines([head] + [""] + [body], 0) == [head, body]
  {
    var all := [head] + [""] + [body];
    assert all[1..] == ["", body] && all[1..][1..] == [body] && [body][1..] == [];
    assert HeadLines([body], 1) == [body];
    assert HeadLines(all[1..], 0) == [body];
  }

  lemma {:induction false} HeadEndsAtTwo(lines: seq<string>, rest: seq<string>, empties: nat)
    ensures HeadLines(lines + ["", ""] + rest, empties) == HeadLines(lines, empties)
  {
    if lines == [] {
      var all := ["", ""] + rest;
      assert lines + ["", ""] + rest == all && all[1..] == [""] + rest && all[1..][1..] == rest;
      assert HeadLines(all[1..][1..], empties + 2) == [];
      assert HeadLines(all[1..], empties + 1) == [];
    } else if empties <= 1 {
      assert (lines + ["", ""] + rest)[1..] == lines[1..] + ["", ""] + rest;
      HeadEndsAtTwo(lines[1..], rest, if lines[0] == "" then empties + 1 else 0);
    }
  }

  lemma EmptyLine(rest: string)
    ensures Split(['\n'] + rest, IsNewline) == [""] + Split(rest, IsNewline)
  {
    assert "" + ['\n'] + rest == ['\n'] + rest;
    SplitAt("", '\n', rest, IsNewline);
    assert Split("", IsNewline) == [""];
  }

  lemma SplitLineFeeds(head: string, body: string)
    ensures Split(head + "\n\n" + body, IsNewline) == Split(head, IsNewline) + [""] + Split(body, IsNewline)
    ensures Split(head + "\n\n\n" + body, IsNewline) == Split(head, IsNewline) + ["", ""] + Split(body, IsNewline)
  {
    var one := ['\n'] + body;
    EmptyLine(body);
    EmptyLine(one);
    SplitAt(head, '\n', one, IsNewline);
    SplitAt(head, '\n', ['\n'] + one, IsNewline);
    assert head + "\n\n" + body == head + ['\n'] + one;
    assert head + "\n\n\n" + body == head + ['\n'] + (['\n'] + one);
    TwoEmpty(Split(head, IsNewline), Split(body, IsNewline));
  }

  lemma TwoEmpty(h: seq<string>, b: seq<string>)
    ensures h + ([""] + ([""] + b)) == h + ["", ""] + b && h + ([""] + b) == h + [""] + b
  {
  }

  // -------------------------------------------------------------------------
  // Requests
  // -------------------------------------------------------------------------

  /** The local variables of the request parser's loop. */
  datatype RequestScan = RequestScan(path: Option<string>, host: Option<string>, headers: map<string, string>, lineIndex: nat)

  const REQUEST_SCAN_START := RequestScan(None, None, map[], 0)

  function LowerAscii(s: string): string
  {
    seq(|s|, i requires 0 <= i < |s| => if 'A' <= s[i] <= 'Z' then (s[i] as int + 32) as char else s[i])
  }

  /** `caseInsensitiveCompare:` with "host". */
  predicate NamesHost(name: string) { LowerAscii(name) == "host" }

  /** The sixteen spellings of "host". */
  predicate SpellsHost(name: string)
  {
    |name| == 4 && name[0] in {'h', 'H'} && name[1] in {'o', 'O'} && name[2] in {'s', 'S'} && name[3] in {'t', 'T'}
  }

  lemma NamesHostIff(name: string)
    ensures NamesHost(name) <==> SpellsHost(name)
  {
    var lower := LowerAscii(name);
    if NamesHost(name) {
      assert lower[0] == 'h' && lower[1] == 'o' && lower[2] == 's' && lower[3] == 't';
    }
    if SpellsHost(name) {
      assert lower == "host";
    }
  }

  function AddRequestHeader(scan: RequestScan, h: Header): RequestScan
  {
    scan.(host := if NamesHost(h.0) then Some(h.1) else scan.host,
          headers := scan.headers[h.0 := h.1], lineIndex := scan.lineIndex + 1)
  }

  function ScanRequestLine(scan: RequestScan, line: string): RequestScan
  {
    if line == "" then scan
    else if scan.lineIndex == 0 then
      var comps := Split(line, IsWhitespace);
      scan.(path := if |comps| >= 2 then Some(comps[1]) else scan.path, lineIndex := 1)
    else
      match HeaderOf(line)
      case None => scan
      case Some(h) => AddRequestHeader(scan, h)
  }

  /** Unlike the response scan, this one reads every line. */
  function ScanRequest(lines: seq<string>, scan: RequestScan): RequestScan
  {
    if lines == [] then scan else ScanRequest(lines[1..], ScanRequestLine(scan, lines[0]))
  }

  function Finish(scan: RequestScan): Option<HttpRequest>
  {
    if scan.host.None? || scan.path.None? then None
    else Some(HttpRequest(scan.host.value, scan.path.value, scan.headers))
  }

  /** `text` is nil when the payload is not UTF-8; then there are no lines and no request. */
  function RequestOf(text: Option<string>): Option<HttpRequest>
  {
    if text.None? then None else Finish(ScanRequest(Split(text.value, IsNewline), REQUEST_SCAN_START))
  }

  lemma HeaderLineScanned(scan: RequestScan, line: string)
    requires line != "" && scan.lineIndex > 0 && ColonIndex(line) < |line|
    ensures ScanRequestLine(scan, line) == AddRequestHeader(scan, (line[..ColonIndex(line)], Trim(line[ColonIndex(line) + 1..])))
  {
  }

  lemma FirstLineScanned(scan: RequestScan, line: string)
    requires line != "" && scan.lineIndex == 0
    ensures var comps := Split(line, IsWhitespace);
      ScanRequestLine(scan, line) == scan.(path := if |comps| >= 2 then Some(comps[1]) else scan.path, lineIndex := 1)
  {
  }

  lemma ScanRequestNext(lines: seq<string>, i: nat, scan: RequestScan)
    requires i < |lines|
    ensures ScanRequest(lines[i..], scan) == ScanRequest(lines[i + 1..], ScanRequestLine(scan, lines[i]))
  {
    assert lines[i..][1..] == lines[i + 1..];
  }

  /** `_parseHTTPRequestWithData:` */
  method ParseRequest(text: Option<string>) returns (request: Option<HttpRequest>)
    ensures request == RequestOf(text)
  {
    var lines := if text.Some? then Split(text.value, IsNewline) else [];
    var path: Option<string> := None;
    var host: Option<string> := None;
    var headers: map<string, string> := map[];
    var lineIndex := 0;
    for i := 0 to |lines|
      invariant lineIndex >= 0
      invariant ScanRequest(lines, REQUEST_SCAN_START)
             == ScanRequest(lines[i..], RequestScan(path, host, headers, lineIndex))
    {
      var line := lines[i];
      ScanRequestNext(lines, i, RequestScan(path, host, headers, lineIndex));
      if |line| == 0 {
        continue;
      }
      if lineIndex == 0 {
        FirstLineScanned(RequestScan(path, host, headers, lineIndex), line);
        var comps := Split(line, IsWhitespace);
        if |comps| >= 2 {
          path := Some(comps[1]);
        }
      } else {
        var separatorLocation := ColonIndex(line);
        if separatorLocation == |line| {
          continue;
        }
        var key, value := line[..separatorLocation], Trim(line[separatorLocation + 1..]);
        HeaderLineScanned(RequestScan(path, host, headers, lineIndex), line);
        if NamesHost(key) {
          host := Some(value);
        }
        headers := headers[key := value];
      }
      lineIndex := lineIndex + 1;
    }
    if host.None? || path.None? {
      return None;
    }
    return Some(HttpRequest(host.value, path.value, headers));
  }

  /** The last value given to any spelling of "host". */
  function LastHost(headers: seq<Header>): Option<string>
  {
    if headers == [] then None
    else if LastHost(headers[1..]).Some? then LastHost(headers[1..])
    else if NamesHost(headers[0].0) then Some(headers[0].1) else None
  }

  lemma {:induction false} ScanRequestHeaders(lines: seq<string>, scan: RequestScan)
    requires scan.lineIndex > 0
    ensures var end, hs := ScanRequest(lines, scan), HeaderLines(lines);
      && end.path == scan.path
      && end.host == OrElse(LastHost(hs), scan.host)
      && end.headers == HeaderMap(hs, scan.headers)
  {
    if lines != [] {
      var next, tail := ScanRequestLine(scan, lines[0]), HeaderLines(lines[1..]);
      ScanRequestHeaders(lines[1..], next);
      if lines[0] == "" || HeaderOf(lines[0]).None? {
        assert HeaderLines(lines) == tail;
      } else {
        var h := HeaderOf(lines[0]).value;
        assert HeaderLines(lines) == [h] + tail && ([h] + tail)[1..] == tail;
      }
    }
  }

  /** The lines from the first non-empty one on. */
  function FromFirstLine(lines: seq<string>): seq<string>
  {
    if lines != [] && lines[0] == "" then FromFirstLine(lines[1..]) else lines
  }

  /** A request read off its lines: the second word of the first one, and all header lines after it. */
  function RequestOfLines(lines: seq<string>): Option<HttpRequest>
  {
    if lines == [] then None
    else
      var words, headers := Split(lines[0], IsWhitespace), HeaderLines(lines[1..]);
      if |words| < 2 || LastHost(headers).None? then None
      else Some(HttpRequest(LastHost(headers).value, words[1], HeaderMap(headers, map[])))
  }

  lemma {:induction false} ScanRequestLines(lines: seq<string>)
    ensures Finish(ScanRequest(lines, REQUEST_SCAN_START)) == RequestOfLines(FromFirstLine(lines))
  {
    if lines != [] {
      if lines[0] == "" {
        ScanRequestLines(lines[1..]);
      } else {
        ScanRequestHeaders(lines[1..], ScanRequestLine(REQUEST_SCAN_START, lines[0]));
      }
    }
  }

  /** For every text, the parser's loop reads all its lines. */
  lemma RequestIsItsLines(text: string)
    ensures RequestOf(Some(text)) == RequestOfLines(FromFirstLine(Split(text, IsNewline)))
  {
    ScanRequestLines(Split(text, IsNewline));
  }

  lemma {:induction false} HeaderLinesAppend(a: seq<string>, b: seq<string>)
    ensures HeaderLines(a + b) == HeaderLines(a) + HeaderLines(b)
  {
    if a == [] {
      assert a + b == b;
    } else {
      assert (a + b)[1..] == a[1..] + b;
      HeaderLinesAppend(a[1..], b);
    }
  }

  lemma {:induction false} FromFirstLineAppend(a: seq<string>, b: seq<string>)
    requires FromFirstLine(a) != []
    ensures FromFirstLine(a + b) == FromFirstLine(a) + b
  {
    if a[0] == "" {
      assert (a + b)[1..] == a[1..] + b;
      FromFirstLineAppend(a[1..], b);
    }
  }

  lemma {:induction false} LastHostAppend(a: seq<Header>, b: seq<Header>)
    ensures LastHost(a + b) == OrElse(LastHost(b), LastHost(a))
  {
    if a == [] {
      assert a + b == b;
    } else {
      assert (a + b)[1..] == a[1..] + b;
      LastHostAppend(a[1..], b);
    }
  }

  lemma {:induction false} HeaderMapAppend(a: seq<Header>, b: seq<Header>, acc: map<string, string>)
    ensures HeaderMap(a + b, acc) == HeaderMap(b, HeaderMap(a, acc))
  {
    if a == [] {
      assert a + b == b;
    } else {
      assert (a + b)[1..] == a[1..] + b;
      HeaderMapAppend(a[1..], b, acc[a[0].0 := a[0].1]);
    }
  }

  lemma BlanksHoldNoHeader()
    ensures HeaderLines(["", "", ""]) == []
  {
    assert HeaderOf("").None?;
    assert ["", "", ""][1..] == ["", ""] && ["", ""][1..] == [""];
    assert HeaderLines([""]) == [] && HeaderLines(["", ""]) == [];
  }

  /** The headers of a head followed by a body. */
  lemma HeadersWithBody(first: seq<string>, rest: seq<string>)
    requires first != []
    ensures HeaderLines((first + ["", "", ""] + rest)[1..]) == HeaderLines(first[1..]) + HeaderLines(rest)
  {
    assert (first + ["", "", ""] + rest)[1..] == first[1..] + ["", "", ""] + rest;
    HeaderLinesAppend(first[1..] + ["", "", ""], rest);
    HeaderLinesAppend(first[1..], ["", "", ""]);
    BlanksHoldNoHeader();
  }

  lemma FirstLineWithBody(head: string, body: string)
    ensures var first, rest := FromFirstLine(Split(head, IsNewline)), Split(body, IsNewline);
      FromFirstLine(Split(head + CRLF_CRLF + body, IsNewline)) ==
        if first == [] then FromFirstLine(rest) else first + ["", "", ""] + rest
  {
    var lines, blanks, rest := Split(head, IsNewline), ["", "", ""], Split(body, IsNewline);
    SplitBlankLine(head, body);
    if FromFirstLine(lines) == [] {
      OnlyBlankLines(lines, blanks + rest);
      OnlyBlankLines(blanks, rest);
      assert lines + (blanks + rest) == lines + blanks + rest;
    } else {
      FromFirstLineAppend(lines, blanks);
      FromFirstLineAppend(lines + blanks, rest);
    }
  }

  lemma {:induction false} OnlyBlankLines(lines: seq<string>, rest: seq<string>)
    requires FromFirstLine(lines) == []
    ensures FromFirstLine(lines + rest) == FromFirstLine(rest)
  {
    if lines == [] {
      assert lines + rest == rest;
    } else {
      assert (lines + rest)[1..] == lines[1..] + rest;
      OnlyBlankLines(lines[1..], rest);
    }
  }

  /** What the parser makes of a head and the header lines of a body behind it. */
  function RequestWithBody(first: seq<string>, bodyHeaders: seq<Header>): Option<HttpRequest>
    requires first != []
  {
    var words, headers := Split(first[0], IsWhitespace), HeaderLines(first[1..]);
    var host := OrElse(LastHost(bodyHeaders), LastHost(headers));
    if |words| < 2 || host.None? then None
    else Some(HttpRequest(host.value, words[1], HeaderMap(bodyHeaders, HeaderMap(headers, map[]))))
  }

  /**
   The request parser does look past the header, for every head and body: header lines in the body
   count like those of the head, and behind blank lines only the body itself is the request.
   */
  lemma RequestReadsBody(head: string, body: string)
    ensures var first, rest := FromFirstLine(Split(head, IsNewline)), Split(body, IsNewline);
      RequestOf(Some(head + CRLF_CRLF + body)) ==
        if first == [] then RequestOf(Some(body)) else RequestWithBody(first, HeaderLines(rest))
  {
    var first, rest := FromFirstLine(Split(head, IsNewline)), Split(body, IsNewline);
    RequestIsItsLines(head + CRLF_CRLF + body);
    RequestIsItsLines(body);
    FirstLineWithBody(head, body);
    if first != [] {
      HeadersWithBody(first, rest);
      LastHostAppend(HeaderLines(first[1..]), HeaderLines(rest));
      HeaderMapAppend(HeaderLines(first[1..]), HeaderLines(rest), map[]);
    }
  }

  /** The header lines repeat what the dictionary says. */
  ghost predicate Repeats(hs: seq<Header>, headers: map<string, string>)
  {
    forall name :: LastValue(hs, name) in {None, Lookup(headers, name)}
  }

  /**
   When the body leaves the result alone. A request: its header lines repeat what the head says.
   No request, but a first line: that line has no second word, or the body names no host either.
   Blank lines only: the body is no request.
   */
  ghost predicate BodyHarmless(head: string, body: string)
  {
    var first, hs := FromFirstLine(Split(head, IsNewline)), HeaderLines(Split(body, IsNewline));
    match RequestOf(Some(head))
    case Some(request) => LastHost(hs) in {None, Some(request.host)} && Repeats(hs, request.headers)
    case None =>
      if first == [] then RequestOf(Some(body)).None?
      else |Split(first[0], IsWhitespace)| < 2 || LastHost(hs).None?
  }

  lemma HeaderMapKeepsIff(hs: seq<Header>, headers: map<string, string>)
    ensures HeaderMap(hs, headers) == headers <==> Repeats(hs, headers)
  {
    var after := HeaderMap(hs, headers);
    forall name
      ensures Lookup(after, name) == Lookup(headers, name) <==> LastValue(hs, name) in {None, Lookup(headers, name)}
    {
      HeaderMapLookup(hs, headers, name);
    }
    if Repeats(hs, headers) {
      forall name ensures Lookup(after, name) == Lookup(headers, name) {
        assert LastValue(hs, name) in {None, Lookup(headers, name)};
      }
      SameLookups(after, headers);
    }
  }

  /** For every head and body: the body leaves the result of the head alone exactly in these cases. */
  lemma RequestIgnoresBodyIff(head: string, body: string)
    ensures RequestOf(Some(head + CRLF_CRLF + body)) == RequestOf(Some(head)) <==> BodyHarmless(head, body)
  {
    RequestReadsBody(head, body);
    RequestIsItsLines(head);
    if RequestOf(Some(head)).Some? {
      HeaderMapKeepsIff(HeaderLines(Split(body, IsNewline)), RequestOf(Some(head)).value.headers);
    }
  }

  predicate LineSafe(s: string) { Free(s, IsNewline) }

  /** So one header line in the body renames the host of any request, and makes a request of any head
      that has a request line and names no host. */
  lemma BodyLineOverridesHost(head: string, host: string)
    requires LineSafe(host) && Trim(host) == host
    ensures var first := FromFirstLine(Split(head, IsNewline));
      first != [] && |Split(first[0], IsWhitespace)| >= 2 ==>
        var after := RequestOf(Some(head + CRLF_CRLF + ("Host:" + host)));
        after.Some? && after.value.host == host && after.value.path == Split(first[0], IsWhitespace)[1]
  {
    RequestReadsBody(head, "Host:" + host);
    HostBody(host);
    var first := FromFirstLine(Split(head, IsNewline));
    if first != [] && |Split(first[0], IsWhitespace)| >= 2 {
      HostOfBody(first, host);
    }
  }

  lemma HostBody(host: string)
    requires LineSafe(host) && Trim(host) == host
    ensures HeaderLines(Split("Host:" + host, IsNewline)) == [("Host", host)] && LastHost([("Host", host)]) == Some(host)
  {
    HostLine(host);
    SplitFree("Host:" + host, IsNewline);
  }

  lemma HostOfBody(first: seq<string>, host: string)
    requires first != [] && |Split(first[0], IsWhitespace)| >= 2 && LastHost([("Host", host)]) == Some(host)
    ensures var after := RequestWithBody(first, [("Host", host)]);
      after.Some? && after.value.host == host && after.value.path == Split(first[0], IsWhitespace)[1]
  {
  }

  lemma HostLine(host: string)
    requires Trim(host) == host
    ensures HeaderLines(["Host:" + host]) == [("Host", host)] && LastHost([("Host", host)]) == Some(host)
  {
    var line := "Host:" + host;
    assert line == "Host" + [':'] + host;
    ColonIndexOf("Host", host);
    assert line[..4] == "Host" && line[5..] == host;
    assert HeaderOf(line) == Some(("Host", host));
    assert LowerAscii("Host") == "host";
    var hs: seq<Header> := [("Host", host)];
    assert HeaderLines([line]) == hs + HeaderLines([]) && hs[1..] == [];
  }
}
