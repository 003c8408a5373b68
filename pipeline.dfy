/**
 * Properties that span the stages: what the request parser makes of the
 * bytes the serializer writes, and the request/response scenarios the
 * server is meant to satisfy end to end.
 */
module Pipeline {
  import opened Wrappers
  import opened Text
  import opened Wire
  import opened Parser
  import opened Serializer
  import opened Routing

  /** A first line and the header block are the head's lines joined with CRLF, and one more CRLF. */
  lemma {:induction false} HeadIsJoin(first: string, order: seq<string>, headers: map<string, string>)
    requires forall k :: k in order ==> k in headers
    ensures first + CRLF + HeaderBlock(order, headers) == Join([first] + HeaderTexts(order, headers), CRLF) + CRLF
    decreases |order|
  {
    if order == [] {
      assert [first] + HeaderTexts(order, headers) == [first];
    } else {
      var n := |order| - 1;
      var prefix := order[..n];
      var k := order[n];
      var text := HeaderText(k, headers[k]);
      var lines := [first] + HeaderTexts(prefix, headers);
      assert order == prefix + [k];
      calc {
        first + CRLF + HeaderBlock(order, headers);
        { HeaderBlockSnoc(prefix, k, headers); }
        (first + CRLF + HeaderBlock(prefix, headers)) + (text + CRLF);
        { HeadIsJoin(first, prefix, headers); }
        (Join(lines, CRLF) + CRLF + text) + CRLF;
        { JoinAppend(lines, [text], CRLF); }
        Join(lines + [text], CRLF) + CRLF;
        { assert [first] + HeaderTexts(order, headers) == lines + [text]; }
        Join([first] + HeaderTexts(order, headers), CRLF) + CRLF;
      }
    }
  }

  /** A status line always has at least two spaces, so the request parser reads it as a request line. */
  lemma StatusTextHasTwoSpaces(status: Status)
    ensures CountChar(StatusText(status), ' ') >= 2
  {
    var code := IntToDecimal(status.code);
    assert StatusText(status) == "HTTP/1.1" + (" " + (code + (" " + status.text)));
    CountCharAppend("HTTP/1.1", " " + (code + (" " + status.text)), ' ');
    CountCharAppend(" ", code + (" " + status.text), ' ');
    CountCharAppend(code, " " + status.text, ' ');
    CountCharAppend(" ", status.text, ' ');
  }

  /** The head of a serialised response has no CRLF inside its lines, and no empty header line. */
  lemma HeadLinesWellFormed(response: Response, order: seq<string>)
    requires IsKeyOrder(order, response.headers.Keys)
    requires SepFree(response.status.text, CRLF)
    requires forall k :: k in response.headers ==> SepFree(k, CRLF) && SepFree(response.headers[k], CRLF)
    ensures var head := [StatusText(response.status)] + HeaderTexts(order, response.headers);
      && (forall j :: 0 <= j < |head| ==> SepFree(head[j], CRLF))
      && (forall j :: 1 <= j < |head| ==> head[j] != "")
  {
    var head := [StatusText(response.status)] + HeaderTexts(order, response.headers);
    StatusTextCrlfFree(response.status);
    HeaderTextsWellFormed(order, response.headers);
    forall j | 1 <= j < |head|
      ensures SepFree(head[j], CRLF) && head[j] != ""
    {
      assert head[j] == HeaderTexts(order, response.headers)[j - 1];
    }
  }

  /** The status line holds no CRLF before its own when its text holds none. */
  lemma StatusTextCrlfFree(status: Status)
    requires SepFree(status.text, CRLF)
    ensures SepFree(StatusText(status), CRLF)
  {
    var front := "HTTP/1.1 " + IntToDecimal(status.code) + " ";
    IntToDecimalChars(status.code);
    NoCrIsCrlfFree(front);
    CrlfFreeConcat(front, status.text);
  }

  /** Each header text is non-empty and CRLF-free when its name and value are. */
  lemma {:induction false} HeaderTextsWellFormed(order: seq<string>, headers: map<string, string>)
    requires forall k :: k in order ==> k in headers
    requires forall k :: k in order ==> SepFree(k, CRLF) && SepFree(headers[k], CRLF)
    ensures forall j :: 0 <= j < |order| ==>
      SepFree(HeaderTexts(order, headers)[j], CRLF) && HeaderTexts(order, headers)[j] != ""
    decreases |order|
  {
    if order != [] {
      var n := |order| - 1;
      var prefix := order[..n];
      HeaderTextsWellFormed(prefix, headers);
      var k := order[n];
      NoCrIsCrlfFree(": ");
      CrlfFreeConcat(k, ": ");
      CrlfFreeConcat(k + ": ", headers[k]);
      var texts := HeaderTexts(order, headers);
      forall j | 0 <= j < |order|
        ensures SepFree(texts[j], CRLF) && texts[j] != ""
      {
        if j < n {
          assert texts[j] == HeaderTexts(prefix, headers)[j];
        } else {
          assert texts[j] == k + ": " + headers[k];
        }
      }
    }
  }

  /**
   * The header lines the serializer writes for normalised headers (lower-case,
   * trimmed names without a colon, trimmed values) parse back to the same map.
   */
  lemma {:induction false} HeaderTextsParseBack(order: seq<string>, headers: map<string, string>)
    requires forall k :: k in order ==> k in headers
    requires forall k :: k in order ==> IsHeaderName(k) && ':' !in k && IsTrimmed(headers[k])
    ensures HeadersOf(HeaderTexts(order, headers)) == map k | k in order :: headers[k]
    decreases |order|
  {
    if order != [] {
      var n := |order| - 1;
      var prefix := order[..n];
      var k := order[n];
      var text := HeaderText(k, headers[k]);
      calc {
        HeadersOf(HeaderTexts(order, headers));
        { assert HeaderTexts(order, headers) == HeaderTexts(prefix, headers) + [text];
          HeadersOfSnoc(HeaderTexts(prefix, headers), text); }
        AddHeader(HeadersOf(HeaderTexts(prefix, headers)), text);
        { HeaderTextField(k, headers[k]); }
        HeadersOf(HeaderTexts(prefix, headers))[k := headers[k]];
        { HeaderTextsParseBack(prefix, headers); }
        (map k' | k' in prefix :: headers[k'])[k := headers[k]];
        { assert order == prefix + [k];
          RestrictAppend(prefix, k, headers); }
        map k' | k' in order :: headers[k'];
      }
    }
  }

  /** A header line written from a normalised name and a trimmed value reads back as that pair. */
  lemma HeaderTextField(k: string, v: string)
    requires IsHeaderName(k) && ':' !in k && IsTrimmed(v)
    ensures HeaderField(HeaderText(k, v)) == Some((k, v))
  {
    assert HeaderText(k, v) == k + ":" + " " + v;
    HeaderFieldSpaced(k, " ", v);
    ToLowerNoUpper(k);
  }

  /** Restricting a map to one more key adds that key's entry. */
  lemma RestrictAppend(keys: seq<string>, k: string, headers: map<string, string>)
    requires forall k' :: k' in keys + [k] ==> k' in headers
    ensures (map k' | k' in keys + [k] :: headers[k']) == (map k' | k' in keys :: headers[k'])[k := headers[k]]
  {
    var left := map k' | k' in keys + [k] :: headers[k'];
    var right := (map k' | k' in keys :: headers[k'])[k := headers[k]];
    assert forall k' :: k' in keys + [k] <==> k' in keys || k' == k;
    assert left.Keys == right.Keys;
    assert forall k' :: k' in left ==> left[k'] == right[k'];
  }

  /**
   * The bytes of a response, read by the request parser: the status line
   * counts as a request line, the header block as headers, and the body comes
   * back whole behind the CRLF of the empty line.
   */
  lemma SerializedResponseParses(response: Response, order: seq<string>)
    requires IsKeyOrder(order, response.headers.Keys)
    requires SepFree(response.status.text, CRLF)
    requires forall k :: k in response.headers ==> SepFree(k, CRLF) && SepFree(response.headers[k], CRLF)
    ensures var parsed := RequestOf(ResponseBytes(response, order));
      && parsed.Some?
      && parsed.value.body == CRLF + response.body
      && parsed.value.headers == HeadersOf(HeaderTexts(order, response.headers))
  {
    var head := [StatusText(response.status)] + HeaderTexts(order, response.headers);
    assert StatusLine(response.status) == StatusText(response.status) + CRLF;
    HeadIsJoin(StatusText(response.status), order, response.headers);
    assert ResponseBytes(response, order) == Join(head, CRLF) + CRLF + CRLF + response.body;
    StatusTextHasTwoSpaces(response.status);
    HeadLinesWellFormed(response, order);
    RequestOfFramed(head, response.body);
    assert head[1..] == HeaderTexts(order, response.headers);
  }

  /** With normalised headers, the parsed header map is the response's own header map. */
  lemma SerializedHeadersParseBack(response: Response, order: seq<string>)
    requires IsKeyOrder(order, response.headers.Keys)
    requires SepFree(response.status.text, CRLF)
    requires forall k :: k in response.headers ==> SepFree(k, CRLF) && SepFree(response.headers[k], CRLF)
    requires forall k :: k in response.headers ==> IsHeaderName(k) && ':' !in k && IsTrimmed(response.headers[k])
    ensures RequestOf(ResponseBytes(response, order)).Some?
    ensures RequestOf(ResponseBytes(response, order)).value.headers == response.headers
  {
    SerializedResponseParses(response, order);
    HeaderTextsParseBack(order, response.headers);
    RestrictToAll(order, response.headers);
  }

  /** Restricting a map to an order of all its keys gives the map back. */
  lemma RestrictToAll(order: seq<string>, headers: map<string, string>)
    requires IsKeyOrder(order, headers.Keys)
    ensures (map k | k in order :: headers[k]) == headers
  {
  }

  // ---------------------------------------------------------------------------
  // Scenarios
  // ---------------------------------------------------------------------------

  /** Three spellings of one header line give one normalised entry. */
  lemma HostHeaderSpellings()
    ensures HeaderField("Host:  example.com") == Some(("host", "example.com"))
    ensures HeaderField("host: example.com") == Some(("host", "example.com"))
    ensures HeaderField("HOST:example.com") == Some(("host", "example.com"))
  {
    HostSpelledWide();
    HostSpelledLower();
    HostSpelledUpper();
  }

  lemma HostSpelledWide()
    ensures HeaderField("Host:  example.com") == Some(("host", "example.com"))
  {
    assert "Host" + ":" + "  " + "example.com" == "Host:  example.com";
    HostField("Host", "  ");
  }

  lemma HostSpelledLower()
    ensures HeaderField("host: example.com") == Some(("host", "example.com"))
  {
    assert "host" + ":" + " " + "example.com" == "host: example.com";
    HostField("host", " ");
  }

  lemma HostSpelledUpper()
    ensures HeaderField("HOST:example.com") == Some(("host", "example.com"))
  {
    assert "HOST" + ":" + "" + "example.com" == "HOST:example.com";
    HostField("HOST", "");
  }

  lemma HostField(name: string, lead: string)
    requires |name| == 4 && name[0] in "hH" && name[1] in "oO" && name[2] in "sS" && name[3] in "tT"
    requires AllSpace(lead)
    ensures HeaderField(name + ":" + lead + "example.com") == Some(("host", "example.com"))
  {
    HeaderFieldSpaced(name, lead, "example.com");
    LowerHost(name);
  }

  /** Any capitalisation of "host" lower-cases to "host". */
  lemma LowerHost(s: string)
    requires |s| == 4 && s[0] in "hH" && s[1] in "oO" && s[2] in "sS" && s[3] in "tT"
    ensures ToLower(s) == "host"
  {
    var r := ToLower(s);
    assert r[0] == 'h' && r[1] == 'o' && r[2] == 's' && r[3] == 't';
  }

  /** A GET request line for `path`, as a client writes it, parses back to its tokens. */
  lemma GetLine(path: string)
    requires ' ' !in path && '\r' !in path
    ensures ParseRequestLine("GET " + path + " HTTP/1.1") == Some(RequestLine(GET, path, "HTTP/1.1"))
    ensures CountChar("GET " + path + " HTTP/1.1", ' ') >= 2
    ensures SepFree("GET " + path + " HTTP/1.1", CRLF)
  {
    GetLineTokens(path);
    GetLineCrlfFree(path);
  }

  lemma GetLineCrlfFree(path: string)
    requires '\r' !in path
    ensures SepFree("GET " + path + " HTTP/1.1", CRLF)
  {
    var line := "GET " + path + " HTTP/1.1";
    assert '\r' !in line by {
      assert forall i :: 0 <= i < |line| ==> line[i] in "GET " || line[i] in path || line[i] in " HTTP/1.1";
    }
    NoCrIsCrlfFree(line);
  }

  lemma GetLineTokens(path: string)
    requires ' ' !in path
    ensures ParseRequestLine("GET " + path + " HTTP/1.1") == Some(RequestLine(GET, path, "HTTP/1.1"))
  {
    assert "GET " + path + " HTTP/1.1" == GET + " " + path + " " + "HTTP/1.1" + "";
    RequestLineOfTokens(GET, path, "HTTP/1.1", "");
  }

  /**
   * A GET for any path other than "/", with an empty header block, on a router
   * that only knows "/" for GET: the request parses, its body is the empty
   * line's CRLF, and the answer is the 404 response.
   */
  lemma MissingRouteScenario(router: Router, path: string)
    requires router.routes.Keys == {RouteKey("/", GET)}
    requires path != "/" && ' ' !in path && '\r' !in path
    ensures RequestOf("GET " + path + " HTTP/1.1" + CRLF + CRLF)
         == Some(Request(RequestLine(GET, path, "HTTP/1.1"), map[], CRLF))
    ensures router.Handle(RequestOf("GET " + path + " HTTP/1.1" + CRLF + CRLF).value) == NotFound()
  {
    var line := "GET " + path + " HTTP/1.1";
    GetLine(path);
    RequestOfFramed([line], "");
    assert Join([line], CRLF) + CRLF + CRLF + "" == line + CRLF + CRLF;
    assert [line][1..] == [];
    assert CRLF + "" == CRLF;
    assert RequestOf(line + CRLF + CRLF) == Some(Request(RequestLine(GET, path, "HTTP/1.1"), HeadersOf([]), CRLF));
    var request := RequestOf(line + CRLF + CRLF).value;
    OtherPathNotFound(router, "/", GET, request);
  }

  /** The Host header line as a client writes it: one CRLF-free line giving the entry "host". */
  lemma HostLine(host: string)
    requires '\r' !in host && IsTrimmed(host)
    ensures HeaderField("Host: " + host) == Some(("host", host))
    ensures SepFree("Host: " + host, CRLF)
  {
    var field := "Host: " + host;
    NoCrIsCrlfFree(field);
    assert field == "Host" + ":" + " " + host;
    HeaderFieldSpaced("Host", " ", host);
    LowerHost("Host");
  }

  /**
   * A GET with one Host header and an empty line: one normalised header, and
   * a body that is the empty line's CRLF rather than nothing.
   */
  lemma HostRequestScenario(path: string, host: string)
    requires ' ' !in path && '\r' !in path
    requires '\r' !in host && IsTrimmed(host)
    ensures RequestOf("GET " + path + " HTTP/1.1" + CRLF + "Host: " + host + CRLF + CRLF)
         == Some(Request(RequestLine(GET, path, "HTTP/1.1"), map["host" := host], CRLF))
  {
    var line := "GET " + path + " HTTP/1.1";
    var field := "Host: " + host;
    GetLine(path);
    HostLine(host);
    var head := [line, field];
    var buf := "GET " + path + " HTTP/1.1" + CRLF + "Host: " + host + CRLF + CRLF;
    assert Join(head, CRLF) == line + CRLF + field;
    assert buf == Join(head, CRLF) + CRLF + CRLF + "";
    RequestOfFramed(head, "");
    assert head[1..] == [field];
    HeadersOfSnoc([], field);
    assert [] + [field] == [field];
    assert CRLF + "" == CRLF;
  }

  /**
   * The same request on a router where "/" is registered for GET goes to
   * that handler, with the parsed request as its argument.
   */
  lemma RootRouteScenario(router: Router, host: string)
    requires RouteKey("/", GET) in router.routes
    requires '\r' !in host && IsTrimmed(host)
    ensures var parsed := RequestOf("GET / HTTP/1.1" + CRLF + "Host: " + host + CRLF + CRLF);
      && parsed.Some?
      && router.Handle(parsed.value) == router.routes[RouteKey("/", GET)](parsed.value)
  {
    assert "GET / HTTP/1.1" == "GET " + "/" + " HTTP/1.1";
    HostRequestScenario("/", host);
    var request := RequestOf("GET / HTTP/1.1" + CRLF + "Host: " + host + CRLF + CRLF).value;
    HandleRegistered(router, request);
  }

  /** The status line of the 404 response. */
  lemma NotFoundStatusLine()
    ensures StatusLine(NotFound().status) == "HTTP/1.1 404 Not Found\r\n"
  {
    assert NatToDecimal(4) == "4";
    assert NatToDecimal(40) == NatToDecimal(4) + "0";
    assert NatToDecimal(404) == NatToDecimal(40) + "4";
  }

  /** The 404 response on the wire, line by line: it has one header, so the order cannot matter. */
  lemma NotFoundBytes(order: seq<string>)
    requires IsKeyOrder(order, {"Content-Type"})
    ensures ResponseBytes(NotFound(), order)
         == "HTTP/1.1 404 Not Found\r\n" + "Content-Type: text/plain\r\n" + "\r\n" + "404 - Not Found"
  {
    var response := NotFound();
    assert response.headers.Keys == {"Content-Type"};
    ResponseBytesOneHeader(response, order, "Content-Type", "text/plain");
    NotFoundStatusLine();
    assert HeaderLine("Content-Type", "text/plain") == "Content-Type: text/plain\r\n";
  }
}
