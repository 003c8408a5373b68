/**
 * Response serialisation: the status line, one line per header, an empty
 * line, then the body as it is. The result is a string (Go's final string to
 * []byte conversion is the identity here).
 */
module Serializer {
  import opened Text
  import opened Wire

  /** `HTTP/1.1 <code> <text>`, the code written as fmt's %d writes it. */
  function StatusText(status: Status): string {
    "HTTP/1.1 " + IntToDecimal(status.code) + " " + status.text
  }

  /** The status line as written on the wire, with its CRLF. */
  function StatusLine(status: Status): string {
    StatusText(status) + CRLF
  }

  /** One header as `name: value`. */
  function HeaderText(name: string, value: string): string {
    name + ": " + value
  }

  /** One header as written on the wire, with its CRLF. */
  function HeaderLine(name: string, value: string): string {
    HeaderText(name, value) + CRLF
  }

  /**
   * `order` lists every key of `keys` exactly once: one of the orders in which
   * ranging over a Go map may visit its keys.
   */
  predicate IsKeyOrder(order: seq<string>, keys: set<string>) {
    && (forall i, j :: 0 <= i < j < |order| ==> order[i] != order[j])
    && (forall k :: k in keys ==> k in order)
    && (forall k :: k in order ==> k in keys)
  }

  /** The header texts for the keys in `order`, in that order. */
  function HeaderTexts(order: seq<string>, headers: map<string, string>): (texts: seq<string>)
    requires forall k :: k in order ==> k in headers
    ensures |texts| == |order|
    decreases |order|
  {
    if order == [] then []
    else
      var last := order[|order| - 1];
      HeaderTexts(order[..|order| - 1], headers) + [HeaderText(last, headers[last])]
  }

  /** Each text followed by its CRLF, one after the other. */
  function Lines(texts: seq<string>): string
    decreases |texts|
  {
    if texts == [] then "" else Lines(texts[..|texts| - 1]) + (texts[|texts| - 1] + CRLF)
  }

  /** The header lines written for the keys in `order`, in that order. */
  function HeaderBlock(order: seq<string>, headers: map<string, string>): string
    requires forall k :: k in order ==> k in headers
  {
    Lines(HeaderTexts(order, headers))
  }

  /** The bytes written for `response` when its headers are visited in `order`. */
  function ResponseBytes(response: Response, order: seq<string>): string
    requires IsKeyOrder(order, response.headers.Keys)
  {
    StatusLine(response.status) + HeaderBlock(order, response.headers) + CRLF + response.body
  }

  /**
   * writeResponseToBytes: the status line, then each header appended in
   * whatever order the map is ranged over (here, any key not yet written),
   * then the empty line and the body.
   */
  method WriteResponseToBytes(response: Response) returns (out: string)
    ensures exists order :: IsKeyOrder(order, response.headers.Keys) && out == ResponseBytes(response, order)
  {
    var headers := response.headers;
    ghost var status := StatusLine(response.status);
    out := StatusLine(response.status);
    var remaining := headers.Keys;
    ghost var order: seq<string> := [];
    while remaining != {}
      invariant Visiting(order, remaining, headers.Keys)
      invariant out == status + HeaderBlock(order, headers)
      decreases remaining
    {
      var key :| key in remaining;
      VisitOne(order, remaining, headers.Keys, key);
      HeaderBlockSnoc(order, key, headers);
      var line := HeaderLine(key, headers[key]);
      assert out + line == status + HeaderBlock(order + [key], headers);
      out := out + line;
      order := order + [key];
      remaining := remaining - {key};
    }
    VisitDone(order, headers.Keys);
    out := out + CRLF + response.body;
    assert out == ResponseBytes(response, order);
  }

  /**
   * Halfway through ranging over a map: `order` lists the keys visited so
   * far, once each, and `remaining` holds exactly the keys still to visit.
   */
  predicate Visiting(order: seq<string>, remaining: set<string>, keys: set<string>) {
    && remaining <= keys
    && (forall i, j :: 0 <= i < j < |order| ==> order[i] != order[j])
    && (forall k :: k in order ==> k in keys && k !in remaining)
    && (forall k :: k in keys ==> k in order || k in remaining)
  }

  /** Visiting one remaining key keeps the bookkeeping right. */
  lemma VisitOne(order: seq<string>, remaining: set<string>, keys: set<string>, key: string)
    requires Visiting(order, remaining, keys) && key in remaining
    ensures Visiting(order + [key], remaining - {key}, keys)
  {
  }

  /** With no key left to visit, the visit order is an order of all the keys. */
  lemma VisitDone(order: seq<string>, keys: set<string>)
    requires Visiting(order, {}, keys)
    ensures IsKeyOrder(order, keys)
  {
  }

  /** Writing one more header appends its line to the block. */
  lemma HeaderBlockSnoc(order: seq<string>, key: string, headers: map<string, string>)
    requires forall k :: k in order ==> k in headers
    requires key in headers
    ensures HeaderBlock(order + [key], headers) == HeaderBlock(order, headers) + HeaderLine(key, headers[key])
  {
    var texts := HeaderTexts(order, headers);
    assert (order + [key])[..|order|] == order;
    assert HeaderTexts(order + [key], headers) == texts + [HeaderText(key, headers[key])];
    assert (texts + [HeaderText(key, headers[key])])[..|texts|] == texts;
  }

  /** Whatever the order, the output starts with the status line and ends with the empty line and the body. */
  lemma ResponseBytesFrame(response: Response, order: seq<string>)
    requires IsKeyOrder(order, response.headers.Keys)
    ensures var out := ResponseBytes(response, order);
      && |StatusLine(response.status)| <= |out| && out[..|StatusLine(response.status)|] == StatusLine(response.status)
      && |CRLF + response.body| <= |out| && out[|out| - |CRLF + response.body|..] == CRLF + response.body
  {
    var status := StatusLine(response.status);
    var block := HeaderBlock(order, response.headers);
    var tail := CRLF + response.body;
    assert ResponseBytes(response, order) == status + block + tail;
    ConcatEnds(status, block, tail);
  }

  lemma ConcatEnds(a: string, m: string, c: string)
    ensures |a| <= |a + m + c| && (a + m + c)[..|a|] == a
    ensures |c| <= |a + m + c| && (a + m + c)[|a + m + c| - |c|..] == c
  {
  }

  /** A list without repeats has as many elements as the set of its elements. */
  lemma {:induction false} DistinctCount(order: seq<string>)
    requires forall i, j :: 0 <= i < j < |order| ==> order[i] != order[j]
    ensures |set k | k in order| == |order|
    decreases |order|
  {
    if order != [] {
      var n := |order| - 1;
      var prefix := order[..n];
      DistinctCount(prefix);
      assert (set k | k in order) == (set k | k in prefix) + {order[n]};
      assert order[n] !in (set k | k in prefix);
    }
  }

  /** An order of the keys writes exactly as many header lines as there are headers. */
  lemma KeyOrderSize(order: seq<string>, keys: set<string>)
    requires IsKeyOrder(order, keys)
    ensures |order| == |keys|
  {
    DistinctCount(order);
    assert (set k | k in order) == keys;
  }

  /** A map with a single key has a single order. */
  lemma KeyOrderOfOne(order: seq<string>, k: string)
    requires IsKeyOrder(order, {k})
    ensures order == [k]
  {
    KeyOrderSize(order, {k});
    assert order[0] in order;
  }

  /** With no headers the output is the status line, the empty line and the body. */
  lemma ResponseBytesNoHeaders(response: Response, order: seq<string>)
    requires response.headers == map[] && IsKeyOrder(order, response.headers.Keys)
    ensures ResponseBytes(response, order) == StatusLine(response.status) + CRLF + response.body
  {
    KeyOrderSize(order, response.headers.Keys);
  }

  /** With one header the output is fixed byte for byte: the iteration order cannot matter. */
  lemma ResponseBytesOneHeader(response: Response, order: seq<string>, name: string, value: string)
    requires response.headers == map[name := value] && IsKeyOrder(order, response.headers.Keys)
    ensures ResponseBytes(response, order)
         == StatusLine(response.status) + HeaderLine(name, value) + CRLF + response.body
  {
    assert response.headers.Keys == {name};
    KeyOrderOfOne(order, name);
    HeaderBlockSnoc([], name, response.headers);
    assert [] + [name] == [name];
  }

  /** Each header's line occurs in the header block, once per key visited. */
  lemma {:induction false} HeaderBlockHasLine(order: seq<string>, headers: map<string, string>, j: nat)
    requires forall k :: k in order ==> k in headers
    requires j < |order|
    ensures exists p, q :: HeaderBlock(order, headers) == p + HeaderLine(order[j], headers[order[j]]) + q
    decreases |order|
  {
    var n := |order| - 1;
    var prefix := order[..n];
    var line := HeaderLine(order[j], headers[order[j]]);
    assert order == prefix + [order[n]];
    HeaderBlockSnoc(prefix, order[n], headers);
    if j == n {
      assert HeaderBlock(order, headers) == HeaderBlock(prefix, headers) + line + "";
    } else {
      assert prefix[j] == order[j];
      HeaderBlockHasLine(prefix, headers, j);
      var p, q :| HeaderBlock(prefix, headers) == p + line + q;
      var q' := q + HeaderLine(order[n], headers[order[n]]);
      assert HeaderBlock(order, headers) == p + line + q';
    }
  }

  /** The status line of a 200 response: the code in decimal, then its text. */
  lemma OkStatusLine()
    ensures StatusLine(Status(200, "OK")) == "HTTP/1.1 200 OK\r\n"
  {
    assert NatToDecimal(2) == "2";
    assert NatToDecimal(20) == NatToDecimal(2) + "0";
    assert NatToDecimal(200) == NatToDecimal(20) + "0";
  }

  /** The serialised 200 response with one text/plain header and body "hi", line by line. */
  lemma PlainTextOk(order: seq<string>)
    requires IsKeyOrder(order, {"Content-Type"})
    ensures ResponseBytes(Response(Status(200, "OK"), map["Content-Type" := "text/plain"], "hi"), order)
         == "HTTP/1.1 200 OK\r\n" + "Content-Type: text/plain\r\n" + "\r\n" + "hi"
  {
    var response := Response(Status(200, "OK"), map["Content-Type" := "text/plain"], "hi");
    assert response.headers.Keys == {"Content-Type"};
    ResponseBytesOneHeader(response, order, "Content-Type", "text/plain");
    OkStatusLine();
    assert HeaderLine("Content-Type", "text/plain") == "Content-Type: text/plain\r\n";
  }
}
