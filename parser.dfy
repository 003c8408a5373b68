/**
 * Request parsing: a received buffer, cut into CRLF-separated lines, becomes a
 * request line, a header map and a body. The buffer is taken as a string
 * (Go's []byte to string conversion is the identity here).
 */
module Parser {
  import opened Wrappers
  import opened Text
  import opened Wire

  // ---------------------------------------------------------------------------
  // The request line
  // ---------------------------------------------------------------------------

  /** Occurrences of `c` in `s`. */
  function CountChar(s: string, c: char): nat
    decreases |s|
  {
    if s == [] then 0 else (if s[0] == c then 1 else 0) + CountChar(s[1..], c)
  }

  /** Occurrences in a concatenation add up. */
  lemma {:induction false} CountCharAppend(a: string, b: string, c: char)
    ensures CountChar(a + b, c) == CountChar(a, c) + CountChar(b, c)
    decreases |a|
  {
    if a == [] {
      assert a + b == b;
    } else {
      CountCharAppend(a[1..], b, c);
      assert (a + b)[0] == a[0];
      assert (a + b)[1..] == a[1..] + b;
    }
  }

  /** Splitting on one character gives one piece more than it occurs, and no piece holds it. */
  lemma {:induction false} SplitCharPieces(s: string, c: char)
    ensures |Split(s, [c])| == CountChar(s, c) + 1
    ensures forall j :: 0 <= j < |Split(s, [c])| ==> c !in Split(s, [c])[j]
    decreases |s|
  {
    if s != [] {
      SplitCharPieces(s[1..], c);
      if s[0] == c {
        assert s[..1] == [c];
        assert Split(s, [c]) == [""] + Split(s[1..], [c]);
      } else {
        assert s[..1] != [c];
        var rest := Split(s[1..], [c]);
        assert Split(s, [c]) == [[s[0]] + rest[0]] + rest[1..];
      }
    }
  }

  /**
   * parseRequestLine: tokens 0, 1 and 2 of the line split on single spaces.
   * Go indexes the split without a check and panics when there are fewer than
   * three tokens; that panic is None here. Nothing else is validated.
   */
  function ParseRequestLine(line: string): (r: Option<RequestLine>)
    ensures r.Some? <==> CountChar(line, ' ') >= 2
    ensures r.Some? ==> ' ' !in r.value.verb && ' ' !in r.value.path && ' ' !in r.value.version
  {
    SplitCharPieces(line, ' ');
    var tokens := Split(line, " ");
    if |tokens| < 3 then None
    else Some(RequestLine(tokens[0], tokens[1], tokens[2]))
  }

  /**
   * Any line of the form "verb path version" followed by nothing or by a space
   * and more text yields exactly those three tokens: extra tokens are ignored.
   */
  lemma RequestLineOfTokens(verb: string, path: string, version: string, rest: string)
    requires ' ' !in verb && ' ' !in path && ' ' !in version
    requires rest == [] || rest[0] == ' '
    ensures ParseRequestLine(verb + " " + path + " " + version + rest)
         == Some(RequestLine(verb, path, version))
  {
    var tail := version + rest;
    var mid := path + [' '] + tail;
    assert verb + " " + path + " " + version + rest == verb + [' '] + mid;
    SplitAtChar(verb, ' ', mid);
    SplitAtChar(path, ' ', tail);
    LastTokenFirst(version, rest);
  }

  /** A token followed by nothing or by a space is the first piece of the split. */
  lemma LastTokenFirst(version: string, rest: string)
    requires ' ' !in version
    requires rest == [] || rest[0] == ' '
    ensures Split(version + rest, " ")[0] == version
  {
    if rest == [] {
      assert version + rest == version;
      SplitNoChar(version, ' ');
    } else {
      assert version + rest == version + [' '] + rest[1..];
      SplitAtChar(version, ' ', rest[1..]);
    }
  }

  /**
   * Conversely, a parsed request line is where the line came from: the line
   * starts with the three tokens joined by single spaces, and whatever follows
   * them starts with a space.
   */
  lemma RequestLineIsPrefix(line: string)
    requires ParseRequestLine(line).Some?
    ensures var RequestLine(verb, path, version) := ParseRequestLine(line).value;
      var n := |verb| + |path| + |version| + 2;
      n <= |line| && line[..n] == verb + " " + path + " " + version && (n == |line| || line[n] == ' ')
  {
    var tokens := Split(line, " ");
    JoinSplit(line, " ");
    var t1 := tokens[1..];
    var t2 := tokens[2..];
    assert t1[1..] == t2;
    var j2 := Join(t2, " ");
    assert j2 == tokens[2] || (|t2| > 1 && j2 == tokens[2] + " " + Join(t2[1..], " "));
    assert Join(t1, " ") == tokens[1] + " " + j2;
    assert line == tokens[0] + " " + (tokens[1] + " " + j2);
  }

  // ---------------------------------------------------------------------------
  // Header lines
  // ---------------------------------------------------------------------------

  /** A header name as the parser stores it: lower-case and without outer whitespace. */
  predicate IsHeaderName(k: string) {
    IsTrimmed(k) && NoUpper(k)
  }

  /**
   * One header line, cut at its first colon: the name lower-cased and trimmed,
   * the value trimmed. A line without a colon gives None and is skipped.
   */
  function HeaderField(line: string): (r: Option<(string, string)>)
    ensures r.None? <==> ':' !in line
    ensures r.Some? ==> IsHeaderName(r.value.0) && IsTrimmed(r.value.1)
  {
    match CutFirst(line, ':')
    case None => None
    case Some((name, value)) =>
      ToLowerTrimmed(TrimSpace(name));
      Some((ToLower(TrimSpace(name)), TrimSpace(value)))
  }

  /** The header map after one more line: a later value for a name replaces the earlier one. */
  function AddHeader(headers: map<string, string>, line: string): map<string, string> {
    match HeaderField(line)
    case None => headers
    case Some((name, value)) => headers[name := value]
  }

  /** The header map built from header lines, first to last. */
  function HeadersOf(lines: seq<string>): (h: map<string, string>)
    ensures forall k :: k in h ==> IsHeaderName(k) && IsTrimmed(h[k])
    decreases |lines|
  {
    if lines == [] then map[] else AddHeader(HeadersOf(lines[..|lines| - 1]), lines[|lines| - 1])
  }

  /** The line is cut at the first colon only, so the value keeps any later colons. */
  lemma HeaderFieldOf(name: string, value: string)
    requires ':' !in name
    ensures HeaderField(name + ":" + value) == Some((ToLower(TrimSpace(name)), TrimSpace(value)))
  {
    CutFirstAt(name, ':', value);
  }

  /**
   * Whitespace after the colon is not part of the value, and the name is
   * only lower-cased: `Name: value`, `Name:value` and `Name:   value` agree.
   */
  lemma HeaderFieldSpaced(name: string, lead: string, value: string)
    requires ':' !in name && IsTrimmed(name)
    requires AllSpace(lead) && IsTrimmed(value)
    ensures HeaderField(name + ":" + lead + value) == Some((ToLower(name), value))
  {
    var rest := lead + value;
    assert rest == lead + value + "";
    assert name + ":" + lead + value == name + ":" + rest;
    TrimSpaceExact(lead, value, "");
    TrimSpaceTrimmed(name);
    HeaderFieldOf(name, rest);
  }

  /** A line without a colon adds nothing to the header map. */
  lemma HeadersOfSkipsColonless(lines: seq<string>, line: string)
    requires ':' !in line
    ensures HeadersOf(lines + [line]) == HeadersOf(lines)
  {
    assert (lines + [line])[..|lines|] == lines;
  }

  /** The header line that gave a name to the header map. */
  lemma {:induction false} HeadersOfKeySource(lines: seq<string>, k: string) returns (j: nat)
    requires k in HeadersOf(lines)
    ensures j < |lines| && HeaderField(lines[j]).Some? && HeaderField(lines[j]).value.0 == k
    decreases |lines|
  {
    var n := |lines| - 1;
    var prefix := lines[..n];
    var field := HeaderField(lines[n]);
    if field.Some? && field.value.0 == k {
      j := n;
    } else {
      assert k in HeadersOf(prefix);
      j := HeadersOfKeySource(prefix, k);
      assert lines[j] == prefix[j];
    }
  }

  /** Every name a header line yields is in the header map. */
  lemma {:induction false} HeadersOfKeyPresent(lines: seq<string>, j: nat, k: string)
    requires j < |lines| && HeaderField(lines[j]).Some? && HeaderField(lines[j]).value.0 == k
    ensures k in HeadersOf(lines)
    decreases |lines|
  {
    var n := |lines| - 1;
    if j < n {
      var prefix := lines[..n];
      assert prefix[j] == lines[j];
      HeadersOfKeyPresent(prefix, j, k);
    }
  }

  /** A repeated header name keeps the value of the last line that names it. */
  lemma {:induction false} HeadersOfLastWins(lines: seq<string>, j: nat, k: string, v: string)
    requires j < |lines| && HeaderField(lines[j]) == Some((k, v))
    requires forall j' :: j < j' < |lines| ==> HeaderField(lines[j']).None? || HeaderField(lines[j']).value.0 != k
    ensures k in HeadersOf(lines) && HeadersOf(lines)[k] == v
    decreases |lines|
  {
    var n := |lines| - 1;
    var prefix := lines[..n];
    assert lines == prefix + [lines[n]];
    HeadersOfSnoc(prefix, lines[n]);
    if j < n {
      assert prefix[j] == lines[j];
      forall j' | j < j' < |prefix|
        ensures HeaderField(prefix[j']).None? || HeaderField(prefix[j']).value.0 != k
      {
        assert prefix[j'] == lines[j'];
      }
      HeadersOfLastWins(prefix, j, k, v);
      AddHeaderOther(HeadersOf(prefix), lines[n], k);
    }
  }

  /** The header map of one more line is the old map with that line added. */
  lemma HeadersOfSnoc(lines: seq<string>, line: string)
    ensures HeadersOf(lines + [line]) == AddHeader(HeadersOf(lines), line)
  {
    assert (lines + [line])[..|lines|] == lines;
  }

  /** A line that names another header, or none, leaves a name's entry as it was. */
  lemma AddHeaderOther(headers: map<string, string>, line: string, k: string)
    requires HeaderField(line).None? || HeaderField(line).value.0 != k
    ensures k in AddHeader(headers, line) <==> k in headers
    ensures k in headers ==> AddHeader(headers, line)[k] == headers[k]
  {
  }

  // ---------------------------------------------------------------------------
  // The whole request
  // ---------------------------------------------------------------------------

  /**
   * Where the header scan that starts at line `i` stops: the first empty line
   * at or after `i`, or the end of the lines.
   */
  function ScanEnd(lines: seq<string>, i: nat): (end: nat)
    requires i <= |lines|
    ensures i <= end <= |lines|
    ensures forall j :: i <= j < end ==> lines[j] != ""
    ensures end < |lines| ==> lines[end] == ""
    decreases |lines| - i
  {
    if i == |lines| || lines[i] == "" then i else ScanEnd(lines, i + 1)
  }

  /**
   * What parseRequest returns for a buffer: line 0 is the request line, the
   * header lines run from line 1 to where the scan stops, and the body is
   * every line from there on, the empty line included, rejoined with CRLF.
   * None where Go's parseRequestLine panics.
   */
  function RequestOf(buf: string): (r: Option<Request>)
    ensures r.Some? <==> CountChar(Split(buf, CRLF)[0], ' ') >= 2
    ensures r.Some? ==> forall k :: k in r.value.headers ==> IsHeaderName(k) && IsTrimmed(r.value.headers[k])
  {
    var lines := Split(buf, CRLF);
    var end := ScanEnd(lines, 1);
    var line := ParseRequestLine(lines[0]);
    if line.None? then None
    else Some(Request(line.value, HeadersOf(lines[1..end]), Join(lines[end..], CRLF)))
  }

  /** parseRequest: the header loop fills the map in place, line by line. */
  method ParseRequest(buf: string) returns (r: Option<Request>)
    ensures r == RequestOf(buf)
  {
    var lines := Split(buf, CRLF);
    var status := lines[0];
    var headers: map<string, string> := map[];
    var i := 1;
    while i < |lines| && lines[i] != ""
      invariant 1 <= i <= |lines|
      invariant ScanEnd(lines, i) == ScanEnd(lines, 1)
      invariant headers == HeadersOf(lines[1..i])
    {
      match CutFirst(lines[i], ':') {
        case Some((name, value)) =>
          headers := headers[ToLower(TrimSpace(name)) := TrimSpace(value)];
        case None =>
      }
      assert lines[1..i + 1][..i - 1] == lines[1..i];
      i := i + 1;
    }
    var body := Join(lines[i..], CRLF);
    match ParseRequestLine(status) {
      case None =>
        r := None;
      case Some(line) =>
        r := Some(Request(line, headers, body));
    }
  }

  // ---------------------------------------------------------------------------
  // Properties of the body
  // ---------------------------------------------------------------------------

  /**
   * The body starts with the empty line that stopped the header scan: it is
   * CRLF followed by the remaining lines when any follow, and empty when the
   * scan ran to the end or the empty line is the last piece.
   */
  lemma BodyKeepsBlankLine(buf: string)
    requires RequestOf(buf).Some?
    ensures var lines := Split(buf, CRLF);
      var end := ScanEnd(lines, 1);
      var body := RequestOf(buf).value.body;
      (end + 1 < |lines| ==> body == CRLF + Join(lines[end + 1..], CRLF))
      && (end + 1 >= |lines| ==> body == "")
  {
    var lines := Split(buf, CRLF);
    var end := ScanEnd(lines, 1);
    if end + 1 < |lines| {
      assert lines[end..] == [lines[end]] + lines[end + 1..];
    }
  }

  /** The request line, the header lines and the body put back together give the buffer. */
  lemma RequestReconstructs(buf: string)
    requires RequestOf(buf).Some?
    ensures var lines := Split(buf, CRLF);
      var end := ScanEnd(lines, 1);
      var body := RequestOf(buf).value.body;
      buf == Join(lines[..end], CRLF) + (if end < |lines| then CRLF + body else "")
  {
    var lines := Split(buf, CRLF);
    var end := ScanEnd(lines, 1);
    assert RequestOf(buf).value.body == Join(lines[end..], CRLF);
    JoinSplit(buf, CRLF);
    JoinCut(lines, end, CRLF);
  }

  /** Cutting the parts in two cuts their join at the separator between the halves. */
  lemma JoinCut(parts: seq<string>, end: nat, sep: string)
    requires 1 <= end <= |parts|
    ensures Join(parts, sep)
         == Join(parts[..end], sep) + (if end < |parts| then sep + Join(parts[end..], sep) else "")
  {
    if end < |parts| {
      assert parts == parts[..end] + parts[end..];
      JoinAppend(parts[..end], parts[end..], sep);
    } else {
      assert parts[..end] == parts;
    }
  }

  /** The lines of a framed request: the head's lines, an empty line, then the body's pieces. */
  lemma FramedLines(head: seq<string>, body: string)
    requires head != []
    requires forall j :: 0 <= j < |head| ==> SepFree(head[j], CRLF)
    ensures Split(Join(head, CRLF) + CRLF + CRLF + body, CRLF) == head + [""] + Split(body, CRLF)
  {
    var rest := CRLF + body;
    assert Join(head, CRLF) + CRLF + CRLF + body == Join(head, CRLF) + CRLF + rest;
    SplitJoinCrlf(head, rest);
    assert rest == [] + CRLF + body;
    SplitAt([], CRLF, body);
  }

  /** Where the header scan stops in a framed request, and what it leaves on either side. */
  lemma FramedScan(head: seq<string>, body: string)
    requires head != []
    requires forall j :: 0 <= j < |head| ==> SepFree(head[j], CRLF)
    requires forall j :: 1 <= j < |head| ==> head[j] != ""
    ensures var lines := Split(Join(head, CRLF) + CRLF + CRLF + body, CRLF);
      && ScanEnd(lines, 1) == |head|
      && lines[0] == head[0]
      && lines[1..|head|] == head[1..]
      && Join(lines[|head|..], CRLF) == CRLF + body
  {
    FramedLines(head, body);
    LinesScanEnd(head, Split(body, CRLF));
    LinesAfterHead(head, Split(body, CRLF));
    BlankThenBody(body);
  }

  /** The scan over a head, an empty line and more pieces stops at that empty line. */
  lemma LinesScanEnd(head: seq<string>, pieces: seq<string>)
    requires head != []
    requires forall j :: 1 <= j < |head| ==> head[j] != ""
    ensures ScanEnd(head + [""] + pieces, 1) == |head|
  {
    var lines := head + [""] + pieces;
    var n := |head|;
    assert lines[n] == "";
    forall j | 1 <= j < n
      ensures lines[j] != ""
    {
      assert lines[j] == head[j];
    }
    ScanEndIs(lines, 1, n);
  }

  /** Where the head, the empty line and the other pieces sit in the lines. */
  lemma LinesAfterHead(head: seq<string>, pieces: seq<string>)
    requires head != []
    ensures var lines := head + [""] + pieces;
      && lines[0] == head[0]
      && lines[1..|head|] == head[1..]
      && lines[|head|..] == [""] + pieces
  {
    var lines := head + [""] + pieces;
    assert lines[1..|head|] == head[1..];
    assert lines[|head|..] == [""] + pieces;
  }

  /** The scan stops at the first empty line, so any empty line with none before it is where it stops. */
  lemma ScanEndIs(lines: seq<string>, i: nat, end: nat)
    requires i <= end < |lines| && lines[end] == ""
    requires forall j :: i <= j < end ==> lines[j] != ""
    ensures ScanEnd(lines, i) == end
  {
  }

  /** The pieces after the empty line, joined back with the empty line, are the body behind one CRLF. */
  lemma BlankThenBody(body: string)
    ensures Join([""] + Split(body, CRLF), CRLF) == CRLF + body
  {
    JoinSplit(body, CRLF);
    JoinCons("", Split(body, CRLF), CRLF);
  }

  /**
   * A request framed as a request line, header lines without CRLF, an empty
   * line and a body: the headers are those lines' and the body is the text
   * after the header block, with the empty line's CRLF in front.
   */
  lemma RequestOfFramed(head: seq<string>, body: string)
    requires head != [] && CountChar(head[0], ' ') >= 2
    requires forall j :: 0 <= j < |head| ==> SepFree(head[j], CRLF)
    requires forall j :: 1 <= j < |head| ==> head[j] != ""
    ensures RequestOf(Join(head, CRLF) + CRLF + CRLF + body)
         == Some(Request(ParseRequestLine(head[0]).value, HeadersOf(head[1..]), CRLF + body))
  {
    FramedScan(head, body);
  }

  /** With no empty line at all, every line after the first is a header and the body is empty. */
  lemma RequestOfUnframed(buf: string)
    requires RequestOf(buf).Some?
    requires forall j :: 1 <= j < |Split(buf, CRLF)| ==> Split(buf, CRLF)[j] != ""
    ensures RequestOf(buf).value.body == ""
    ensures RequestOf(buf).value.headers == HeadersOf(Split(buf, CRLF)[1..])
  {
    var lines := Split(buf, CRLF);
    var end := ScanEnd(lines, 1);
    assert end == |lines|;
    assert lines[end..] == [];
    assert lines[1..end] == lines[1..];
  }
}
