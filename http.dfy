/**
 * The reply a worker hands back (status, headers in insertion order, body
 * bytes) and its serialisation into an HTTP/1.0 response by
 * `HTTPServer._process_request`.
 */
module Http {
  import opened Wrappers
  import opened Text
  import Utf8
  import Decimal

  /** A worker's response dictionary. A reply without a `headers` entry has
      an empty header list. */
  datatype Reply = Reply(status: nat, headers: seq<(string, string)>, content: seq<byte>)

  const CrLf: string := "\r\n"
  const BlankLine: seq<byte> := [13, 10, 13, 10]

  lemma EncodeCrLf()
    ensures Utf8.Encode(CrLf) == [13, 10]
  {
  }

  /** The reason-phrase table, with "Unknown" for any other code. */
  function Reason(status: nat): (r: string)
    ensures r == "Unknown" <==> status !in {200, 201, 400, 403, 404, 405, 500, 503}
    ensures forall i :: 0 <= i < |r| ==> 'A' <= r[i] <= 'Z' || 'a' <= r[i] <= 'z' || r[i] == ' '
  {
    if status == 200 then "OK"
    else if status == 201 then "Created"
    else if status == 400 then "Bad Request"
    else if status == 403 then "Forbidden"
    else if status == 404 then "Not Found"
    else if status == 405 then "Method Not Allowed"
    else if status == 500 then "Internal Server Error"
    else if status == 503 then "Service Unavailable"
    else "Unknown"
  }

  function StatusLine(status: nat): string
  {
    "HTTP/1.0 " + Decimal.ShowNat(status) + " " + Reason(status)
  }

  /** `key: value` lines, each ended by CRLF, in insertion order. */
  function HeaderBlock(headers: seq<(string, string)>): string
  {
    if headers == [] then []
    else HeaderBlock(headers[..|headers| - 1]) + headers[|headers| - 1].0 + ": " + headers[|headers| - 1].1 + CrLf
  }

  /** The text part of the response: status line, header lines, blank line. */
  function HeadText(r: Reply): string
  {
    StatusLine(r.status) + CrLf + HeaderBlock(r.headers) + CrLf
  }

  /** The bytes sent to the client: the encoded head, then the body as is. */
  function Wire(r: Reply): seq<byte>
  {
    Utf8.Encode(HeadText(r)) + r.content
  }

  const OkStatus: string := "HTTP/1.0 200 OK"

  /** The head of a successful GET reply without its final blank line: the
      status line, then the content type and the length of the body. */
  function OkHead(contentType: string, length: nat): string
  {
    OkStatus + CrLf + ("Content-Type: " + contentType) + CrLf + ("Content-Length: " + Decimal.ShowNat(length))
  }

  /** The serialiser: the status line, then one `+=` per header, the blank
      line, encoding, and the body appended. */
  method Serialize(r: Reply) returns (out: seq<byte>)
    ensures out == Wire(r)
  {
    var text := StatusLine(r.status) + CrLf;
    var i := 0;
    while i < |r.headers|
      invariant 0 <= i <= |r.headers|
      invariant text == StatusLine(r.status) + CrLf + HeaderBlock(r.headers[..i])
    {
      var (key, value) := r.headers[i];
      assert r.headers[..i + 1][..i] == r.headers[..i];
      text := text + key + ": " + value + CrLf;
      i := i + 1;
    }
    assert r.headers[..i] == r.headers;
    text := text + CrLf;
    out := Utf8.Encode(text) + r.content;
  }

  /** Header text that cannot end the head early: ASCII, no CR or LF. */
  predicate CleanText(s: string)
  {
    Utf8.IsAscii(s) && forall i :: 0 <= i < |s| ==> s[i] != '\r' && s[i] != '\n'
  }

  predicate CleanHeaders(headers: seq<(string, string)>)
  {
    forall i :: 0 <= i < |headers| ==> CleanText(headers[i].0) && CleanText(headers[i].1)
  }

  /** The head without its final blank line: the status line, then each
      header introduced by CRLF. */
  function HeadLines(status: nat, headers: seq<(string, string)>): string
  {
    if headers == [] then StatusLine(status)
    else HeadLines(status, headers[..|headers| - 1]) + CrLf + headers[|headers| - 1].0 + ": " + headers[|headers| - 1].1
  }

  lemma {:induction false} HeadTextLines(status: nat, headers: seq<(string, string)>)
    ensures StatusLine(status) + CrLf + HeaderBlock(headers) == HeadLines(status, headers) + CrLf
  {
    if headers != [] {
      HeadTextLines(status, headers[..|headers| - 1]);
    }
  }

  /** Every carriage return is followed by a line feed and then by something
      other than a carriage return, all inside the string. */
  predicate LoneBreaks(s: string)
  {
    forall j :: 0 <= j < |s| && s[j] == '\r' ==> j + 2 < |s| && s[j + 1] == '\n' && s[j + 2] != '\r'
  }

  lemma LoneBreaksAppend(a: string, b: string)
    requires LoneBreaks(a) && LoneBreaks(b)
    ensures LoneBreaks(a + b)
  {
    var s := a + b;
    forall j | 0 <= j < |s| && s[j] == '\r'
      ensures j + 2 < |s| && s[j + 1] == '\n' && s[j + 2] != '\r'
    {
      if j < |a| {
        assert a[j] == '\r';
      } else {
        assert b[j - |a|] == '\r';
      }
    }
  }

  lemma {:induction false} HeadLinesBreaks(status: nat, headers: seq<(string, string)>)
    requires CleanHeaders(headers)
    ensures LoneBreaks(HeadLines(status, headers))
    ensures Utf8.IsAscii(HeadLines(status, headers))
  {
    if headers == [] {
      StatusLinePlain(status);
    } else {
      var front := HeadLines(status, headers[..|headers| - 1]);
      var (key, value) := headers[|headers| - 1];
      assert CleanText(key) && CleanText(value);
      HeadLinesBreaks(status, headers[..|headers| - 1]);
      var line := CrLf + key + ": " + value;
      HeaderLinePlain(key, value);
      LoneBreaksAppend(front, line);
      Utf8.AsciiAppend(front, line);
      assert HeadLines(status, headers) == front + line;
    }
  }

  /** The status line is ASCII and holds no carriage return. */
  lemma StatusLinePlain(status: nat)
    ensures LoneBreaks(StatusLine(status)) && Utf8.IsAscii(StatusLine(status))
  {
    var s := StatusLine(status);
    var digits := Decimal.ShowNat(status);
    var reason := Reason(status);
    assert s == "HTTP/1.0 " + digits + " " + reason;
    forall j | 0 <= j < |s|
      ensures s[j] != '\r' && s[j] as int < 0x80
    {
      if j < 9 {
      } else if j < 9 + |digits| {
        assert s[j] == digits[j - 9];
      } else if j == 9 + |digits| {
      } else {
        assert s[j] == reason[j - 10 - |digits|];
      }
    }
  }

  /** A clean header, introduced by CRLF, is ASCII with a single lone break. */
  lemma HeaderLinePlain(key: string, value: string)
    requires CleanText(key) && CleanText(value)
    ensures LoneBreaks(CrLf + key + ": " + value) && Utf8.IsAscii(CrLf + key + ": " + value)
  {
    var line := CrLf + key + ": " + value;
    forall j | 0 <= j < |line|
      ensures (j > 0 ==> line[j] != '\r') && line[j] as int < 0x80
    {
      if 2 <= j < 2 + |key| {
        assert line[j] == key[j - 2];
      } else if j >= 4 + |key| {
        assert line[j] == value[j - 4 - |key|];
      }
    }
  }


  /** In the bytes of a string whose breaks are lone, the blank line cannot
      start before the string ends. */
  lemma NoBlankLineBefore(a: string, rest: seq<byte>, j: nat)
    requires LoneBreaks(a) && Utf8.IsAscii(a) && j < |Utf8.Encode(a)|
    ensures !OccursAt(Utf8.Encode(a) + BlankLine + rest, BlankLine, j)
  {
    Utf8.EncodeAscii(a);
    var w := Utf8.Encode(a) + BlankLine + rest;
    assert w[j] == a[j] as int;
    assert w[j..j + 4][0] == w[j] && w[j..j + 4][2] == w[j + 2];
    if a[j] == '\r' {
      assert w[j + 2] == a[j + 2] as int;
      assert w[j + 2] != 13;
    } else {
      assert w[j] != 13;
    }
  }

  /** A client reading the response finds the head ending at the first blank
      line and the body, exactly as the worker produced it, after it. */
  lemma WireSplitsAtBlankLine(r: Reply)
    requires CleanHeaders(r.headers)
    ensures SplitOnce(Wire(r), BlankLine) == Some((Utf8.Encode(HeadLines(r.status, r.headers)), r.content))
  {
    var a := HeadLines(r.status, r.headers);
    HeadTextLines(r.status, r.headers);
    HeadLinesBreaks(r.status, r.headers);
    assert HeadText(r) == a + "\r\n\r\n";
    Utf8.EncodeAppend(a, "\r\n\r\n");
    var e := Utf8.Encode(a);
    var w := Wire(r);
    assert w == e + BlankLine + r.content;
    assert OccursAt(w, BlankLine, |e|);
    forall j: nat | j < |e|
      ensures !OccursAt(w, BlankLine, j)
    {
      NoBlankLineBefore(a, r.content, j);
    }
    var split := SplitOnce(w, BlankLine);
    var (h, b) := split.value;
    assert OccursAt(w, BlankLine, |h|) by {
      assert w[|h|..|h| + 4] == BlankLine;
    }
    assert |h| == |e|;
    assert h == w[..|e|] == e;
  }
}
