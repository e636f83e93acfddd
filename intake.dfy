/**
 * What the server front end does with the bytes of a framed request before
 * any worker sees it (`HTTPServer._process_request_wrapper`): no bytes, no
 * reply; a request line that is not three words, or a POST without a usable
 * body, is answered at once with a fixed 400 response.
 */
module Intake {
  import opened Wrappers
  import opened Text
  import Utf8
  import Http

  /** The front end's verdict on a request. */
  datatype Verdict =
    | Silent
    | Refused(reply: seq<byte>)
    | Accepted(verb: string, path: string, body: string)

  // The fixed replies are bytes literals.
  const InvalidFormat: seq<byte> := Utf8.Bytes("HTTP/1.0 400 Bad Request\r\n\r\nInvalid request format")
  const MissingBody: seq<byte> := Utf8.Bytes("HTTP/1.0 400 Bad Request\r\n\r\nMissing or invalid request body")
  const EmptyBody: seq<byte> := Utf8.Bytes("HTTP/1.0 400 Bad Request\r\n\r\nEmpty request body")

  /** `request_data.split(b'\r\n\r\n', 1)[0]`: the bytes before the first blank
      line, or all of them. */
  function HeadOf(data: seq<byte>): seq<byte>
  {
    match SplitOnce(data, Http.BlankLine)
    case Some((head, _)) => head
    case None => data
  }

  /** `headers.split('\n')[0].strip()` */
  function RequestLine(text: string): string
  {
    Strip(Split(text, "\n")[0])
  }

  /** The words of the request line, when the head decodes. */
  function LineWords(data: seq<byte>): Option<seq<string>>
  {
    match Utf8.Decode(HeadOf(data))
    case None => None
    case Some(text) => Some(Words(RequestLine(text)))
  }

  /** The request line is three words, so unpacking it succeeds. */
  predicate WellFormedLine(data: seq<byte>)
  {
    data != [] && LineWords(data).Some? && |LineWords(data).value| == 3
  }

  /** The body after the first blank line, when there is one and it decodes. */
  function BodyText(data: seq<byte>): Option<string>
  {
    match SplitOnce(data, Http.BlankLine)
    case None => None
    case Some((_, raw)) => Utf8.Decode(raw)
  }

  /** The front end's checks, in the order the source makes them. */
  function Check(data: seq<byte>): (v: Verdict)
    ensures v.Silent? <==> data == []
    ensures v == Refused(InvalidFormat) <==> data != [] && !WellFormedLine(data)
    ensures v == Refused(MissingBody) <==>
      WellFormedLine(data) && LineWords(data).value[0] == "POST" && BodyText(data).None?
    ensures v == Refused(EmptyBody) <==>
      WellFormedLine(data) && LineWords(data).value[0] == "POST" && BodyText(data).Some? && Strip(BodyText(data).value) == []
    ensures v.Refused? ==> v.reply in {InvalidFormat, MissingBody, EmptyBody}
    ensures v.Accepted? ==> WellFormedLine(data) && v.verb == LineWords(data).value[0] && v.path == LineWords(data).value[1]
    ensures v.Accepted? ==> IsWord(v.verb) && IsWord(v.path)
    ensures v.Accepted? && v.verb != "POST" ==> v.body == ""
    ensures v.Accepted? && v.verb == "POST" ==> Strip(v.body) != [] && BodyText(data) == Some(v.body)
  {
    if data == [] then Silent
    else
      match Utf8.Decode(HeadOf(data))
      case None => Refused(InvalidFormat)
      case Some(text) =>
        var words := Words(RequestLine(text));
        if |words| != 3 then Refused(InvalidFormat)
        else if words[0] != "POST" then Accepted(words[0], words[1], "")
        else
          match SplitOnce(data, Http.BlankLine)
          case None => Refused(MissingBody)
          case Some((_, raw)) =>
            match Utf8.Decode(raw)
            case None => Refused(MissingBody)
            case Some(body) =>
              if Strip(body) == [] then Refused(EmptyBody)
              else Accepted("POST", words[1], body)
  }

  /** Three words joined by single spaces: only the two spaces are
      whitespace, and the line starts and ends with a word character. */
  lemma SpacedLine(m: string, p: string, version: string)
    requires IsWord(m) && IsWord(p) && IsWord(version)
    ensures var line := m + " " + p + " " + version;
      && (forall i :: 0 <= i < |line| ==> !IsSpace(line[i]) || line[i] == ' ')
      && !IsSpace(line[0]) && !IsSpace(line[|line| - 1])
  {
    var line := m + " " + p + " " + version;
    forall i | 0 <= i < |line|
      ensures !IsSpace(line[i]) || line[i] == ' '
    {
      if i < |m| {
        assert line[i] == m[i];
      } else if i == |m| {
      } else if i < |m| + 1 + |p| {
        assert line[i] == p[i - |m| - 1];
      } else if i == |m| + 1 + |p| {
      } else {
        assert line[i] == version[i - |m| - |p| - 2];
      }
    }
    assert line[0] == m[0] && line[|line| - 1] == version[|version| - 1];
  }

  /** Text without a carriage return, a blank line, then a body: the first
      blank line is the one after the text. */
  lemma SplitAfterLine(line: string, body: string)
    requires forall i :: 0 <= i < |line| ==> line[i] != '\r'
    ensures SplitOnce(Utf8.Encode(line) + Http.BlankLine + Utf8.Encode(body), Http.BlankLine)
         == Some((Utf8.Encode(line), Utf8.Encode(body)))
  {
    var head := Utf8.Encode(line);
    var data := head + Http.BlankLine + Utf8.Encode(body);
    Utf8.EncodeAvoids(line, 13);
    assert OccursAt(data, Http.BlankLine, |head|);
    forall j: nat | j < |head|
      ensures !OccursAt(data, Http.BlankLine, j)
    {
      assert data[j] == head[j] && head[j] != 13;
      if j + 4 <= |data| {
        assert data[j..j + 4][0] == data[j];
      }
    }
    var (h, raw) := SplitOnce(data, Http.BlankLine).value;
    assert OccursAt(data, Http.BlankLine, |h|) by {
      assert data[|h|..|h| + 4] == Http.BlankLine;
    }
    assert |h| == |head|;
    assert h == head && raw == Utf8.Encode(body);
  }

  /** A line without a line feed and without whitespace at its ends is its
      own request line. */
  lemma RequestLineOfLine(line: string)
    requires forall i :: 0 <= i < |line| ==> line[i] != '\n'
    requires line != [] ==> !IsSpace(line[0]) && !IsSpace(line[|line| - 1])
    ensures RequestLine(line) == line
  {
    ContainsOne(line, '\n');
    SplitFirst(line, "\n");
    StripNoop(line);
  }

  /** A request line of three words, a blank line and the body: the front end
      reads back the method, the path and, for a POST with a non-blank body,
      the body. */
  lemma CheckReadsRequest(m: string, p: string, version: string, body: string)
    requires IsWord(m) && IsWord(p) && IsWord(version)
    requires m == "POST" ==> Strip(body) != []
    ensures Check(Utf8.Encode(m + " " + p + " " + version) + Http.BlankLine + Utf8.Encode(body))
         == Accepted(m, p, if m == "POST" then body else "")
  {
    var data := Utf8.Encode(m + " " + p + " " + version) + Http.BlankLine + Utf8.Encode(body);
    PartsOfRequest(m, p, version, body);
    CheckOfParts(data, m, p, version, body);
  }

  /** The verdict on a request is decided by its request line's words and
      its body text alone. */
  lemma CheckOfParts(data: seq<byte>, m: string, p: string, version: string, body: string)
    requires data != []
    requires LineWords(data) == Some([m, p, version]) && BodyText(data) == Some(body)
    requires m == "POST" ==> Strip(body) != []
    ensures Check(data) == Accepted(m, p, if m == "POST" then body else "")
  {
    assert LineWords(data).value[0] == m && LineWords(data).value[1] == p;
  }

  /** A request line that is not three words is refused as malformed,
      whatever follows the blank line. */
  lemma CheckRefusesLine(line: string, body: string)
    requires forall i :: 0 <= i < |line| ==> line[i] != '\r' && line[i] != '\n'
    requires line != [] ==> !IsSpace(line[0]) && !IsSpace(line[|line| - 1])
    requires |Words(line)| != 3
    ensures Check(Utf8.Encode(line) + Http.BlankLine + Utf8.Encode(body)) == Refused(InvalidFormat)
  {
    var data := Utf8.Encode(line) + Http.BlankLine + Utf8.Encode(body);
    SplitAfterLine(line, body);
    RequestLineOfLine(line);
    Utf8.DecodeEncode(line);
    assert LineWords(data) == Some(Words(line));
  }

  /** The request line and the body of a request of three words, a blank
      line and a body, as the front end's checks see them. */
  lemma PartsOfRequest(m: string, p: string, version: string, body: string)
    requires IsWord(m) && IsWord(p) && IsWord(version)
    ensures var data := Utf8.Encode(m + " " + p + " " + version) + Http.BlankLine + Utf8.Encode(body);
      LineWords(data) == Some([m, p, version]) && BodyText(data) == Some(body)
  {
    var line := m + " " + p + " " + version;
    SpacedLine(m, p, version);
    SplitAfterLine(line, body);
    RequestLineOfLine(line);
    Utf8.DecodeEncode(line);
    Utf8.DecodeEncode(body);
    WordsOfThree(m, p, version);
  }

  /** A POST whose body is only whitespace is refused as empty. */
  lemma CheckRefusesBlankBody(m: string, p: string, version: string, body: string)
    requires m == "POST" && IsWord(p) && IsWord(version) && Strip(body) == []
    ensures Check(Utf8.Encode(m + " " + p + " " + version) + Http.BlankLine + Utf8.Encode(body)) == Refused(EmptyBody)
  {
    assert IsWord(m);
    PartsOfRequest(m, p, version, body);
  }
}
