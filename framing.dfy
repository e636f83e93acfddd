/**
 * The server's intake of one connection (`HTTPServer._process_request_wrapper`
 * up to admission): reading chunks until the request is complete, then
 * checking the request line and, for a POST, the body.
 *
 * The socket is a script of chunks, one per `recv`; an empty chunk, or the end
 * of the script, is the peer closing the connection.
 */
module Framing {
  import opened Wrappers
  import opened Text
  import Utf8
  import Decimal
  import Http

  const CrLfBytes: seq<byte> := [13, 10]
  const Colon: byte := 58

  /** `b'content-length:'` */
  const LengthPrefix: seq<byte> := [99, 111, 110, 116, 101, 110, 116, 45, 108, 101, 110, 103, 116, 104, 58]

  /** What the framing loop makes of the `Content-Length` header. */
  datatype LengthField = Absent | Declared(n: int) | Malformed

  /** A header line whose lower-cased form starts with `content-length:`. */
  predicate IsLengthLine(line: seq<byte>)
  {
    StartsWith(LowerBytes(line), LengthPrefix)
  }

  /** `line.split(b':', 1)[1]` of a length line: everything after the colon
      that ends the prefix. */
  function LengthValue(line: seq<byte>): seq<byte>
    requires IsLengthLine(line)
  {
    line[15..]
  }

  /** The value is what Python's split at the first colon leaves: no colon
      comes before the one that ends the prefix. */
  lemma LengthValueSplit(line: seq<byte>)
    requires IsLengthLine(line)
    ensures SplitOnce(line, [Colon]) == Some((line[..14], LengthValue(line)))
  {
    assert LowerBytes(line)[14] == 58 && LowerByte(line[14]) == 58;
    assert OccursAt(line, [Colon], 14);
    forall j: nat | j < 14
      ensures !OccursAt(line, [Colon], j)
    {
      assert LowerBytes(line)[j] == LengthPrefix[j] && LowerByte(line[j]) != 58;
      assert line[j] != Colon;
      assert line[j..j + 1][0] == line[j];
    }
    var (a, b) := SplitOnce(line, [Colon]).value;
    assert OccursAt(line, [Colon], |a|) by {
      assert line[|a|..|a| + 1] == [Colon];
    }
    assert |a| == 14;
    assert a == line[..14];
  }

  /** The field one length line declares: `int()` of the value, which raises
      on anything but an optionally signed decimal literal. */
  function FieldOf(line: seq<byte>): (f: LengthField)
    requires IsLengthLine(line)
    ensures f != Absent
  {
    match Decimal.IntOf(LengthValue(line))
    case Some(n) => Declared(n)
    case None => Malformed
  }

  /** The index of the first length line. */
  function FirstLengthLine(lines: seq<seq<byte>>): (r: Option<nat>)
    ensures r.Some? ==> r.value < |lines| && IsLengthLine(lines[r.value])
    ensures r.Some? ==> forall j :: 0 <= j < r.value ==> !IsLengthLine(lines[j])
    ensures r.None? ==> forall j :: 0 <= j < |lines| ==> !IsLengthLine(lines[j])
  {
    if lines == [] then None
    else if IsLengthLine(lines[0]) then Some(0)
    else match FirstLengthLine(lines[1..])
      case None => None
      case Some(i) => Some(i + 1)
  }

  /** The `Content-Length` a head declares: the field of its first length
      line; later ones are never looked at. */
  function ContentLength(head: seq<byte>): LengthField
  {
    LinesField(Split(head, CrLfBytes))
  }

  /** The field of the first length line among the head's lines. */
  function LinesField(lines: seq<seq<byte>>): LengthField
  {
    match FirstLengthLine(lines)
    case None => Absent
    case Some(i) => FieldOf(lines[i])
  }

  /** The loop over header lines, leaving at the first length line. */
  method ReadContentLength(head: seq<byte>) returns (f: LengthField)
    ensures f == ContentLength(head)
  {
    var lines := Split(head, CrLfBytes);
    var j := 0;
    while j < |lines|
      invariant 0 <= j <= |lines|
      invariant forall k :: 0 <= k < j ==> !IsLengthLine(lines[k])
    {
      if IsLengthLine(lines[j]) {
        assert FirstLengthLine(lines) == Some(j);
        f := FieldOf(lines[j]);
        return;
      }
      j := j + 1;
    }
    f := Absent;
  }

  /** A head that is a single line not starting with `c` or `C` declares no
      length. */
  lemma NoLengthInLine(head: seq<byte>)
    requires head != [] && LowerByte(head[0]) != LengthPrefix[0]
    requires forall i :: 0 <= i < |head| ==> head[i] != 13
    ensures ContentLength(head) == Absent
  {
    forall j: nat | j <= |head|
      ensures !OccursAt(head, CrLfBytes, j)
    {
      if j + 2 <= |head| {
        assert head[j..j + 2][0] == head[j];
      }
    }
    assert Split(head, CrLfBytes) == [head];
    assert LowerBytes(head)[0] != LengthPrefix[0];
  }

  /** Text without a carriage return. */
  predicate NoCr(s: string)
  {
    forall i :: 0 <= i < |s| ==> s[i] != '\r'
  }

  lemma NoCrAppend(a: string, b: string)
    requires NoCr(a) && NoCr(b)
    ensures NoCr(a + b)
  {
    assert forall i :: |a| <= i < |a + b| ==> (a + b)[i] == b[i - |a|];
  }

  /** Three lines joined by CRLF split back into their encodings. */
  lemma ThreeLines(l1: string, l2: string, l3: string, sep: string)
    requires NoCr(l1) && NoCr(l2) && NoCr(l3) && Utf8.Encode(sep) == CrLfBytes
    ensures Split(Utf8.Encode(l1 + sep + l2 + sep + l3), CrLfBytes)
         == [Utf8.Encode(l1), Utf8.Encode(l2), Utf8.Encode(l3)]
  {
    Utf8.EncodeJoined(l1, l2, l3, sep);
    var e1, e2, e3 := Utf8.Encode(l1), Utf8.Encode(l2), Utf8.Encode(l3);
    JoinThree(e1, e2, e3, CrLfBytes);
    assert Utf8.Encode(l1 + sep + l2 + sep + l3) == Join([e1, e2, e3], CrLfBytes);
    Utf8.EncodeAvoids(l1, 13);
    Utf8.EncodeAvoids(l2, 13);
    Utf8.EncodeAvoids(l3, 13);
    assert FreeOf([e1, e2, e3], CrLfBytes[0]);
    SplitJoinFree([e1, e2, e3], CrLfBytes);
  }

  /** An ASCII line that differs from `content-length:` at some position
      of the prefix, ignoring case, is not a length line. */
  lemma NotLengthLine(l: string, i: nat)
    requires Utf8.IsAscii(l) && i < |LengthPrefix| && i < |l|
    requires LowerChar(l[i]) as int != LengthPrefix[i]
    ensures !IsLengthLine(Utf8.Encode(l))
  {
    Utf8.EncodeAscii(l);
    assert LowerBytes(Utf8.Encode(l))[i] == LowerChar(l[i]) as int;
  }

  /** The encoding of an ASCII line from position `k` on is the encoding of
      the rest of the line. */
  lemma EncodeTail(l: string, k: nat)
    requires Utf8.IsAscii(l) && k <= |l|
    ensures |Utf8.Encode(l)| == |l|
    ensures Utf8.Encode(l)[k..] == Utf8.Encode(l[k..])
  {
    Utf8.EncodeAscii(l);
    assert l == l[..k] + l[k..];
    Utf8.EncodeAppend(l[..k], l[k..]);
    assert Utf8.IsAscii(l[..k]);
    Utf8.EncodeAscii(l[..k]);
  }

  /** An ASCII line that starts with `content-length:`, ignoring case, is a
      length line, and its value is the rest of the line. */
  lemma LengthLineOf(l: string)
    requires Utf8.IsAscii(l) && |l| >= |LengthPrefix|
    requires forall i :: 0 <= i < |LengthPrefix| ==> LowerChar(l[i]) as int == LengthPrefix[i]
    ensures IsLengthLine(Utf8.Encode(l))
    ensures LengthValue(Utf8.Encode(l)) == Utf8.Encode(l[15..])
  {
    var e := Utf8.Encode(l);
    Utf8.EncodeAscii(l);
    forall i | 0 <= i < |LengthPrefix|
      ensures LowerByte(e[i]) == LengthPrefix[i]
    {
      assert e[i] == l[i] as int;
    }
    LowerPrefix(e);
    EncodeTail(l, 15);
  }

  /** Bytes whose first fifteen, lower-cased, spell `content-length:` form a
      length line. */
  lemma LowerPrefix(e: seq<byte>)
    requires |e| >= |LengthPrefix|
    requires forall i :: 0 <= i < |LengthPrefix| ==> LowerByte(e[i]) == LengthPrefix[i]
    ensures IsLengthLine(e)
  {
    var lower := LowerBytes(e);
    assert lower[..15] == LengthPrefix;
  }

  /** The first length line is at `k` when `k` is one and none before is. */
  lemma {:induction false} FirstLengthLineAt(lines: seq<seq<byte>>, k: nat)
    requires k < |lines| && IsLengthLine(lines[k])
    requires forall j :: 0 <= j < k ==> !IsLengthLine(lines[j])
    ensures FirstLengthLine(lines) == Some(k)
  {
    if k > 0 {
      assert !IsLengthLine(lines[0]);
      assert lines[1..][k - 1] == lines[k];
      FirstLengthLineAt(lines[1..], k - 1);
    }
  }

  /** Of three lines of which only the third is a length line, the third is
      the first. */
  lemma ThirdIsFirst(a: seq<byte>, b: seq<byte>, c: seq<byte>)
    requires !IsLengthLine(a) && !IsLengthLine(b) && IsLengthLine(c)
    ensures FirstLengthLine([a, b, c]) == Some(2)
  {
    FirstLengthLineAt([a, b, c], 2);
  }

  /** Three lines of which the third, and only the third, is a length line
      declare that line's value. */
  lemma DeclaredByThird(a: seq<byte>, b: seq<byte>, c: seq<byte>, n: nat)
    requires !IsLengthLine(a) && !IsLengthLine(b)
    requires IsLengthLine(c) && Decimal.IntOf(LengthValue(c)) == Some(n)
    ensures LinesField([a, b, c]) == Declared(n)
  {
    ThirdIsFirst(a, b, c);
  }

  /** A head of three lines whose third, and only the third, is a length
      line declaring `n`. */
  lemma ThirdLineDeclares(l1: string, l2: string, l3: string, sep: string, n: nat)
    requires NoCr(l1) && NoCr(l2) && NoCr(l3) && Utf8.Encode(sep) == CrLfBytes
    requires !IsLengthLine(Utf8.Encode(l1)) && !IsLengthLine(Utf8.Encode(l2))
    requires IsLengthLine(Utf8.Encode(l3)) && Decimal.IntOf(LengthValue(Utf8.Encode(l3))) == Some(n)
    ensures ContentLength(Utf8.Encode(l1 + sep + l2 + sep + l3)) == Declared(n)
  {
    ThreeLines(l1, l2, l3, sep);
    DeclaredByThird(Utf8.Encode(l1), Utf8.Encode(l2), Utf8.Encode(l3), n);
  }

  /** The content-type line of a reply head is not a length line. */
  lemma TypeLineIsNoLength(ct: string)
    requires Utf8.IsAscii(ct) && NoCr(ct)
    ensures NoCr("Content-Type: " + ct) && !IsLengthLine(Utf8.Encode("Content-Type: " + ct))
  {
    var l2 := "Content-Type: " + ct;
    NoCrAppend("Content-Type: ", ct);
    Utf8.AsciiAppend("Content-Type: ", ct);
    assert l2[8] == 'T';
    NotLengthLine(l2, 8);
  }

  /** The content-length line of a reply head declares the length it shows. */
  lemma LengthLineDeclares(n: nat)
    ensures NoCr("Content-Length: " + Decimal.ShowNat(n))
    ensures IsLengthLine(Utf8.Encode("Content-Length: " + Decimal.ShowNat(n)))
    ensures Decimal.IntOf(LengthValue(Utf8.Encode("Content-Length: " + Decimal.ShowNat(n)))) == Some(n)
  {
    var digits := Decimal.ShowNat(n);
    var l3 := "Content-Length: " + digits;
    Decimal.DigitsOfShowNat(n);
    assert NoCr(digits);
    NoCrAppend("Content-Length: ", digits);
    Utf8.AsciiAppend("Content-Length: ", digits);
    assert forall i :: 0 <= i < 15 ==> l3[i] == "Content-Length:"[i];
    LengthLineOf(l3);
    assert l3[15..] == " " + digits;
    Decimal.IntOfSpaced(n);
  }

  /** A reply head of a status line, a content type and a length declares
      that length to the server's own framing rules, whatever the status line
      says, as long as it is not itself a length line. */
  lemma TypedHeadDeclaresLength(first: string, sep: string, ct: string, n: nat)
    requires Utf8.IsAscii(first) && NoCr(first) && first != [] && LowerChar(first[0]) != 'c'
    requires Utf8.IsAscii(ct) && NoCr(ct) && Utf8.Encode(sep) == CrLfBytes
    ensures ContentLength(Utf8.Encode(first + sep + ("Content-Type: " + ct) + sep + ("Content-Length: " + Decimal.ShowNat(n))))
         == Declared(n)
  {
    NotLengthLine(first, 0);
    TypeLineIsNoLength(ct);
    LengthLineDeclares(n);
    ThirdLineDeclares(first, "Content-Type: " + ct, "Content-Length: " + Decimal.ShowNat(n), sep, n);
  }

  lemma OkStatusPlain()
    ensures Utf8.IsAscii(Http.OkStatus) && NoCr(Http.OkStatus)
    ensures Http.OkStatus != [] && LowerChar(Http.OkStatus[0]) != 'c'
  {
  }

  /** The server's own framing rules, applied to the head of a successful GET
      reply, find the length of the body that follows it. */
  lemma OkHeadDeclaresLength(ct: string, n: nat)
    requires Utf8.IsAscii(ct) && NoCr(ct)
    ensures ContentLength(Utf8.Encode(Http.OkHead(ct, n))) == Declared(n)
  {
    Http.EncodeCrLf();
    OkStatusPlain();
    TypedHeadDeclaresLength(Http.OkStatus, Http.CrLf, ct, n);
  }

  /** After a chunk: keep reading, stop, or fail because `int()` raised. */
  datatype Progress = Wait | Done | Fail

  /** Whether the bytes so far make a complete request: the head has ended and
      the body is as long as declared, or no length is declared. */
  function Check(data: seq<byte>): Progress
  {
    match SplitOnce(data, Http.BlankLine)
    case None => Wait
    case Some((head, body)) =>
      match ContentLength(head)
      case Absent => Done
      case Malformed => Fail
      case Declared(n) => if |body| >= n then Done else Wait
  }

  /** The bytes of the request and how many chunks carried them, or the
      exception raised by the length check after `used` chunks. */
  datatype Framed = Received(data: seq<byte>, used: nat) | Broken(used: nat)

  /** The framing loop from chunk `i` on, with `data` read so far. */
  function FrameFrom(chunks: seq<seq<byte>>, i: nat, data: seq<byte>): Framed
    decreases |chunks| - i
  {
    if i >= |chunks| || chunks[i] == [] then Received(data, i)
    else
      var d := data + chunks[i];
      match Check(d)
      case Wait => FrameFrom(chunks, i + 1, d)
      case Done => Received(d, i + 1)
      case Fail => Broken(i + 1)
  }

  function Frame(chunks: seq<seq<byte>>): Framed
  {
    FrameFrom(chunks, 0, [])
  }

  /** The loop of `_process_request_wrapper`: append each chunk, and once the
      head has ended look for the declared length. */
  method ReadRequest(conn: seq<seq<byte>>) returns (f: Framed)
    ensures f == Frame(conn)
  {
    var data: seq<byte> := [];
    var i := 0;
    while true
      invariant 0 <= i <= |conn|
      invariant FrameFrom(conn, i, data) == Frame(conn)
      decreases |conn| - i
    {
      var chunk := if i < |conn| then conn[i] else [];
      if chunk == [] {
        return Received(data, i);
      }
      data := data + chunk;
      i := i + 1;
      if Contains(data, Http.BlankLine) {
        var (head, body) := SplitOnce(data, Http.BlankLine).value;
        var length := ReadContentLength(head);
        match length
        case Absent => return Received(data, i);
        case Malformed => return Broken(i);
        case Declared(n) =>
          if |body| >= n {
            return Received(data, i);
          }
      }
    }
  }

  /** The first `k` chunks were read without the loop stopping early: each
      carried bytes, and after each but the last the request was incomplete. */
  ghost predicate ReadOn(chunks: seq<seq<byte>>, k: nat)
  {
    && k <= |chunks|
    && (forall j :: 0 <= j < k ==> chunks[j] != [])
    && (forall j :: 1 <= j < k ==> Check(Flatten(chunks[..j])) == Wait)
  }

  /** What the loop delivers is the concatenation of the chunks it consumed,
      and it stopped at the first point it could: the peer closed, or the
      request was complete, or the length check raised. */
  ghost predicate FrameShape(chunks: seq<seq<byte>>, f: Framed)
  {
    match f
    case Received(d, k) =>
      && ReadOn(chunks, k)
      && d == Flatten(chunks[..k])
      && (|| (k > 0 && Check(d) == Done)
          || ((k == |chunks| || chunks[k] == []) && (k == 0 || Check(d) == Wait)))
    case Broken(k) =>
      ReadOn(chunks, k) && k > 0 && Check(Flatten(chunks[..k])) == Fail
  }

  /** One more non-empty chunk after an incomplete request keeps the loop
      reading, and the bytes read grow by that chunk. */
  lemma ReadOnStep(chunks: seq<seq<byte>>, i: nat)
    requires ReadOn(chunks, i) && i < |chunks| && chunks[i] != []
    requires i > 0 ==> Check(Flatten(chunks[..i])) == Wait
    ensures ReadOn(chunks, i + 1)
    ensures Flatten(chunks[..i + 1]) == Flatten(chunks[..i]) + chunks[i]
  {
    assert chunks[..i + 1][..i] == chunks[..i];
    forall j | 1 <= j < i + 1
      ensures Check(Flatten(chunks[..j])) == Wait
    {
      if j == i {
        assert chunks[..j] == chunks[..i];
      }
    }
  }

  lemma {:induction false} FrameFromShape(chunks: seq<seq<byte>>, i: nat, data: seq<byte>)
    requires ReadOn(chunks, i) && data == Flatten(chunks[..i])
    requires i > 0 ==> Check(data) == Wait
    ensures FrameShape(chunks, FrameFrom(chunks, i, data))
    decreases |chunks| - i
  {
    if i < |chunks| && chunks[i] != [] {
      var d := data + chunks[i];
      ReadOnStep(chunks, i);
      var c := Check(d);
      if c == Wait {
        FrameFromShape(chunks, i + 1, d);
      } else if c == Done {
        assert FrameFrom(chunks, i, data) == Received(d, i + 1);
      } else {
        assert FrameFrom(chunks, i, data) == Broken(i + 1);
      }
    } else {
      assert FrameFrom(chunks, i, data) == Received(data, i);
    }
  }

  /** The framing loop's result, characterised. */
  lemma FrameIsShaped(chunks: seq<seq<byte>>)
    ensures FrameShape(chunks, Frame(chunks))
  {
    assert chunks[..0] == [];
    FrameFromShape(chunks, 0, []);
  }

  /** A peer that sends its request in one piece, with no length declared or
      the whole body present, is answered after that one chunk. */
  lemma OneChunk(chunks: seq<seq<byte>>)
    requires |chunks| > 0 && chunks[0] != [] && Check(chunks[0]) == Done
    ensures Frame(chunks) == Received(chunks[0], 1)
  {
    assert [] + chunks[0] == chunks[0];
  }
}
