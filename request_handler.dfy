/**
 * The alternative request handler (`RequestHandler` in request_handler.py):
 * it parses a request out of the bytes of one `recv`, serves a GET from the
 * static directory with a content type picked by the file's suffix, stores a
 * POST body as a file behind the shared admission counter, and answers any
 * other method with 405.
 *
 * `Path.resolve` and `urllib.parse.unquote` are inputs (functions on paths),
 * as are the clock that names an upload without a path and the way writing
 * the file ends. The file system is the same map from resolved paths to
 * entries that the workers of the main server use.
 */
module Handler {
  import opened Wrappers
  import opened Text
  import Utf8
  import Decimal
  import Paths
  import Http
  import Framing
  import Admission
  import Worker

  /** The blank line that ends the head, the line break between header lines
      and the separator between a header's key and its value. */
  const HeaderEnd: string := "\r\n\r\n"
  const LineEnd: string := "\r\n"
  const FieldSep: string := ": "

  /** The dictionary `parse_http_request` returns. */
  datatype Parsed = Parsed(verb: string, path: string, headers: map<string, string>, body: string)

  /** A reply and its status code. The replies the handler builds as text
      are ASCII, and `handle_request` sends their encoding, so they are held
      as the bytes that go out. */
  datatype Reply = Reply(bytes: seq<byte>, status: nat)

  /** How writing an upload ended: saved, or `open`/`write` raised. */
  datatype SaveOutcome = Saved | Raised

  const TooMany: seq<byte> := Utf8.Bytes("HTTP/1.0 429 Too Many Requests\r\n\r\nToo many concurrent requests")
  const Denied: seq<byte> := Utf8.Bytes("HTTP/1.0 403 Forbidden\r\n\r\nAccess Denied")
  const Missing: seq<byte> := Utf8.Bytes("HTTP/1.0 404 Not Found\r\n\r\nFile not found")
  const Failed: seq<byte> := Utf8.Bytes("HTTP/1.0 500 Internal Server Error\r\n\r\nServer Error")
  const NotAllowed: seq<byte> := Utf8.Bytes("HTTP/1.0 405 Method Not Allowed\r\n\r\nMethod not allowed")
  const SavedPrefix: seq<byte> := Utf8.Bytes("HTTP/1.0 200 OK\r\n\r\nFile saved successfully: ")

  // ---------------------------------------------------------------------
  // Parsing
  // ---------------------------------------------------------------------

  /** The head and the body of the request text: split at the first blank
      line, or the whole text and an empty body when there is none. */
  function Sections(text: string): (r: (string, string))
    ensures Contains(text, HeaderEnd) ==> text == r.0 + HeaderEnd + r.1 && !Contains(r.0, HeaderEnd)
    ensures !Contains(text, HeaderEnd) ==> r == (text, "")
  {
    match SplitOnce(text, HeaderEnd)
    case Some((head, body)) =>
      SplitOnceHeadClean(text, HeaderEnd);
      (head, body)
    case None => (text, "")
  }

  /** A header line names key `k` when it holds ': ' and the text before the
      first ': ', lower-cased, is `k`. */
  predicate Declares(line: string, k: string)
  {
    match SplitOnce(line, FieldSep)
    case Some((key, _)) => Lower(key) == k
    case None => false
  }

  /** The value a header line gives: everything after its first ': '. */
  function ValueOf(line: string): string
    requires Contains(line, FieldSep)
  {
    SplitOnce(line, FieldSep).value.1
  }

  /** The dictionary the header loop leaves after the given lines, each one
      that holds ': ' storing its value under its lower-cased key. */
  function HeaderMap(lines: seq<string>): map<string, string>
    decreases |lines|
  {
    if lines == [] then map[]
    else
      var before := HeaderMap(lines[..|lines| - 1]);
      match SplitOnce(lines[|lines| - 1], FieldSep)
      case Some((key, value)) => before[Lower(key) := value]
      case None => before
  }

  /** The lines of the head of a request text. */
  function TextLines(text: string): (r: seq<string>)
    ensures |r| >= 1
  {
    Split(Sections(text).0, LineEnd)
  }

  /** The request line split on single spaces. */
  function LineParts(text: string): seq<string>
  {
    Split(TextLines(text)[0], " ")
  }

  /** `parse_http_request`: a decoding failure, or a request line that does
      not split on ' ' into exactly three parts, gives `None`. */
  function ParseRequest(data: seq<byte>): (r: Option<Parsed>)
    ensures r.Some? <==> Utf8.Decode(data).Some? && |LineParts(Utf8.Decode(data).value)| == 3
    ensures r.Some? ==>
      var text := Utf8.Decode(data).value;
      && r.value.verb == LineParts(text)[0] && r.value.path == LineParts(text)[1]
      && r.value.headers == HeaderMap(TextLines(text)[1..])
      && r.value.body == Sections(text).1
    ensures r.Some? ==> !Contains(r.value.verb, " ") && !Contains(r.value.path, " ")
    ensures r.Some? && !Contains(Utf8.Decode(data).value, HeaderEnd) ==> r.value.body == ""
  {
    match Utf8.Decode(data)
    case None => None
    case Some(text) =>
      var parts := LineParts(text);
      if |parts| != 3 then None
      else Some(Parsed(parts[0], parts[1], HeaderMap(TextLines(text)[1..]), Sections(text).1))
  }

  /** The header loop's last step: the last line, when it names `k`, sets
      `k`; otherwise `k` keeps what the earlier lines gave it. */
  lemma HeaderMapStep(lines: seq<string>, k: string)
    requires lines != []
    ensures var before := HeaderMap(lines[..|lines| - 1]);
      var last := lines[|lines| - 1];
      && (k in HeaderMap(lines) <==> k in before || Declares(last, k))
      && (Declares(last, k) ==> HeaderMap(lines)[k] == ValueOf(last))
      && (!Declares(last, k) && k in before ==> HeaderMap(lines)[k] == before[k])
  {
  }

  /** A header line is in the dictionary exactly when some line names it. */
  lemma {:induction false} HeaderMapKeys(lines: seq<string>, k: string)
    ensures k in HeaderMap(lines) <==> exists i :: 0 <= i < |lines| && Declares(lines[i], k)
    decreases |lines|
  {
    if lines != [] {
      HeaderMapStep(lines, k);
      HeaderMapKeys(lines[..|lines| - 1], k);
      SomeSatisfies(lines, lines[..|lines| - 1], l => Declares(l, k));
    }
  }

  /** Some element satisfies `P` exactly when one before the last does, or
      the last one does. */
  lemma SomeSatisfies<T>(xs: seq<T>, init: seq<T>, P: T -> bool)
    requires xs != [] && init == xs[..|xs| - 1]
    ensures (exists i :: 0 <= i < |xs| && P(xs[i])) <==> (exists i :: 0 <= i < |init| && P(init[i])) || P(xs[|xs| - 1])
  {
    if exists i :: 0 <= i < |xs| && P(xs[i]) {
      var i :| 0 <= i < |xs| && P(xs[i]);
      if i < |init| {
        assert init[i] == xs[i];
      }
    }
    if exists i :: 0 <= i < |init| && P(init[i]) {
      var i :| 0 <= i < |init| && P(init[i]);
      assert xs[i] == init[i];
    }
  }

  /** A later line naming the same key overwrites an earlier one: the value
      stored is the one of the last line that names the key. */
  lemma {:induction false} HeaderMapLastWins(lines: seq<string>, k: string, i: nat)
    requires i < |lines| && Declares(lines[i], k)
    requires forall j :: i < j < |lines| ==> !Declares(lines[j], k)
    ensures k in HeaderMap(lines) && HeaderMap(lines)[k] == ValueOf(lines[i])
    decreases |lines|
  {
    var init := lines[..|lines| - 1];
    HeaderMapStep(lines, k);
    if i < |lines| - 1 {
      assert init[i] == lines[i];
      forall j | i < j < |init|
        ensures !Declares(init[j], k)
      {
        assert init[j] == lines[j];
      }
      HeaderMapLastWins(init, k, i);
    }
  }

  /** Three parts without a space, joined by single spaces, split back into
      those three parts. */
  lemma SplitSpaced(m: string, p: string, v: string)
    requires !Contains(m, " ") && !Contains(p, " ") && !Contains(v, " ")
    ensures Split(m + " " + p + " " + v, " ") == [m, p, v]
  {
    var pieces := [m, p, v];
    JoinThree(m, p, v, " ");
    ContainsOne(m, ' ');
    ContainsOne(p, ' ');
    ContainsOne(v, ' ');
    assert FreeOf(pieces, ' ');
    SplitJoinFree(pieces, " ");
  }

  /** A text without a carriage return, a blank line and a body: the head is
      the text and the body is what follows the blank line. */
  lemma SectionsAfterLine(line: string, body: string)
    requires forall i :: 0 <= i < |line| ==> line[i] != '\r'
    ensures Sections(line + HeaderEnd + body) == (line, body)
  {
    var text := line + HeaderEnd + body;
    assert OccursAt(text, HeaderEnd, |line|) by {
      assert text[|line|..|line| + 4] == HeaderEnd;
    }
    forall j: nat | j < |line|
      ensures !OccursAt(text, HeaderEnd, j)
    {
      assert text[j] == line[j];
      if j + 4 <= |text| {
        assert text[j..j + 4][0] == text[j];
      }
    }
    var (h, b) := SplitOnce(text, HeaderEnd).value;
    assert OccursAt(text, HeaderEnd, |h|) by {
      assert text[|h|..|h| + 4] == HeaderEnd;
    }
    assert |h| == |line|;
    assert h == line && b == body;
  }

  /** The parser reads back a request line of three space-free parts followed
      by a blank line and a body: no headers, and the body as it was sent. */
  lemma ParseReadsRequest(m: string, p: string, v: string, body: string)
    requires !Contains(m, " ") && !Contains(p, " ") && !Contains(v, " ")
    requires forall i :: 0 <= i < |m| ==> m[i] != '\r'
    requires forall i :: 0 <= i < |p| ==> p[i] != '\r'
    requires forall i :: 0 <= i < |v| ==> v[i] != '\r'
    ensures ParseRequest(Utf8.Encode(m + " " + p + " " + v + HeaderEnd + body)) == Some(Parsed(m, p, map[], body))
  {
    var line := m + " " + p + " " + v;
    forall i | 0 <= i < |line|
      ensures line[i] != '\r'
    {
      if i < |m| {
        assert line[i] == m[i];
      } else if i < |m| + 1 + |p| {
        assert i == |m| || line[i] == p[i - |m| - 1];
      } else {
        assert i == |m| + 1 + |p| || line[i] == v[i - |m| - |p| - 2];
      }
    }
    Utf8.DecodeEncode(line + HeaderEnd + body);
    SectionsAfterLine(line, body);
    NoOccurrence(line, LineEnd);
    assert Split(line, LineEnd) == [line];
    SplitSpaced(m, p, v);
    assert [line][1..] == [];
  }
  /** A request line that does not split on ' ' into three parts makes the
      parse fail, whatever the body. */
  lemma ParseRefusesLine(line: string, body: string)
    requires forall i :: 0 <= i < |line| ==> line[i] != '\r'
    requires |Split(line, " ")| != 3
    ensures ParseRequest(Utf8.Encode(line + HeaderEnd + body)) == None
  {
    Utf8.DecodeEncode(line + HeaderEnd + body);
    SectionsAfterLine(line, body);
    NoOccurrence(line, LineEnd);
    assert Split(line, LineEnd) == [line];
    assert LineParts(line + HeaderEnd + body) == Split(line, " ");
  }


  // ---------------------------------------------------------------------
  // GET
  // ---------------------------------------------------------------------

  /** The content type of a file with suffix `suffix`. */
  function MediaType(suffix: string): (t: string)
    ensures t == "text/html" <==> suffix == ".html"
    ensures t == "image/jpeg" <==> suffix == ".jpg" || suffix == ".jpeg"
    ensures t == "image/png" <==> suffix == ".png"
    ensures t == "text/plain" <==> suffix != ".html" && suffix != ".jpg" && suffix != ".jpeg" && suffix != ".png"
  {
    if suffix == ".html" then "text/html"
    else if suffix == ".jpg" || suffix == ".jpeg" then "image/jpeg"
    else if suffix == ".png" then "image/png"
    else "text/plain"
  }

  /** The content type of `Path(StaticDir) / rel`, by its suffix. */
  function ContentType(rel: string): string
  {
    MediaType(Paths.Suffix(Paths.FinalName(rel)))
  }

  /** `Path(StaticDir) / rel` as text: an absolute `rel` replaces the
      directory, an empty one adds nothing. */
  function Under(rel: string): string
  {
    if StartsWith(rel, "/") then rel
    else if rel == "" then Paths.StaticDir
    else Paths.JoinStatic(rel)
  }

  /** The successful GET reply: the head with the content type and length,
      the blank line, and the content as read. */
  function OkReply(contentType: string, content: seq<byte>): seq<byte>
  {
    Utf8.Encode(Http.OkHead(contentType, |content|)) + Http.BlankLine + content
  }

  /** `handle_get_request`: the request path, with leading slashes removed and
      percent-decoded, is looked up under the static directory once it is
      resolved. The containment test is the component-wise one (see the
      findings). A path that exists but is no readable file makes `open`
      raise, which the handler answers with 500. */
  function GetReply(files: Worker.Store, resolve: string -> string, unquote: string -> string, path: string): (r: Reply)
    ensures r.status in {200, 403, 404, 500}
    ensures var rel := unquote(LStripChar(path, '/'));
      var key := resolve(Under(rel));
      && (r.status == 403 <==> !Paths.Within(key, resolve(Paths.StaticDir)))
      && (r.status == 404 <==> Paths.Within(key, resolve(Paths.StaticDir)) && key !in files)
      && (r.status == 200 <==> Paths.Within(key, resolve(Paths.StaticDir)) && key in files && files[key].Regular?)
      && (r.status == 200 ==> r.bytes == OkReply(ContentType(rel), files[key].bytes))
    ensures r.status == 403 ==> r.bytes == Denied
    ensures r.status == 404 ==> r.bytes == Missing
    ensures r.status == 500 ==> r.bytes == Failed
  {
    var rel := unquote(LStripChar(path, '/'));
    var key := resolve(Under(rel));
    if !Paths.Within(key, resolve(Paths.StaticDir)) then Reply(Denied, 403)
    else if key !in files then Reply(Missing, 404)
    else
      match files[key]
      case Regular(content) => Reply(OkReply(ContentType(rel), content), 200)
      case _ => Reply(Failed, 500)
  }

  /** Every content type the table picks is plain ASCII text on one line. */
  lemma MediaTypePlain(suffix: string)
    ensures Utf8.IsAscii(MediaType(suffix)) && Framing.NoCr(MediaType(suffix))
  {
  }

  /** The head of a successful GET reply declares, to the main server's own
      framing rules, exactly the length of the content after the blank line. */
  lemma OkReplyDeclaresLength(rel: string, content: seq<byte>)
    ensures var head := Utf8.Encode(Http.OkHead(ContentType(rel), |content|));
      && OkReply(ContentType(rel), content) == head + Http.BlankLine + content
      && Framing.ContentLength(head) == Framing.Declared(|content|)
  {
    MediaTypePlain(Paths.Suffix(Paths.FinalName(rel)));
    Framing.OkHeadDeclaresLength(ContentType(rel), |content|);
  }

  /** A name that is no path: no '/' anywhere. */
  predicate SlashFree(s: string)
  {
    forall i :: 0 <= i < |s| ==> s[i] != '/'
  }

  /** The final component of a plain name is the name itself. */
  lemma FinalNameOfName(name: string)
    requires name != "" && name != "." && SlashFree(name)
    ensures Paths.FinalName(name) == name
  {
    NoOccurrence(name, "/");
    assert Split(name, "/") == [name];
  }

  /** The suffix of a name is its extension: everything from the last '.',
      when that dot neither starts nor ends the name. */
  lemma SuffixOfName(stem: string, ext: string)
    requires stem != [] && |ext| >= 2 && ext[0] == '.'
    requires forall j :: 1 <= j < |ext| ==> ext[j] != '.'
    ensures Paths.Suffix(stem + ext) == ext
  {
    var name := stem + ext;
    assert name[|stem|] == '.';
    forall j | |stem| < j < |name|
      ensures name[j] != '.'
    {
      assert name[j] == ext[j - |stem|];
    }
    var r := Paths.LastIndexOf(name, '.');
    assert r.Some?;
    assert r.value == |stem|;
    assert name[|stem|..] == ext;
  }

  /** A file name picks its content type by its extension. */
  lemma ContentTypeOfName(stem: string, ext: string)
    requires stem != [] && |ext| >= 2 && ext[0] == '.'
    requires forall j :: 1 <= j < |ext| ==> ext[j] != '.'
    requires SlashFree(stem) && SlashFree(ext)
    ensures ContentType(stem + ext) == MediaType(ext)
  {
    var name := stem + ext;
    forall i | 0 <= i < |name|
      ensures name[i] != '/'
    {
      if i >= |stem| {
        assert name[i] == ext[i - |stem|];
      }
    }
    assert name != "." by {
      assert |name| >= 3;
    }
    FinalNameOfName(name);
    SuffixOfName(stem, ext);
  }

  // ---------------------------------------------------------------------
  // POST
  // ---------------------------------------------------------------------

  /** The name an upload is stored under: the request path without leading
      slashes, or a name made from the clock in whole seconds when nothing
      is left. */
  function UploadName(path: string, now: nat): (name: string)
    ensures name != [] && name[0] != '/'
    ensures LStripChar(path, '/') != [] ==> name == LStripChar(path, '/')
  {
    var stripped := LStripChar(path, '/');
    if stripped != [] then stripped else "uploaded_file_" + Decimal.ShowNat(now)
  }

  /** The body of `handle_post_request` once a slot is held: the containment
      test, then the write, whose failure (or a directory in the way, the
      static directory itself included) is answered with 500 and leaves the
      files as they were. */
  function Upload(files: Worker.Store, resolve: string -> string, path: string, body: string, now: nat,
                  outcome: SaveOutcome): (r: (Reply, Worker.Store))
    ensures r.0.status in {200, 403, 500}
    ensures var name := UploadName(path, now);
      var key := resolve(Paths.JoinStatic(name));
      && (r.0.status == 403 <==> !Paths.Within(key, resolve(Paths.StaticDir)))
      && (r.0.status == 200 <==>
            Paths.Within(key, resolve(Paths.StaticDir)) && key != resolve(Paths.StaticDir) && outcome == Saved
            && !(key in files && files[key].Directory?))
      && (r.0.status == 200 ==>
            r.1 == files[key := Worker.Regular(Utf8.Encode(body))] && r.0.bytes == SavedPrefix + Utf8.Encode(name))
    ensures r.0.status != 200 ==> r.1 == files
    ensures r.0.status == 403 ==> r.0.bytes == Denied
    ensures r.0.status == 500 ==> r.0.bytes == Failed
  {
    var name := UploadName(path, now);
    var key := resolve(Under(name));
    if !Paths.Within(key, resolve(Paths.StaticDir)) then (Reply(Denied, 403), files)
    else if key == resolve(Paths.StaticDir) || (key in files && files[key].Directory?) then (Reply(Failed, 500), files)
    else
      match outcome
      case Saved => (Reply(SavedPrefix + Utf8.Encode(name), 200), files[key := Worker.Regular(Utf8.Encode(body))])
      case Raised => (Reply(Failed, 500), files)
  }

  /** An upload that was saved can be fetched back: a GET of its name, which
      percent-decoding leaves as it is, finds the encoded body, typed by the
      name's suffix. */
  lemma UploadThenGet(files: Worker.Store, resolve: string -> string, unquote: string -> string,
                      path: string, body: string, now: nat)
    requires Upload(files, resolve, path, body, now, Saved).0.status == 200
    requires unquote(UploadName(path, now)) == UploadName(path, now)
    ensures var name := UploadName(path, now);
      var after := Upload(files, resolve, path, body, now, Saved).1;
      GetReply(after, resolve, unquote, "/" + name) == Reply(OkReply(ContentType(name), Utf8.Encode(body)), 200)
  {
    var name := UploadName(path, now);
    var stripped := LStripChar("/" + name, '/');
    assert ("/" + name)[0] == '/' && ("/" + name)[1] == name[0];
    assert |stripped| == |name|;
    assert stripped == ("/" + name)[1..] == name;
    assert !StartsWith(name, "/");
  }

  // ---------------------------------------------------------------------
  // Dispatch
  // ---------------------------------------------------------------------

  /** `handle_request` after parsing: GET and POST go to their handlers, a
      POST that finds every slot taken (`busy`) is refused with 429, and any
      other method gets 405. */
  function Route(files: Worker.Store, resolve: string -> string, unquote: string -> string, q: Parsed,
                 busy: bool, now: nat, outcome: SaveOutcome): (r: (Reply, Worker.Store))
    ensures q.verb != "POST" || busy ==> r.1 == files
    ensures q.verb == "GET" ==> r.0 == GetReply(files, resolve, unquote, q.path)
    ensures q.verb == "POST" && !busy ==> r == Upload(files, resolve, q.path, q.body, now, outcome)
    ensures r.0.status == 429 <==> q.verb == "POST" && busy
    ensures r.0.status == 405 <==> q.verb != "GET" && q.verb != "POST"
    ensures r.0.status == 405 ==> r.0.bytes == NotAllowed
    ensures r.0.status == 429 ==> r.0.bytes == TooMany
  {
    if q.verb == "GET" then (GetReply(files, resolve, unquote, q.path), files)
    else if q.verb == "POST" then
      if busy then (Reply(TooMany, 429), files)
      else Upload(files, resolve, q.path, q.body, now, outcome)
    else (Reply(NotAllowed, 405), files)
  }

  /** What one connection leaves behind: the bytes sent back, if any, and
      the files. Nothing is sent for an empty read or an unparsable
      request. */
  function Handle(files: Worker.Store, resolve: string -> string, unquote: string -> string, data: seq<byte>,
                  busy: bool, now: nat, outcome: SaveOutcome): (r: (Option<seq<byte>>, Worker.Store))
    ensures r.0.None? <==> data == [] || ParseRequest(data).None?
    ensures r.0.None? ==> r.1 == files
    ensures r.0.Some? ==>
      var q := ParseRequest(data).value;
      var routed := Route(files, resolve, unquote, q, busy, now, outcome);
      r == (Some(routed.0.bytes), routed.1)
  {
    if data == [] then (None, files)
    else
      match ParseRequest(data)
      case None => (None, files)
      case Some(q) =>
        var (reply, after) := Route(files, resolve, unquote, q, busy, now, outcome);
        (Some(reply.bytes), after)
  }

  /** A handler of one worker: the admission counter it shares with the
      others, the file system it reads and writes, and the path functions
      it relies on. */
  class RequestHandler {
    const activePosts: Admission.PostCounter
    var files: Worker.Store
    const resolve: string -> string
    const unquote: string -> string

    ghost predicate Valid()
      reads this, activePosts
    {
      activePosts.Valid()
    }

    constructor (counter: Admission.PostCounter, store: Worker.Store,
                 resolvePath: string -> string, unquotePath: string -> string)
      ensures activePosts == counter && files == store
      ensures resolve == resolvePath && unquote == unquotePath
    {
      activePosts := counter;
      files := store;
      resolve := resolvePath;
      unquote := unquotePath;
    }

    /** `parse_http_request`, with the header dictionary filled line by line. */
    method ParseHttpRequest(data: seq<byte>) returns (r: Option<Parsed>)
      ensures r == ParseRequest(data)
    {
      var decoded := Utf8.Decode(data);
      if decoded.None? {
        return None;
      }
      var (head, body) := Sections(decoded.value);
      var lines := Split(head, LineEnd);
      var parts := Split(lines[0], " ");
      if |parts| != 3 {
        return None;
      }
      var rest := lines[1..];
      var headers: map<string, string> := map[];
      var i := 0;
      while i < |rest|
        invariant 0 <= i <= |rest|
        invariant headers == HeaderMap(rest[..i])
      {
        var line := rest[i];
        assert rest[..i + 1][..i] == rest[..i];
        match SplitOnce(line, FieldSep) {
          case Some((key, value)) =>
            headers := headers[Lower(key) := value];
          case None =>
        }
        i := i + 1;
      }
      assert rest[..i] == rest;
      r := Some(Parsed(parts[0], parts[1], headers, body));
    }

    /** `handle_post_request`: at the limit the POST is refused with 429 and
        the counter is left alone; otherwise a slot is taken, the upload
        runs, and the slot is given back on every way out of it. */
    method HandlePost(path: string, body: string, now: nat, outcome: SaveOutcome) returns (r: Reply)
      requires Valid()
      modifies activePosts, this`files
      ensures Valid()
      ensures activePosts.active == old(activePosts.active)
      ensures old(activePosts.active) >= Admission.PostLimit ==> r == Reply(TooMany, 429) && files == old(files)
      ensures old(activePosts.active) < Admission.PostLimit ==>
        (r, files) == Upload(old(files), resolve, path, body, now, outcome)
    {
      var admitted := activePosts.TryAcquire();
      if !admitted {
        return Reply(TooMany, 429);
      }
      var (reply, after) := Upload(files, resolve, path, body, now, outcome);
      files := after;
      activePosts.Release();
      r := reply;
    }

    /** `handle_request` for the bytes of one `recv`: nothing is sent for an
        empty read or a request that does not parse; otherwise the reply of
        the method's handler goes out. */
    method HandleRequest(data: seq<byte>, now: nat, outcome: SaveOutcome) returns (sent: Option<seq<byte>>)
      requires Valid()
      modifies activePosts, this`files
      ensures Valid()
      ensures activePosts.active == old(activePosts.active)
      ensures (sent, files) ==
        Handle(old(files), resolve, unquote, data, old(activePosts.active) >= Admission.PostLimit, now, outcome)
    {
      if data == [] {
        return None;
      }
      var q := ParseHttpRequest(data);
      if q.None? {
        return None;
      }
      var reply: Reply;
      if q.value.verb == "GET" {
        reply := GetReply(files, resolve, unquote, q.value.path);
      } else if q.value.verb == "POST" {
        reply := HandlePost(q.value.path, q.value.body, now, outcome);
      } else {
        reply := Reply(NotAllowed, 405);
      }
      sent := Some(reply.bytes);
    }
  }
}
