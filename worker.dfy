/**
 * A worker process of the server (`Worker` in server.py): serving a file
 * under the static directory, storing an upload there, and routing each
 * request by method, with one log record per request.
 *
 * The file system is a map from normalised paths to entries; what a write
 * does to it, and the name the worker generates from the clock and a random
 * identifier, are inputs.
 */
module Worker {
  import opened Wrappers
  import opened Text
  import Utf8
  import Decimal
  import Paths
  import Http

  /** What the file system holds at a path. A file that exists but cannot be
      read carries the message of the error that reading raises. */
  datatype Entry = Regular(bytes: seq<byte>) | Directory | Unreadable(error: string)

  type Store = map<string, Entry>

  /** How writing an upload ended: written, raised with a message, or left a
      file of size zero. */
  datatype WriteOutcome = Written | WriteFailed(error: string) | WroteNothing

  /** A request as it crosses the pipe to the worker. */
  datatype Request = Request(verb: string, path: string, content: string)

  /** One line of `server.log`: method, path and status (the clock and the
      worker id are left out). */
  datatype LogEntry = LogEntry(verb: string, path: string, status: nat)

  /** A reply with no headers and a text message as its body. */
  function Plain(status: nat, message: seq<byte>): Http.Reply
  {
    Http.Reply(status, [], message)
  }

  const Forbidden: seq<byte> := Utf8.Bytes("Access forbidden")
  const NotFound: seq<byte> := Utf8.Bytes("File not found")
  const EmptyContent: seq<byte> := Utf8.Bytes("Empty content is not allowed")
  const Created: seq<byte> := Utf8.Bytes("File created successfully")
  const NotAllowed: seq<byte> := Utf8.Bytes("Method not allowed")
  const ReadError: string := "Internal server error: "
  const WriteError: string := "Error processing request: "
  const EmptyFile: seq<byte> := Utf8.Encode(WriteError + "File was created but is empty")

  /** The path a GET reads: the request path with its leading slashes removed,
      joined onto the static directory. */
  function GetTarget(path: string): string
  {
    Paths.JoinStatic(LStripChar(path, '/'))
  }

  /** `handle_get_request`. The containment test is the component-wise one
      (see the findings); an existing regular file is read, anything else is
      not found. */
  function HandleGet(store: Store, path: string): (r: Http.Reply)
    ensures r.status in {200, 403, 404, 500}
    ensures r.status == 403 <==> !Paths.Inside(Paths.NormComponents(LStripChar(path, '/')))
    ensures r.status == 200 <==>
      r.status != 403 && Paths.NormPath(GetTarget(path)) in store && store[Paths.NormPath(GetTarget(path))].Regular?
    ensures r.status == 200 ==>
      && r.content == store[Paths.NormPath(GetTarget(path))].bytes
      && r.headers == [("Content-Type", "text/plain"), ("Content-Length", Decimal.ShowNat(|r.content|))]
    ensures r.status == 404 <==>
      r.status != 403 && (Paths.NormPath(GetTarget(path)) !in store || store[Paths.NormPath(GetTarget(path))].Directory?)
    ensures r.status == 500 <==>
      r.status != 403 && Paths.NormPath(GetTarget(path)) in store && store[Paths.NormPath(GetTarget(path))].Unreadable?
    ensures r.status == 404 ==> r == Plain(404, NotFound)
    ensures r.status == 403 ==> r == Plain(403, Forbidden)
  {
    var rel := LStripChar(path, '/');
    var key := Paths.NormPath(Paths.JoinStatic(rel));
    Paths.WithinMeansInside(rel);
    Paths.NormPathStaticDir();
    if !Paths.Within(key, Paths.NormPath(Paths.StaticDir)) then Plain(403, Forbidden)
    else if key in store && !store[key].Directory? then
      match store[key]
      case Regular(content) =>
        Http.Reply(200, [("Content-Type", "text/plain"), ("Content-Length", Decimal.ShowNat(|content|))], content)
      case Unreadable(error) => Plain(500, Utf8.Encode(ReadError + error))
    else Plain(404, NotFound)
  }

  /** Text mode on the server's platform writes each line feed as CR LF. */
  function CrLfLines(s: string): (r: string)
    ensures forall i :: 0 <= i < |r| && r[i] == '\n' ==> i > 0 && r[i - 1] == '\r'
    ensures |r| == |s| + LineFeeds(s)
  {
    if s == [] then []
    else if s[0] == '\n' then "\r\n" + CrLfLines(s[1..])
    else [s[0]] + CrLfLines(s[1..])
  }

  /** The number of line feeds in `s`. */
  function LineFeeds(s: string): nat
  {
    if s == [] then 0 else (if s[0] == '\n' then 1 else 0) + LineFeeds(s[1..])
  }

  /** CR LF turned back into LF, every other character kept. */
  function DropCr(r: string): string
  {
    if r == [] then []
    else if |r| >= 2 && r[0] == '\r' && r[1] == '\n' then "\n" + DropCr(r[2..])
    else [r[0]] + DropCr(r[1..])
  }

  /** The translation loses nothing: turning each CR LF it wrote back into LF
      gives the text that was written, including any CR the text held. */
  lemma {:induction false} CrLfLinesUndone(s: string)
    ensures DropCr(CrLfLines(s)) == s
  {
    if s != [] {
      var rest := CrLfLines(s[1..]);
      CrLfLinesUndone(s[1..]);
      var r := CrLfLines(s);
      if s[0] == '\n' {
        assert r[2..] == rest;
      } else {
        assert r[1..] == rest;
        assert rest != [] ==> rest[0] != '\n';
      }
    }
  }

  /** The bytes a text-mode write of `s` leaves in the file. */
  function WrittenBytes(s: string): seq<byte>
  {
    Utf8.Encode(CrLfLines(s))
  }

  /** `handle_post_request`: the stripped content is written to a new file
      named `name` in the static directory. */
  function HandlePost(store: Store, content: string, name: string, outcome: WriteOutcome): (r: (Http.Reply, Store))
    ensures r.0.status in {201, 400, 500}
    ensures r.0.status == 400 <==> Strip(content) == []
    ensures r.0.status == 201 <==> Strip(content) != [] && outcome == Written
    ensures r.0.status == 201 ==> r.1 == store[Paths.JoinStatic(name) := Regular(WrittenBytes(Strip(content)))]
    ensures r.0.status == 400 ==> r.1 == store
    ensures r.0.status == 500 ==> r.1 == store - {Paths.JoinStatic(name)}
  {
    var text := Strip(content);
    if text == [] then (Plain(400, EmptyContent), store)
    else
      var file := Paths.JoinStatic(name);
      match outcome
      case Written => (Plain(201, Created), store[file := Regular(WrittenBytes(text))])
      case WriteFailed(error) => (Plain(500, Utf8.Encode(WriteError + error)), store - {file})
      case WroteNothing => (Plain(500, EmptyFile), store - {file})
  }

  /** `Worker.run` for one request: GET and POST go to their handlers, any
      other method gets 405; each branch logs the method, path and status
      once. */
  function Route(store: Store, req: Request, name: string, outcome: WriteOutcome): (r: (Http.Reply, Store, LogEntry))
    ensures r.2 == LogEntry(req.verb, req.path, r.0.status)
    ensures req.verb != "POST" ==> r.1 == store
    ensures req.verb == "GET" ==> r.0 == HandleGet(store, req.path)
    ensures req.verb == "POST" ==> (r.0, r.1) == HandlePost(store, req.content, name, outcome)
    ensures req.verb != "GET" && req.verb != "POST" ==> r.0 == Plain(405, NotAllowed)
  {
    if req.verb == "GET" then
      var reply := HandleGet(store, req.path);
      (reply, store, LogEntry("GET", req.path, reply.status))
    else if req.verb == "POST" then
      var (reply, after) := HandlePost(store, req.content, name, outcome);
      (reply, after, LogEntry("POST", req.path, reply.status))
    else
      (Plain(405, NotAllowed), store, LogEntry(req.verb, req.path, 405))
  }

  /** A plain file name: what the worker generates from the time and a random
      identifier. */
  predicate PlainName(name: string)
  {
    name != "" && name != "." && name != ".." && forall i :: 0 <= i < |name| ==> name[i] != '/'
  }

  /** The GET path of a plain name is the name under the static directory. */
  lemma GetTargetOfName(name: string)
    requires PlainName(name)
    ensures LStripChar("/" + name, '/') == name
    ensures GetTarget("/" + name) == Paths.JoinStatic(name)
  {
    var r := LStripChar("/" + name, '/');
    assert ("/" + name)[0] == '/' && ("/" + name)[1] == name[0] != '/';
    assert |r| == |name|;
    assert r == ("/" + name)[1..] == name;
  }

  /** An upload that was written can be fetched back: a GET of its name
      returns 200 and the bytes the write left. */
  lemma PostThenGet(store: Store, content: string, name: string)
    requires PlainName(name) && Strip(content) != []
    ensures var after := HandlePost(store, content, name, Written).1;
      HandleGet(after, "/" + name) == Http.Reply(200,
        [("Content-Type", "text/plain"), ("Content-Length", Decimal.ShowNat(|WrittenBytes(Strip(content))|))],
        WrittenBytes(Strip(content)))
  {
    var key := Paths.JoinStatic(name);
    var bytes := WrittenBytes(Strip(content));
    var after := HandlePost(store, content, name, Written).1;
    assert after == store[key := Regular(bytes)];
    ContainsOne(name, '/');
    Paths.NormPathOfName(name);
    GetTargetOfName(name);
    Paths.WithinMeansInside(name);
    assert Paths.NormPath(GetTarget("/" + name)) == key;
    var r := HandleGet(after, "/" + name);
    assert r.status == 200;
    assert r.content == bytes;
  }
}
