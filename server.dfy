/**
 * The server front end (`HTTPServer` in server.py): one connection is read
 * and checked, a POST is admitted against the shared counter, the request
 * goes to the next worker in turn, and the worker's reply is serialised and
 * sent back; an admitted POST gives its slot back when it is over.
 *
 * The connection is a script of chunks; the worker's file name and write
 * outcome are inputs. Each connection is read and checked by `Receive`, and
 * then runs in two phases on the shared state, `Begin` (admission) and
 * `Complete` (dispatch, reply and release), so that the phases of several
 * connections can overlap as the thread pool lets them.
 */
module Server {
  import opened Wrappers
  import opened Text
  import Utf8
  import Http
  import Framing
  import Intake
  import Admission
  import Dispatch
  import Worker

  /** The bare reply sent when reading a request raised, or when no worker
      could be chosen. */
  const ServerError: seq<byte> := Utf8.Bytes("HTTP/1.0 500 Internal Server Error\r\n\r\n")

  /** The reply to a POST that finds every slot taken. */
  const Busy: seq<byte> :=
    Utf8.Bytes("HTTP/1.0 503 Service Unavailable\r\nContent-Type: text/plain\r\n\r\nServer is ")
    + Utf8.Bytes("handling maximum number of concurrent POST requests")

  /** What the front end makes of the bytes a connection sent: a framing
      failure is answered with the bare 500 reply, anything else goes through
      the request-line and body checks. */
  function Front(conn: seq<seq<byte>>): (v: Intake.Verdict)
    ensures Framing.Frame(conn).Broken? ==> v == Intake.Refused(ServerError)
    ensures v.Silent? <==> Framing.Frame(conn) == Framing.Received([], Framing.Frame(conn).used)
  {
    match Framing.Frame(conn)
    case Broken(_) => Intake.Refused(ServerError)
    case Received(data, _) => Intake.Check(data)
  }

  /** A connection after its first phase: closed without a reply, answered
      already, or forwarded to a worker, with the flag that says whether it
      holds a POST slot. */
  datatype Pending =
    | Closed
    | Answered(bytes: seq<byte>)
    | Forwarded(verb: string, path: string, body: string, post: bool)

  /** Admission: a POST is turned away with 503 when `busy` (the counter is
      at the limit); every other accepted request goes on, and only a POST
      takes a slot. */
  function Admit(v: Intake.Verdict, busy: bool): (p: Pending)
    ensures p.Closed? <==> v.Silent?
    ensures p.Forwarded? <==> v.Accepted? && !(v.verb == "POST" && busy)
    ensures p.Forwarded? ==> p.verb == v.verb && p.path == v.path && p.body == v.body && (p.post <==> p.verb == "POST")
    ensures p.Answered? ==> (v.Refused? && p.bytes == v.reply) || (v.Accepted? && v.verb == "POST" && busy && p.bytes == Busy)
  {
    match v
    case Silent => Closed
    case Refused(bytes) => Answered(bytes)
    case Accepted(verb, path, body) =>
      if verb == "POST" && busy then Answered(Busy)
      else Forwarded(verb, path, body, verb == "POST")
  }

  /** What a connection leaves behind: the bytes sent (if any), the file
      system, and the log records written. */
  datatype Served = Served(sent: Option<seq<byte>>, store: Worker.Store, logged: seq<Worker.LogEntry>)

  /** The second phase: with no workers the choice of worker raises and the
      bare 500 reply goes out; otherwise the worker routes the request and
      its reply is serialised. */
  function Deliver(store: Worker.Store, p: Pending, workers: nat, name: string, outcome: Worker.WriteOutcome): (s: Served)
    ensures |s.logged| <= 1
    ensures s.sent.None? <==> p.Closed?
    ensures s.logged != [] <==> p.Forwarded? && workers > 0
    ensures !(p.Forwarded? && p.verb == "POST") ==> s.store == store
  {
    match p
    case Closed => Served(None, store, [])
    case Answered(bytes) => Served(Some(bytes), store, [])
    case Forwarded(verb, path, body, _) =>
      if workers == 0 then Served(Some(ServerError), store, [])
      else
        var (reply, after, entry) := Worker.Route(store, Worker.Request(verb, path, body), name, outcome);
        Served(Some(Http.Wire(reply)), after, [entry])
  }

  /** One connection from start to end, with the counter at `busy` when it
      is admitted. */
  function Serve(store: Worker.Store, conn: seq<seq<byte>>, busy: bool, workers: nat, name: string, outcome: Worker.WriteOutcome): Served
  {
    Deliver(store, Admit(Front(conn), busy), workers, name, outcome)
  }

  /** `_process_request_wrapper` up to the checks: read the request until it
      is complete and check it; a read that raises is answered with the bare
      500 reply. */
  method Receive(conn: seq<seq<byte>>) returns (v: Intake.Verdict)
    ensures v == Front(conn)
  {
    var framed := Framing.ReadRequest(conn);
    v := if framed.Broken? then Intake.Refused(ServerError) else Intake.Check(framed.data);
  }

  /** The server: the shared POST counter, the dispatcher over the worker
      processes, the file system the workers share, and the log they write. */
  class HttpServer {
    const posts: Admission.PostCounter
    const dispatcher: Dispatch.RoundRobin
    var store: Worker.Store
    ghost var log: seq<Worker.LogEntry>

    ghost predicate Valid()
      reads this, posts, dispatcher
    {
      posts.Valid() && dispatcher.Valid()
    }

    /** `num_workers` worker processes, no POST in progress, nothing logged. */
    constructor (numWorkers: nat, files: Worker.Store)
      ensures Valid() && fresh(posts) && fresh(dispatcher)
      ensures posts.active == 0 && dispatcher.workers == numWorkers && dispatcher.issued == []
      ensures store == files && log == []
    {
      posts := new Admission.PostCounter();
      dispatcher := new Dispatch.RoundRobin(numWorkers);
      store := files;
      log := [];
    }

    /** `_process_request_wrapper` after the checks: a POST tests the counter
        and raises it when a slot is free. */
    method Begin(v: Intake.Verdict) returns (p: Pending)
      requires Valid()
      modifies posts
      ensures Valid()
      ensures p == Admit(v, old(posts.active) >= Admission.PostLimit)
      ensures posts.active == if p.Forwarded? && p.post then old(posts.active) + 1 else old(posts.active)
    {
      match v
      case Silent => p := Closed;
      case Refused(bytes) => p := Answered(bytes);
      case Accepted(verb, path, body) =>
        if verb == "POST" {
          var admitted := posts.TryAcquire();
          if admitted {
            p := Forwarded(verb, path, body, true);
          } else {
            p := Answered(Busy);
          }
        } else {
          p := Forwarded(verb, path, body, false);
        }
    }

    /** `_process_request` and the `finally` after it: hand the request to
        the next worker, send the serialised reply, and give back the POST
        slot. */
    method Complete(p: Pending, name: string, outcome: Worker.WriteOutcome) returns (sent: Option<seq<byte>>)
      requires Valid()
      requires p.Forwarded? && p.post ==> posts.active > 0
      modifies this, posts, dispatcher
      ensures Valid()
      ensures |old(log)| <= |log| && log[..|old(log)|] == old(log)
      ensures Served(sent, store, log[|old(log)|..]) == Deliver(old(store), p, dispatcher.workers, name, outcome)
      ensures posts.active == if p.Forwarded? && p.post then old(posts.active) - 1 else old(posts.active)
      ensures p.Forwarded? && dispatcher.workers > 0 ==> dispatcher.issued == old(dispatcher.issued) + [old(dispatcher.current)]
      ensures !(p.Forwarded? && dispatcher.workers > 0) ==> dispatcher.issued == old(dispatcher.issued)
    {
      match p
      case Closed =>
        sent := None;
      case Answered(bytes) =>
        sent := Some(bytes);
      case Forwarded(_, _, _, post) =>
        var bytes := Forward(p, name, outcome);
        sent := Some(bytes);
        if post {
          posts.Release();
        }
    }

    /** `_process_request`: the next worker routes the request and its reply
        is serialised; with no workers the choice raises and the bare 500
        reply goes out. */
    method Forward(p: Pending, name: string, outcome: Worker.WriteOutcome) returns (sent: seq<byte>)
      requires Valid() && p.Forwarded?
      modifies this, dispatcher
      ensures Valid()
      ensures |old(log)| <= |log| && log[..|old(log)|] == old(log)
      ensures Served(Some(sent), store, log[|old(log)|..]) == Deliver(old(store), p, dispatcher.workers, name, outcome)
      ensures dispatcher.workers > 0 ==> dispatcher.issued == old(dispatcher.issued) + [old(dispatcher.current)]
      ensures dispatcher.workers == 0 ==> dispatcher.issued == old(dispatcher.issued)
    {
      var index := dispatcher.NextWorker();
      if index.None? {
        sent := ServerError;
      } else {
        var (reply, after, entry) := Worker.Route(store, Worker.Request(p.verb, p.path, p.body), name, outcome);
        sent := Http.Serialize(reply);
        store := after;
        log := log + [entry];
      }
    }

    /** One connection handled from start to end without another overlapping
        it: the counter ends where it began. */
    method HandleConnection(conn: seq<seq<byte>>, name: string, outcome: Worker.WriteOutcome) returns (sent: Option<seq<byte>>)
      requires Valid()
      modifies this, posts, dispatcher
      ensures Valid()
      ensures |old(log)| <= |log| && log[..|old(log)|] == old(log)
      ensures Served(sent, store, log[|old(log)|..])
           == Serve(old(store), conn, old(posts.active) >= Admission.PostLimit, dispatcher.workers, name, outcome)
      ensures posts.active == old(posts.active)
    {
      ghost var before := store;
      ghost var busy := posts.active >= Admission.PostLimit;
      var v := Receive(conn);
      var p := Begin(v);
      sent := Complete(p, name, outcome);
      ServeInPhases(before, conn, busy, dispatcher.workers, name, outcome, p, Served(sent, store, log[|old(log)|..]));
    }
  }

  /** The two phases of a connection compose to the whole of it. */
  lemma ServeInPhases(store: Worker.Store, conn: seq<seq<byte>>, busy: bool, workers: nat, name: string,
                      outcome: Worker.WriteOutcome, p: Pending, s: Served)
    requires p == Admit(Front(conn), busy)
    requires s == Deliver(store, p, workers, name, outcome)
    ensures s == Serve(store, conn, busy, workers, name, outcome)
  {
  }

  /** A request line followed by a blank line, with no `Content-Length`
      header because the line does not start with `c` or `C`, is complete in
      one chunk. */
  lemma FramedAtOnce(line: string, body: string)
    requires line != [] && line[0] != 'c' && line[0] != 'C'
    requires forall i :: 0 <= i < |line| ==> line[i] != '\r'
    ensures var data := Utf8.Encode(line) + Http.BlankLine + Utf8.Encode(body);
      Framing.Frame([data]) == Framing.Received(data, 1)
  {
    var head := Utf8.Encode(line);
    var data := head + Http.BlankLine + Utf8.Encode(body);
    Intake.SplitAfterLine(line, body);
    Utf8.EncodeAvoids(line, 13);
    assert head[..|Utf8.EncodeChar(line[0])|] == Utf8.EncodeChar(line[0]);
    assert LowerByte(head[0]) != Framing.LengthPrefix[0];
    Framing.NoLengthInLine(head);
    assert Framing.Check(data) == Framing.Done;
    Framing.OneChunk([data]);
  }

  /** A request sent in one chunk, with a request line of three words whose
      method is GET or POST and no `Content-Length` header, is framed after
      that chunk and accepted with its method, path and (for a POST) body. */
  lemma FrontOneChunk(m: string, p: string, version: string, body: string)
    requires m == "GET" || m == "POST"
    requires IsWord(p) && IsWord(version)
    requires m == "POST" ==> Strip(body) != []
    ensures Front([Utf8.Encode(m + " " + p + " " + version) + Http.BlankLine + Utf8.Encode(body)])
         == Intake.Accepted(m, p, if m == "POST" then body else "")
  {
    KnownMethod(m);
    FrontOfRequest(m, p, version, body);
  }

  /** The same for any method word that does not start with `c`. */
  lemma FrontOfRequest(m: string, p: string, version: string, body: string)
    requires IsWord(m) && m[0] != 'c' && m[0] != 'C'
    requires IsWord(p) && IsWord(version)
    requires m == "POST" ==> Strip(body) != []
    ensures Front([Utf8.Encode(m + " " + p + " " + version) + Http.BlankLine + Utf8.Encode(body)])
         == Intake.Accepted(m, p, if m == "POST" then body else "")
  {
    var line := m + " " + p + " " + version;
    var data := Utf8.Encode(line) + Http.BlankLine + Utf8.Encode(body);
    assert line[0] == m[0];
    FramedAtOnce(line, body);
    Intake.CheckReadsRequest(m, p, version, body);
    FrontOfFrame([data], data, 1);
  }

  /** GET and POST are words that do not start with `c`. */
  lemma KnownMethod(m: string)
    requires m == "GET" || m == "POST"
    ensures IsWord(m) && m[0] != 'c' && m[0] != 'C'
  {
  }

  /** Once framing has produced the request bytes, the front end's verdict
      is the checks' verdict on them. */
  lemma FrontOfFrame(conn: seq<seq<byte>>, data: seq<byte>, used: nat)
    requires Framing.Frame(conn) == Framing.Received(data, used)
    ensures Front(conn) == Intake.Check(data)
  {
  }

  /** Such a request reaches a worker and its reply comes back serialised,
      unless it is a POST that finds every slot taken. */
  lemma ServeOneChunk(store: Worker.Store, m: string, p: string, version: string, body: string,
                      busy: bool, workers: nat, name: string, outcome: Worker.WriteOutcome)
    requires m == "GET" || m == "POST"
    requires IsWord(p) && IsWord(version)
    requires m == "POST" ==> Strip(body) != []
    requires workers > 0
    ensures var conn := [Utf8.Encode(m + " " + p + " " + version) + Http.BlankLine + Utf8.Encode(body)];
      var req := Worker.Request(m, p, if m == "POST" then body else "");
      var routed := Worker.Route(store, req, name, outcome);
      Serve(store, conn, busy, workers, name, outcome)
        == if m == "POST" && busy then Served(Some(Busy), store, [])
           else Served(Some(Http.Wire(routed.0)), routed.1, [routed.2])
  {
    FrontOneChunk(m, p, version, body);
  }

  /** A POST turned away for lack of a slot changes nothing and is not
      logged; the worker never sees it. */
  lemma BusyPostLeavesNoTrace(store: Worker.Store, conn: seq<seq<byte>>, workers: nat, name: string, outcome: Worker.WriteOutcome)
    requires Front(conn).Accepted? && Front(conn).verb == "POST"
    ensures Serve(store, conn, true, workers, name, outcome) == Served(Some(Busy), store, [])
  {
  }

  /** Only a POST that a worker handled can change the file system, and
      every request a worker handled is logged once with the status it was
      answered with. */
  lemma ServeEffects(store: Worker.Store, conn: seq<seq<byte>>, busy: bool, workers: nat, name: string, outcome: Worker.WriteOutcome)
    ensures var s := Serve(store, conn, busy, workers, name, outcome);
      && (s.store != store ==> Front(conn).Accepted? && Front(conn).verb == "POST" && !busy && workers > 0)
      && (s.logged != [] ==> exists reply: Http.Reply ::
            s.sent == Some(Http.Wire(reply)) && s.logged == [Worker.LogEntry(Front(conn).verb, Front(conn).path, reply.status)])
  {
    var s := Serve(store, conn, busy, workers, name, outcome);
    var v := Front(conn);
    if s.logged != [] {
      var req := Worker.Request(v.verb, v.path, v.body);
      var routed := Worker.Route(store, req, name, outcome);
      assert s.sent == Some(Http.Wire(routed.0));
    }
  }
}
