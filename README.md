# A verified model of a minimal HTTP/1.0 file server

The server (`server.py`) accepts a connection and reads byte chunks until
the request head has ended and the declared body has arrived. It checks
the request line and, for a POST, the body. It admits at most five uploads
at once through a shared counter and hands each request to the next of a
fixed set of worker processes in round-robin order. The worker serves a
file from the `static` directory or stores an upload there, and the front
end serialises the worker's reply as an HTTP/1.0 response.
`request_handler.py` is an alternative handler for the same job. It parses
the request itself, builds a header dictionary and picks a content type
from the file's suffix. It guards uploads with the same limit but answers
429 where the main server answers 503.

The Dafny modules follow that structure:

| module | file | models |
|---|---|---|
| `Text`, `Utf8`, `Decimal` | text.dfy, utf8.dfy, decimal.dfy | the Python built-ins the code relies on: `split`, `split(sep, 1)`, `strip`, `lstrip`, ASCII `lower`, `in`, strict UTF-8 `encode`/`decode`, `int(bytes)` and `str(n)` |
| `Paths` | paths.dfy | `os.path.join`, posix `os.path.normpath`, the containment test, `PurePath.suffix` and `.name` |
| `Framing` | framing.dfy | the read loop of `_process_request_wrapper` and its `Content-Length` lookup |
| `Intake` | intake.dfy | the request-line and body checks that answer 400 |
| `Admission` | admission.dfy | the shared POST counter (a class), plus a trace model of interleaved connections |
| `Dispatch` | dispatch.dfy | `get_next_worker` (a class with the round-robin index) |
| `Http` | http.dfy | the reason table and the response serialiser |
| `Worker` | worker.dfy | `Worker.handle_get_request`, `handle_post_request` and the routing in `run` |
| `Server` | server.py's `HTTPServer`, in server.dfy | one connection from its first byte to its reply, as a class that owns the counter, the dispatcher and the file store |
| `Handler` | request_handler.dfy | `RequestHandler`: parsing, GET, POST with admission, and dispatch |

Several things are inputs to the model rather than modelled:

- The file system is a map from normalised paths to entries: a regular file with its bytes, a directory, or a file whose read raises.
- A connection is the sequence of chunks `recv` returns.
- The upload file names that come from the clock and `uuid` are inputs.
- How a write ends is an input.
- `Path.resolve` and `urllib.parse.unquote` are functions passed in.

## Model

| member | source | states |
|---|---|---|
| Text.SplitOnce | server.py:217 | `split(sep, 1)` yields two parts exactly when `sep` occurs; they rejoin around `sep` to the input, and no earlier occurrence exists |
| Text.SplitOnceHeadClean | request_handler.py:129 | the part before the first separator holds no separator |
| Text.Split | request_handler.py:131 | the pieces of `split(sep)` rejoin with `sep` to the input and none contains `sep` |
| Text.SplitJoinFree | request_handler.py:132 | splitting a join recovers the pieces when the separator's first element occurs in none of them |
| Text.LStripChar | server.py:42 | `lstrip(c)` removes a prefix made only of `c`, keeps the rest, and leaves no leading `c` |
| Text.Words | server.py:232 | every piece of `split()` is a non-empty run without whitespace |
| Text.WordsLayout | server.py:232 | the text is whitespace runs alternating with the pieces of `split()`, each run between two pieces non-empty: the pieces are the maximal non-whitespace runs |
| Text.WordsKeepText | server.py:232 | the pieces of `split()`, concatenated, are the input with its whitespace removed |
| Text.WordsOfThree | server.py:232 | three words joined by single spaces split back into those three words |
| Text.Lower | request_handler.py:138 | `lower()` keeps the length, leaves no upper-case ASCII letter, and changes a character only by moving an upper-case ASCII letter to its lower case |
| Utf8.DecodeEncode | request_handler.py:128 | decoding the UTF-8 encoding of any text gives the text back |
| Utf8.EncodeDecode | server.py:241 | bytes that decode are the encoding of what they decode to |
| Utf8.EncodeAppend | request_handler.py:78-79 | encoding distributes over concatenation |
| Decimal.IntOfShowNat | server.py:221 | `int()` of the decimal text of `n` is `n` |
| Decimal.IntOfSpaced | server.py:221 | `int()` after `strip()` reads `n` back from the value of a `Content-Length: n` line |
| Paths.WithinMeansInside | server.py:42-43 | the component-wise containment test accepts a GET path exactly when its normalised components stay in `static` |
| Paths.PrefixTestEscapes | server.py:43 | the string-prefix test as written accepts `../static2`, which leaves `static` |
| Paths.SiblingPassesPrefixTest | request_handler.py:35 | for any root, the string-prefix test accepts a sibling whose name extends the root's, and the component-wise test rejects it |
| Paths.NormPathStaticDir | server.py:43 | `normpath('static')` is `static` |
| Paths.NormPathOfName | server.py:86 | a plain file name joined onto `static` is already normal and is inside `static` |
| Paths.Suffix | request_handler.py:71-75 | a non-empty suffix starts at the name's last dot, is not the whole name and ends it |
| Framing.FirstLengthLine | server.py:219-222 | the index found is that of a `content-length:` line and no earlier line is one; none means no line is |
| Framing.LengthValueSplit | server.py:221 | on a length line, `split(b':', 1)` splits at the colon ending `content-length` |
| Framing.ReadContentLength | server.py:218-222 | the header loop finds the field of the first length line only |
| Framing.NoLengthInLine | server.py:219-223 | a head of one line that cannot start `content-length:` declares no length |
| Framing.ThreeLines | server.py:219 | a three-line head splits at its line breaks into its three lines |
| Framing.TypedHeadDeclaresLength | request_handler.py:78 | a head of a status line, a content type and `Content-Length: n` declares `n` to the server's own framing rules |
| Framing.OkHeadDeclaresLength | request_handler.py:78 | the head of a successful GET reply declares the length it carries |
| Framing.ReadRequest | server.py:210-224 | the read loop returns exactly what the framing function prescribes |
| Framing.FrameIsShaped | server.py:210-224 | the bytes returned are the chunks consumed, in order; the loop stops at an empty chunk or a complete request, or once the length check raises, and not before |
| Framing.OneChunk | server.py:211-224 | a request complete in its first chunk is framed after that chunk |
| Intake.Check | server.py:226-250 | no bytes means no reply; "Invalid request format" exactly when the head does not decode or its request line is not three words; for a POST, "Missing or invalid request body" exactly when there is no blank line or the body does not decode, and "Empty request body" exactly when the body is only whitespace; an accepted request's method and path are the request line's first two words; an accepted POST's body is the decoding of the bytes after the first blank line |
| Intake.SplitAfterLine | server.py:241 | after a line without carriage returns, the first blank line is the one that follows it |
| Intake.CheckRefusesLine | server.py:229-236 | a request line without line breaks or edge whitespace that is not three words is refused as malformed, whatever the body |
| Intake.CheckRefusesBlankBody | server.py:246-250 | a well-formed POST whose body is only whitespace is refused as empty |
| Intake.CheckReadsRequest | server.py:229-250 | a three-word request line, a blank line and a body are read back as method, path and (for a POST with a non-blank body) body |
| Admission.PostCounter.constructor | server.py:178 | the counter starts at zero |
| Admission.PostCounter.TryAcquire | server.py:254-264 | a POST is admitted exactly when fewer than five are active; only then does the counter grow, by one, and the bound is kept; the new counter and verdict are those of one test-and-increment |
| Admission.StepsAreCounterMethods | server.py:252-273 | in the trace model an arrival changes the counter as the test-and-increment does and takes a slot exactly when admitted; the finish of a slot holder is the decrement, and the finish of any other request leaves the counter alone |
| Admission.PostCounter.Release | server.py:269-272 | the release of a held slot lowers the counter by one and keeps it within 0..5 |
| Admission.ReplayKeepsBound | server.py:252-273 | over any interleaving of admissions and releases, the counter equals the number of slot holders and stays within 0..5 |
| Admission.AdmitThenFinish | server.py:263-272 | an admitted request that finishes leaves the counter and the holders as they were |
| Admission.BurstAdmitsLimit | server.py:254-265 | of n simultaneous POSTs, min(n, 5) are admitted and the rest rejected |
| Dispatch.Advance | server.py:202 | the next index is the old one plus one, modulo the worker count, and stays below it |
| Dispatch.AtWithinLap | server.py:202 | within one lap the k-th index is the start plus k, wrapped once |
| Dispatch.RoundAt | server.py:199-203 | the i-th worker handed out is the start advanced i times |
| Dispatch.RoundSplit | server.py:199-203 | a run of a + b calls is a run of a calls followed by b calls from where it left off |
| Dispatch.RoundPrefix | server.py:199-203 | the first j of k calls are the run of j calls |
| Dispatch.LapCoversEachOnce | server.py:199-203 | n consecutive calls visit every one of the n workers exactly once |
| Dispatch.WindowIsLap | server.py:199-203 | any n consecutive picks from a fresh dispatcher cover every worker exactly once |
| Dispatch.RoundRobin.constructor | server.py:183 | the index starts at zero with nothing handed out |
| Dispatch.RoundRobin.NextWorker | server.py:199-203 | returns the old index, which is below the worker count, and advances it modulo that count; with no workers it fails and changes nothing |
| Http.Reason | server.py:299-309 | the phrase is "Unknown" exactly for codes outside the table; phrases are letters and spaces |
| Http.Serialize | server.py:310-317 | the `+=` loop produces exactly the wire form |
| Http.HeadTextLines | server.py:310-315 | the status line and the header lines, each ended by CR LF, are the head lines joined by CR LF |
| Http.HeadLinesBreaks | server.py:310-315 | with clean headers every CR in the head starts a lone CR LF, and the head is ASCII |
| Http.NoBlankLineBefore | server.py:315 | no blank line starts inside a head whose breaks are lone |
| Http.WireSplitsAtBlankLine | server.py:310-317 | a client splitting the response at its first blank line gets the head lines and exactly the body |
| Worker.HandleGet | server.py:39-72 | 403 exactly when the normalised path leaves `static`; 200 exactly for a readable regular file, with its bytes and a Content-Length equal to their count; 404 exactly for a missing path or a directory; 500 exactly for a file whose read raises |
| Worker.CrLfLines | server.py:91-93 | every line feed a text-mode write leaves is preceded by a carriage return, and the text grows by one character per line feed |
| Worker.CrLfLinesUndone | server.py:91-93 | turning each CR LF the write produced back into LF gives exactly the text written |
| Worker.HandlePost | server.py:74-116 | 400 exactly for blank content, with the files unchanged; 201 exactly when the write succeeds, storing the stripped content; a failed write removes the file |
| Worker.Route | server.py:139-150 | GET and POST go to their handlers, anything else gets 405; one log record with method, path and status; only a POST touches the files |
| Worker.GetTargetOfName | server.py:42 | a GET of `/name` reads `static/name` |
| Worker.PostThenGet | server.py:39-116 | a written upload is served back by a GET of its name, with status 200 and the bytes written |
| Server.Front | server.py:208-236 | an exception while framing gives the bare 500 reply; no reply exactly when no bytes arrived |
| Server.Admit | server.py:252-265 | a POST is refused with 503 exactly when the counter is at the limit; every other accepted request is forwarded, and only a POST holds a slot |
| Server.Deliver | server.py:284-326 | at most one log record; a reply unless the connection was closed silently; a record exactly when a worker was reached; only a forwarded POST changes the files |
| Server.HttpServer.constructor | server.py:171-197 | counter at zero, dispatcher fresh with the given worker count, files as given, empty log |
| Server.Receive | server.py:208-250 | the bytes read are framed and checked exactly as the front-end function prescribes |
| Server.HttpServer.Begin | server.py:252-265 | admission of a checked request: the pending state is the one admission prescribes for the counter as it was, and the counter grows by one only for a forwarded POST |
| Server.HttpServer.Complete | server.py:267-273 | the second phase: the reply, the new files and the log records are those the request's delivery prescribes; the slot of a POST is released; the dispatcher advances once per forwarded request |
| Server.HttpServer.Forward | server.py:284-326 | the reply, the new files and the log record are those delivery to the next worker prescribes; the dispatcher issues exactly one index when there are workers |
| Server.HttpServer.HandleConnection | server.py:208-282 | one connection does what the serving function prescribes and leaves the counter as it found it |
| Server.FramedAtOnce | server.py:210-224 | a first line that cannot be a `content-length` line, a blank line and a body, sent in one chunk, are framed after that chunk |
| Server.FrontOneChunk | server.py:208-250 | such a GET or POST request is accepted with its method, path and body |
| Server.ServeOneChunk | server.py:208-326 | such a request gets the serialised reply of the worker's routing, or 503 for a POST when the counter is full |
| Server.BusyPostLeavesNoTrace | server.py:253-261 | a POST refused at the limit changes no file and writes no log record |
| Server.ServeEffects | server.py:139-150 | only an admitted POST that reached a worker changes the files, and a log record always carries the status of the reply sent |
| Handler.Sections | request_handler.py:129 | the head is everything before the first blank line and the body everything after it; with no blank line, the whole text and an empty body |
| Handler.SectionsAfterLine | request_handler.py:129 | after a line without carriage returns, the sections are that line and the rest |
| Handler.HeaderMapKeys | request_handler.py:134-138 | a key is in the dictionary exactly when some header line names it |
| Handler.HeaderMapLastWins | request_handler.py:134-138 | a key maps to the value of the last line that names it |
| Handler.ParseRequest | request_handler.py:125-148 | a parse succeeds exactly when the bytes are valid UTF-8 and the request line splits on ' ' into three parts; then the method and path are the first two parts, the headers are the dictionary of the remaining head lines and the body is the text after the first blank line (empty without one) |
| Handler.SplitSpaced | request_handler.py:132 | three space-free parts joined by single spaces split on ' ' into exactly those three |
| Handler.ParseRefusesLine | request_handler.py:131-132 | a request line that does not split on ' ' into three parts makes the parse fail, whatever the body |
| Handler.ParseReadsRequest | request_handler.py:125-148 | a request line of three parts, a blank line and a body parse back to that method, path and body, with no headers |
| Handler.RequestHandler.constructor | request_handler.py:8-13 | the handler shares the counter it is given |
| Handler.RequestHandler.ParseHttpRequest | request_handler.py:125-148 | the header loop builds the dictionary the parse prescribes |
| Handler.MediaType | request_handler.py:70-76 | `text/html` exactly for `.html`, `image/jpeg` exactly for `.jpg` or `.jpeg`, `image/png` exactly for `.png`, `text/plain` for all other suffixes |
| Handler.SuffixOfName | request_handler.py:71-75 | the suffix of `stem + ext` is `ext` when `ext` is a dot followed by at least one character and no other dot |
| Handler.ContentTypeOfName | request_handler.py:70-76 | a plain file name picks its content type by its extension |
| Handler.GetReply | request_handler.py:55-84 | 403 exactly when the resolved path leaves the resolved root; 404 exactly when it is inside but absent; 200 exactly for a regular file, with its bytes after the typed head; 500 otherwise |
| Handler.OkReplyDeclaresLength | request_handler.py:78-79 | the 200 reply is the head, a blank line and the content, and the head's Content-Length is the content's length |
| Handler.UploadName | request_handler.py:28-30 | the upload name is never empty and never starts with '/'; it is the stripped path whenever that is non-empty |
| Handler.Upload | request_handler.py:26-49 | 403 exactly when the target leaves the root; 200 exactly when the target is inside, is neither the root itself nor a directory, and the write succeeds, storing the encoded body under the target and naming it in the reply; any failure leaves the files unchanged |
| Handler.UploadThenGet | request_handler.py:26-84 | an upload that was saved is served back by a GET of its name, typed by its suffix |
| Handler.Route | request_handler.py:102-108 | GET and POST go to their handlers; 405 exactly for other methods; 429 exactly for a POST at the limit; only a POST that was admitted touches the files |
| Handler.Handle | request_handler.py:86-114 | nothing is sent exactly when the read is empty or the request does not parse; otherwise the routed reply is sent |
| Handler.RequestHandler.HandlePost | request_handler.py:15-53 | at the limit: 429 with the counter and the files unchanged; otherwise the upload runs, and the slot is given back on every outcome, so the counter ends where it began |
| Handler.RequestHandler.HandleRequest | request_handler.py:86-123 | one request does what the handling function prescribes and leaves the counter as it found it |

## Left out

- Sockets, `recv`/`send`/`close` and the accept loop are not modelled. A connection is a sequence of chunks and the reply is the byte sequence returned.
- Worker processes and pipes are not modelled: the worker's routing is called directly. The worker's `run` loop, its `poll`, its `shutdown` message and its catch-all 500 reply to the pipe are left out.
- Locks are not modelled: the posts lock, the log lock, `threading.Lock()` in `get_next_worker` and the `msvcrt` locking in `FileLocker`. The counter is sequential, and the interleaving of many connections appears only in the `Admission.Replay` trace model.
- `time.sleep`, `datetime.now` and `uuid.uuid4` become inputs: the upload name, and the clock value for `request_handler.py`.
- Log file writes and `print` are left out. Each routed request yields one ghost log record. `HTTPServer.log_request` is never called and is not modelled.
- Real file I/O, `fsync` and file sizes are left out; the file system is a map.
- Worker.HandlePost: an empty file after the write, or a failed write, is modelled as removing the file. The cleanup's own failures are not modelled.
- Handler.Upload: a write that raises leaves the files unchanged. A file truncated by `open(..., 'wb')` before the failure is not modelled.
- Worker.HandleGet: the existence test `os.path.exists`/`isfile` is made on the normalised path, not on the joined path before normalisation; a path that only the operating system's lookup rejects (`/a.txt/` naming a file, `/missing/../a.txt` through a missing directory) is served from the normalised key where the server answers 404.
- Paths.NormPath: follows posix `os.path`, where only '/' separates and there are no drive letters; on the Windows platform implied by `msvcrt`, `ntpath` also splits at backslashes and treats `C:` as a root.
- Worker.HandleGet: because of the posix paths, a GET such as `/..\secret.txt` or `/C:/x` is refused with 403 by the server on Windows and not by the model.
- Worker.HandleGet: the containment test is the component-wise one of `Paths.Within`, not the string-prefix test as written; a sibling such as `static2` gets 403 in the model, while the server lets it through (see "## Findings").
- Handler.GetReply: the containment test is the component-wise one, not the string-prefix test as written; a sibling such as `static2` gets 403 in the model, while the handler lets it through (see "## Findings").
- Handler.Upload: the containment test is the component-wise one, not the string-prefix test as written; a sibling such as `static2` gets 403 in the model, while the handler lets it through (see "## Findings").
- Dispatch.RoundRobin.NextWorker: `with threading.Lock():` builds a new lock on every call, so it excludes no other thread; two connections can read the same `current_worker` and go to the same worker. The model is sequential and does not show this.
- Handler.GetReply: `Path.resolve` is an input function, so symlinks and the working directory are whatever that function says.
- Handler.GetReply: `file_path.exists()` is checked on the resolved path, not on the path before resolution. `urllib.parse.unquote` is an input function.
- `str.lower()` is modelled on ASCII letters only. The `int()` limit of 4300 digits is not modelled.
- Text mode is modelled as UTF-8 with CR LF line endings, the platform the `msvcrt` import implies. Other locale encodings are not modelled.
- `recv(1024)` in `request_handler.py` is not modelled: the handler receives the bytes of one read, already cut to size.
- Where the two disagree, the model follows the code. The unparsable-request rule is one example: the handler closes the connection without a reply, although a reply to every request was the stated design. Likewise the 429 (handler) versus 503 (server) split is kept as written.
- Exceptions the code cannot raise on the modelled inputs are not modelled, for example from a failing `send`. The outer 500 reply appears only where framing raises (`int()` of a malformed length) or no worker exists (`% 0`).

## Findings

The handlers in the model use the component-wise containment test
(`Paths.Within`, and `Paths.Inside` on normalised components). The string-prefix
test as written is kept as `Paths.WithinAsWritten` only to exhibit the escape.

Not modelled: the round-robin choice at server.py:199-203 takes a lock made
afresh on every call, so concurrent connections can read the same index and
land on the same worker; the model's dispatcher is sequential (see
"## Left out").

| source | as written | input that shows it | evidently intended | confidence | as-written member | corrected member |
|---|---|---|---|---|---|---|
| server.py:43 | containment is `normpath(path).startswith(normpath('static'))`, a plain string prefix | GET `/../static2` normalises to `static2`, which passes the test though it is a sibling of `static` | a path is inside `static` only if it is `static` or starts with `static/` | high (not executed) | Paths.PrefixTestEscapes | Paths.WithinMeansInside |
| request_handler.py:35 | the same string-prefix test on resolved paths, in the POST and GET handlers (also line 61) | a GET or POST of `/../static2/x` resolves to a path under a sibling `static2` and passes | a resolved path must equal the resolved root or lie below it as whole components | high (not executed) | Paths.SiblingPassesPrefixTest | Handler.GetReply |
