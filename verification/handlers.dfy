/**
 * Request dispatch of app/handlers.py: `handle_request` as a pure function
 * of the received text, the served directory and the file system, to the
 * reply it sends and the file system afterwards.
 */
module Handlers {
  import opened Base
  import opened Seqs
  import opened Text
  import Utf8
  import opened Utils
  import opened Files
  import Framing

  /** `headers.get(name, default)`. */
  function Get(headers: map<string, string>, name: string, default: string): string
  {
    if name in headers then headers[name] else default
  }

  /**
   * The encoding set: the `accept-encoding` value (empty when absent),
   * lower-cased, spaces removed, cut at commas. The set is never empty: an
   * absent header gives {""}. Its members are exactly the comma-free
   * pieces that, joined by commas, give back the normalised value.
   */
  function SupportedEncodings(headers: map<string, string>): (r: set<string>)
    ensures r != {}
    ensures "accept-encoding" !in headers ==> r == {""}
    ensures forall t :: t in r ==> Normalised(t) && ',' !in t
  {
    var tokens := EncodingTokens(headers);
    var r := set k | 0 <= k < |tokens| :: tokens[k];
    assert tokens[0] in r;
    r
  }

  /** The pieces of the lower-cased, space-free `accept-encoding` value, cut at commas. */
  function EncodingTokens(headers: map<string, string>): (r: seq<string>)
    ensures |r| > 0
    ensures "accept-encoding" !in headers ==> r == [""]
    ensures forall k :: 0 <= k < |r| ==> Normalised(r[k]) && ',' !in r[k]
  {
    var lowered := Lower(Get(headers, "accept-encoding", ""));
    var normalised := Without(lowered, ' ');
    var tokens := Split(normalised, ",");
    SeparatorCharAbsent(tokens, ',');
    forall k | 0 <= k < |tokens| ensures Normalised(tokens[k]) {
      PiecesKeepAbsentChars(tokens, ",", tokens[k]);
      forall j | 0 <= j < |tokens[k]| ensures !IsUpper(tokens[k][j]) {
        assert tokens[k][j] in normalised && tokens[k][j] != ' ';
        assert tokens[k][j] in lowered;
      }
    }
    tokens
  }

  /** `pieces` are the comma-free texts that, joined by commas, give `value`. */
  ghost predicate CommaPieces(value: string, pieces: set<string>)
  {
    exists tokens: seq<string> ::
      && Join(tokens, ",") == value
      && (forall k :: 0 <= k < |tokens| ==> ',' !in tokens[k])
      && pieces == set k | 0 <= k < |tokens| :: tokens[k]
  }

  /** An encoding token as normalised: no space, no upper-case letter. */
  predicate Normalised(t: string)
  {
    ' ' !in t && forall k :: 0 <= k < |t| ==> !IsUpper(t[k])
  }

  /**
   * The encoding set is exactly the set of comma-free pieces that, joined
   * by commas, give the lower-cased, space-free `Accept-Encoding` value.
   */
  lemma EncodingsArePieces(headers: map<string, string>)
    ensures CommaPieces(Without(Lower(Get(headers, "accept-encoding", "")), ' '), SupportedEncodings(headers))
  {
    var normalised := Without(Lower(Get(headers, "accept-encoding", "")), ' ');
    var tokens := EncodingTokens(headers);
    assert tokens == Split(normalised, ",");
    assert (set k | 0 <= k < |tokens| :: tokens[k]) == SupportedEncodings(headers);
  }

  /** Pieces cut at a one-character separator do not contain that character. */
  lemma SeparatorCharAbsent(pieces: seq<string>, c: char)
    requires forall k :: 0 <= k < |pieces| ==> !Contains(pieces[k], [c])
    ensures forall k :: 0 <= k < |pieces| ==> c !in pieces[k]
  {
    forall k | 0 <= k < |pieces| ensures c !in pieces[k] {
      if c in pieces[k] {
        var j :| 0 <= j < |pieces[k]| && pieces[k][j] == c;
        assert OccursAt(pieces[k], [c], j);
      }
    }
  }

  /** Each piece of a split is a slice of what was split, so it has no character the whole lacks. */
  lemma PiecesKeepAbsentChars(pieces: seq<string>, sep: string, t: string)
    requires t in pieces
    ensures forall c :: c in t ==> c in Join(pieces, sep)
    decreases |pieces|
  {
    if pieces[0] != t {
      PiecesKeepAbsentChars(pieces[1..], sep, t);
    }
  }

  const EchoPrefix: string := "/echo/"

  /**
   * The text captured by `^/echo/(.+)$`. `.` does not match a newline and
   * `$` also matches just before a final newline, so the capture is the
   * non-empty, newline-free rest of the path, optionally followed by one
   * final newline that is not captured.
   */
  function EchoText(path: string): (r: Option<string>)
    ensures r.Some? ==> r.value != [] && '\n' !in r.value && StartsWith(path, EchoPrefix)
    ensures r.Some? ==> path == EchoPrefix + r.value || path == EchoPrefix + r.value + "\n"
  {
    if !StartsWith(path, EchoPrefix) then None
    else
      var rest := path[|EchoPrefix|..];
      assert path == EchoPrefix + rest;
      if rest != [] && '\n' !in rest then Some(rest)
      else if |rest| >= 2 && rest[|rest| - 1] == '\n' && '\n' !in rest[..|rest| - 1] then
        assert rest == rest[..|rest| - 1] + "\n";
        Some(rest[..|rest| - 1])
      else None
  }

  /** Every non-empty newline-free text is echoed, with or without one final newline after it. */
  lemma EchoTextOf(text: string)
    requires text != [] && '\n' !in text
    ensures EchoText(EchoPrefix + text) == Some(text)
    ensures EchoText(EchoPrefix + text + "\n") == Some(text)
  {
    assert (EchoPrefix + text)[|EchoPrefix|..] == text;
    var rest := (EchoPrefix + text + "\n")[|EchoPrefix|..];
    assert rest == text + "\n" && rest[..|rest| - 1] == text;
  }

  /** The handler `handle_request` picks, in the order its branches are tried. */
  datatype Route =
    | Root              // GET /
    | Echo(text: string) // GET /echo/{text}
    | UserAgent         // GET /user-agent
    | ReadFile          // GET /files/...
    | Missing           // any other GET
    | WriteFile         // POST /files/...
    | NotAllowed        // everything else, including an unparsed request line

  /** The path lies under `/files/` (Python: `path and path.startswith("/files/")`). */
  predicate UnderFiles(path: Option<string>)
  {
    path.Some? && StartsWith(path.value, FilesPrefix)
  }

  /**
   * The routing table of `handle_request`. GET tries `/`, `/echo/...`,
   * `/user-agent`, `/files/...` and falls back to 404; POST is accepted only
   * under `/files/`; every other method, and an absent one, is refused.
   */
  function RouteOf(verb: Option<string>, path: Option<string>): (r: Route)
    ensures r == Root <==> verb == Some("GET") && path == Some("/")
    ensures r.Echo? <==> verb == Some("GET") && EchoText(path.GetOr("")).Some?
    ensures r.Echo? ==> path.Some? && EchoText(path.value) == Some(r.text)
    ensures r == UserAgent <==> verb == Some("GET") && path == Some("/user-agent")
    ensures r == ReadFile <==> verb == Some("GET") && UnderFiles(path)
    ensures r == WriteFile <==> verb == Some("POST") && UnderFiles(path)
    ensures r == NotAllowed <==> verb != Some("GET") && !(verb == Some("POST") && UnderFiles(path))
  {
    assert UnderFiles(path) ==> !StartsWith(path.value, EchoPrefix) by {
      if UnderFiles(path) && |path.value| >= |EchoPrefix| {
        assert path.value[..|EchoPrefix|][1] == path.value[..|FilesPrefix|][1] == 'f';
      }
    }
    assert !StartsWith("/user-agent", EchoPrefix) by {
      assert "/user-agent"[1] != EchoPrefix[1];
    }
    if verb == Some("GET") then
      if path == Some("/") then Root
      else match EchoText(path.GetOr(""))
        case Some(text) => Echo(text)
        case None =>
          if path == Some("/user-agent") then UserAgent
          else if UnderFiles(path) then ReadFile
          else Missing
    else if verb == Some("POST") && UnderFiles(path) then WriteFile
    else NotAllowed
  }

  /** The fixed reply of the catch-all: `format_response("500 ...", "Server Error")`. */
  const ServerError: Reply := Plain(InternalServerError, "Server Error")

  /** The fixed reply for a refused method. */
  const OnlyGetAndPost: Reply := Plain(MethodNotAllowed, "Only GET and POST supported")

  /** A reply whose status line and content type contain no CR, so its framing can be read back. */
  predicate Framable(reply: Reply)
  {
    '\r' !in reply.status.Line() && '\r' !in reply.contentType
  }

  /**
   * `handle_request` after a successful parse: the encoding set is derived
   * once and offered to every GET reply; uploads and refusals are never
   * compressed; only an upload changes the file system, and only an upload
   * can raise.
   */
  function Dispatch(request: Request, data: string, sb: Sandbox, fs: FileSystem): (r: Result<Served>)
    ensures var route := RouteOf(request.verb, request.path);
            && (route != WriteFile ==> r.Ok? && r.value.fs == fs)
            && (route == NotAllowed ==> r.value.reply == OnlyGetAndPost)
            && (route == Root ==> r.value.reply == Reply(OK, Text(""), "text/plain", Some(SupportedEncodings(request.headers))))
            && (route.Echo? ==> r.value.reply == Reply(OK, Text(route.text), "text/plain", Some(SupportedEncodings(request.headers))))
            && (route == UserAgent ==> r.value.reply == Reply(OK, Text(Get(request.headers, "user-agent", "Unknown")), "text/plain", Some(SupportedEncodings(request.headers))))
            && (route == Missing ==> r.value.reply == Reply(NotFound, Text("Not Found"), "text/plain", Some(SupportedEncodings(request.headers))))
            && (route == ReadFile ==> r.value.reply == HandleFileRequest(request.path.value, sb, SupportedEncodings(request.headers), fs))
            && (route == WriteFile ==> r == HandleFileUpload(data, request.path.value, sb, request.headers, fs))
    ensures r.Ok? ==> (r.value.reply.status == MethodNotAllowed <==> RouteOf(request.verb, request.path) == NotAllowed)
    ensures r.Ok? && r.value.reply.encodings.Some? ==> r.value.reply.encodings.value == SupportedEncodings(request.headers)
    ensures r.Ok? ==> r.value.reply != ServerError && Framable(r.value.reply)
  {
    var headers := request.headers;
    var encodings := SupportedEncodings(headers);
    match RouteOf(request.verb, request.path)
    case Root => Ok(Served(Reply(OK, Text(""), "text/plain", Some(encodings)), fs))
    case Echo(text) => Ok(Served(Reply(OK, Text(text), "text/plain", Some(encodings)), fs))
    case UserAgent => Ok(Served(Reply(OK, Text(Get(headers, "user-agent", "Unknown")), "text/plain", Some(encodings)), fs))
    case ReadFile =>
      ReadReply(request.path.value, sb, encodings, fs);
      Ok(Served(HandleFileRequest(request.path.value, sb, encodings, fs), fs))
    case Missing => Ok(Served(Reply(NotFound, Text("Not Found"), "text/plain", Some(encodings)), fs))
    case WriteFile =>
      UploadReply(data, request.path.value, sb, headers, fs);
      HandleFileUpload(data, request.path.value, sb, headers, fs)
    case NotAllowed => Ok(Served(OnlyGetAndPost, fs))
  }

  /** The read handler never refuses the method, offers the given encodings, and is framable. */
  lemma ReadReply(path: string, sb: Sandbox, encodings: set<string>, fs: FileSystem)
    ensures var reply := HandleFileRequest(path, sb, encodings, fs);
            && reply.status != MethodNotAllowed && reply.encodings == Some(encodings)
            && reply != ServerError && Framable(reply)
  {
    var reply := HandleFileRequest(path, sb, encodings, fs);
    assert '\r' !in reply.contentType;
  }

  /** A reply of the upload handler never refuses the method, offers no encodings, and is framable. */
  lemma UploadReply(data: string, path: string, sb: Sandbox, headers: map<string, string>, fs: FileSystem)
    ensures var up := HandleFileUpload(data, path, sb, headers, fs);
            up.Ok? ==>
              && up.value.reply.status != MethodNotAllowed && up.value.reply.encodings.None?
              && up.value.reply != ServerError && Framable(up.value.reply)
  {
    var up := HandleFileUpload(data, path, sb, headers, fs);
    if up.Ok? {
      assert up.value.reply.status == InternalServerError ==> up.value.reply.body == Text("File write error");
    }
  }

  /**
   * The body of `handle_request`'s `try` block on received text: parse,
   * then dispatch. Either step can raise: parsing a request line with more
   * than three fields, or an upload whose open raises.
   */
  function Handled(data: string, sb: Sandbox, fs: FileSystem): (r: Result<Served>)
    ensures r.Raised? <==> ParseRequest(data).Raised? || Dispatch(ParseRequest(data).value, data, sb, fs).Raised?
    ensures r.Raised? ==> r.exception == ValueError
    ensures ParseRequest(data).Ok? ==> r == Dispatch(ParseRequest(data).value, data, sb, fs)
    ensures |Split(RequestLine(data), " ")| < 3 ==> r == Ok(Served(OnlyGetAndPost, fs))
    ensures r.Ok? ==> r.value.reply != ServerError && Framable(r.value.reply)
  {
    match ParseRequest(data)
    case Raised(e) => Raised(e)
    case Ok(request) => Dispatch(request, data, sb, fs)
  }

  /**
   * `handle_request` on received text: anything the `try` block raises is
   * replaced by the catch-all 500 reply, and only then; the file system is
   * then unchanged.
   */
  function Respond(data: string, sb: Sandbox, fs: FileSystem): (r: Served)
    ensures r.reply == ServerError <==> Handled(data, sb, fs).Raised?
    ensures r.reply == ServerError ==> r.fs == fs
    ensures Handled(data, sb, fs).Ok? ==> r == Handled(data, sb, fs).value
    ensures Framable(r.reply)
  {
    match Handled(data, sb, fs)
    case Raised(_) =>
      assert Framable(ServerError) by {
        assert '\r' !in ServerError.status.Line();
      }
      Served(ServerError, fs)
    case Ok(served) => served
  }

  /** What the connection received: text that decoded as UTF-8, or octets that did not. */
  datatype Incoming = Received(text: string) | Undecodable

  /** What the connection sends (nothing for an empty read) and the file system afterwards. */
  datatype Exchange = Exchange(response: Option<Bytes>, fs: FileSystem)

  /** The reply to a non-empty read: the catch-all 500 when it did not decode, else `Respond`'s. */
  function Answer(incoming: Incoming, sb: Sandbox, fs: FileSystem): (r: Served)
    ensures Framable(r.reply)
    ensures incoming == Undecodable ==> r.reply == ServerError && r.fs == fs
    ensures incoming.Received? ==> r == Respond(incoming.text, sb, fs)
  {
    match incoming
    case Undecodable =>
      assert Framable(ServerError) by {
        assert '\r' !in ServerError.status.Line();
      }
      Served(ServerError, fs)
    case Received(text) => Respond(text, sb, fs)
  }

  /**
   * One connection of `handle_request`: an empty read sends nothing; a
   * failed decode sends the catch-all 500; otherwise the rendered reply of
   * `Respond` is sent.
   */
  function HandleConnection(incoming: Incoming, sb: Sandbox, gzip: Bytes -> Bytes, fs: FileSystem): (r: Exchange)
    ensures r.response.None? <==> incoming == Received("")
    ensures incoming == Undecodable ==> r == Exchange(Some(Render(ServerError, gzip)), fs)
    ensures incoming.Received? && incoming.text != "" ==>
              var served := Respond(incoming.text, sb, fs);
              r == Exchange(Some(Render(served.reply, gzip)), served.fs)
  {
    if incoming == Received("") then Exchange(None, fs)
    else
      var served := Answer(incoming, sb, fs);
      Exchange(Some(Render(served.reply, gzip)), served.fs)
  }

  /** A framable reply, rendered, is read back by its framing. */
  lemma RenderFraming(reply: Reply, gzip: Bytes -> Bytes)
    requires Framable(reply)
    ensures Framing.Framed(Render(reply, gzip))
  {
    Framing.ResponseFraming(reply.status.Line(), reply.body, reply.contentType, reply.encodings, gzip);
  }

  /**
   * Every response the server sends can be read back by its framing: the
   * octets after the first CR LF CR LF are the (possibly compressed) body,
   * and the header block ends by announcing exactly their number.
   */
  lemma ResponsesAreFramed(incoming: Incoming, sb: Sandbox, gzip: Bytes -> Bytes, fs: FileSystem)
    requires incoming != Received("")
    ensures HandleConnection(incoming, sb, gzip, fs).response.Some?
    ensures Framing.Framed(HandleConnection(incoming, sb, gzip, fs).response.value)
  {
    RenderFraming(Answer(incoming, sb, fs).reply, gzip);
  }

  /** The file name of an upload or read request writes as a space-free, CR-free path. */
  predicate WritableName(name: string)
  {
    name != [] && '/' !in name && ' ' !in name && '\r' !in name
  }

  /** A request line `GET /echo/{text} {version}` is answered 200 with exactly `text`. */
  lemma EchoRequest(text: string, version: string, rest: string, sb: Sandbox, fs: FileSystem)
    requires text != [] && '\n' !in text && ' ' !in text && '\r' !in text
    requires ' ' !in version && '\r' !in version
    ensures var r := Respond(WrittenRequest("GET", EchoPrefix + text, version, rest), sb, fs);
            && r.reply == Reply(OK, Text(text), "text/plain", Some(SupportedEncodings(CollectHeaders(Split(rest, CRLF)))))
            && r.fs == fs
  {
    ParseWrittenRequest("GET", EchoPrefix + text, version, rest);
    EchoTextOf(text);
  }

  /**
   * A request line `GET /user-agent {version}` is answered 200 with the
   * value of the last `User-Agent` header line, or "Unknown" without one.
   */
  lemma UserAgentRequest(version: string, rest: string, sb: Sandbox, fs: FileSystem)
    requires ' ' !in version && '\r' !in version
    ensures var headers := CollectHeaders(Split(rest, CRLF));
            var r := Respond(WrittenRequest("GET", "/user-agent", version, rest), sb, fs);
            && r.reply.status == OK
            && r.reply.body == Text(if "user-agent" in headers then headers["user-agent"] else "Unknown")
  {
    ParseWrittenRequest("GET", "/user-agent", version, rest);
    assert RouteOf(Some("GET"), Some("/user-agent")) == UserAgent;
  }

  /**
   * A request line naming `/files/{name}` reaches the file handlers: GET
   * reads with the request's encoding set, POST uploads with its headers.
   */
  lemma FilesRequest(verb: string, name: string, version: string, rest: string, sb: Sandbox, fs: FileSystem)
    requires verb == "GET" || verb == "POST"
    requires WritableName(name) && ' ' !in version && '\r' !in version
    ensures var data := WrittenRequest(verb, FilesPrefix + name, version, rest);
            var headers := CollectHeaders(Split(rest, CRLF));
            && (verb == "GET" ==> Respond(data, sb, fs) == Served(HandleFileRequest(FilesPrefix + name, sb, SupportedEncodings(headers), fs), fs))
            && (verb == "POST" ==> Handled(data, sb, fs) == HandleFileUpload(data, FilesPrefix + name, sb, headers, fs))
  {
    var path := FilesPrefix + name;
    assert ' ' !in path && '\r' !in path;
    ParseWrittenRequest(verb, path, version, rest);
    assert UnderFiles(Some(path)) by {
      assert path[..|FilesPrefix|] == FilesPrefix;
    }
    if verb == "GET" {
      assert RouteOf(Some(verb), Some(path)) == ReadFile;
    } else {
      assert RouteOf(Some(verb), Some(path)) == WriteFile;
    }
  }

  /**
   * Round trip through the whole server: a `POST /files/{name}` answered
   * 201, followed by a `GET /files/{name}` whose read succeeds, is answered
   * 200 with the UTF-8 octets of the body the upload stored.
   */
  lemma PostThenGet(name: string, version: string, postRest: string, getRest: string, sb: Sandbox, fs: FileSystem)
    requires WritableName(name) && ' ' !in version && '\r' !in version
    requires var post := WrittenRequest("POST", FilesPrefix + name, version, postRest);
             Respond(post, sb, fs).reply.status == Created
    requires Target(sb, name) !in fs.readFaults
    ensures var post := WrittenRequest("POST", FilesPrefix + name, version, postRest);
            var get := WrittenRequest("GET", FilesPrefix + name, version, getRest);
            var headers := CollectHeaders(Split(postRest, CRLF));
            var after := Respond(post, sb, fs).fs;
            && ContentLength(headers).Some?
            && Contains(post, BlankLineText)
            && Respond(get, sb, after).reply.status == OK
            && Respond(get, sb, after).reply.body == Binary(Utf8.Encode(StoredBody(post, ContentLength(headers).value)))
  {
    var post := WrittenRequest("POST", FilesPrefix + name, version, postRest);
    var headers := CollectHeaders(Split(postRest, CRLF));
    var get := WrittenRequest("GET", FilesPrefix + name, version, getRest);
    var encodings := SupportedEncodings(CollectHeaders(Split(getRest, CRLF)));
    FilesRequest("POST", name, version, postRest, sb, fs);
    var up := HandleFileUpload(post, FilesPrefix + name, sb, headers, fs);
    assert up.Ok? && Respond(post, sb, fs) == up.value;
    assert UploadSucceeds(post, FilesPrefix + name, sb, headers, fs);
    FilesRequest("GET", name, version, getRest, sb, up.value.fs);
    UploadThenRead(post, name, sb, headers, fs, encodings);
    var after := Respond(post, sb, fs).fs;
    assert after == up.value.fs;
    assert Respond(get, sb, after).reply
        == Reply(OK, Binary(Utf8.Encode(StoredBody(post, ContentLength(headers).value))), "application/octet-stream", Some(encodings));
  }

  /**
   * An upload that passes every check but whose target holds a NUL makes
   * `open` raise ValueError, which the upload handler does not catch: the
   * server answers with the catch-all 500 and writes nothing.
   */
  lemma NulTargetReachesCatchAll(name: string, version: string, rest: string, sb: Sandbox, fs: FileSystem)
    requires WritableName(name) && ' ' !in version && '\r' !in version
    requires var post := WrittenRequest("POST", FilesPrefix + name, version, rest);
             UploadAccepted(post, FilesPrefix + name, sb, CollectHeaders(Split(rest, CRLF)))
    requires '\0' in Target(sb, name)
    ensures Respond(WrittenRequest("POST", FilesPrefix + name, version, rest), sb, fs) == Served(ServerError, fs)
  {
    FilesRequest("POST", name, version, rest, sb, fs);
    FileNameOf(name);
  }

  /**
   * A client listing encodings as "a, b, c" (lower-case, no commas or spaces
   * inside a token) gets exactly those tokens as the encoding set.
   */
  lemma AcceptEncodingList(tokens: seq<string>, headers: map<string, string>)
    requires |tokens| > 0
    requires forall k :: 0 <= k < |tokens| ==> Normalised(tokens[k]) && ',' !in tokens[k]
    requires Get(headers, "accept-encoding", "") == Join(tokens, ", ")
    ensures SupportedEncodings(headers) == set k | 0 <= k < |tokens| :: tokens[k]
  {
    ListedTokens(tokens, headers);
  }

  /** The tokens of a header listing normalised tokens as "a, b, c" are those tokens, in order. */
  lemma ListedTokens(tokens: seq<string>, headers: map<string, string>)
    requires |tokens| > 0
    requires forall k :: 0 <= k < |tokens| ==> Normalised(tokens[k]) && ',' !in tokens[k]
    requires Get(headers, "accept-encoding", "") == Join(tokens, ", ")
    ensures EncodingTokens(headers) == tokens
  {
    NormalisedList(tokens);
    SplitJoined(tokens, ",");
  }

  /** Lower-casing and dropping the spaces of normalised tokens joined by ", " joins them by ",". */
  lemma NormalisedList(tokens: seq<string>)
    requires forall k :: 0 <= k < |tokens| ==> Normalised(tokens[k])
    ensures Without(Lower(Join(tokens, ", ")), ' ') == Join(tokens, ",")
  {
    JoinedTokensAreLower(tokens);
    LowerOfLower(Join(tokens, ", "));
    JoinedTokensWithoutSpaces(tokens);
  }

  /** Lower-casing text that has no upper-case letter leaves it unchanged. */
  lemma LowerOfLower(s: string)
    requires forall k :: 0 <= k < |s| ==> !IsUpper(s[k])
    ensures Lower(s) == s
  {
  }

  /** Joining normalised tokens by ", " gives text without upper-case letters. */
  lemma {:induction false} JoinedTokensAreLower(tokens: seq<string>)
    requires forall k :: 0 <= k < |tokens| ==> Normalised(tokens[k])
    ensures forall k :: 0 <= k < |Join(tokens, ", ")| ==> !IsUpper(Join(tokens, ", ")[k])
    decreases |tokens|
  {
    if |tokens| > 1 {
      JoinedTokensAreLower(tokens[1..]);
      var tail := Join(tokens[1..], ", ");
      var j := Join(tokens, ", ");
      assert j == tokens[0] + ", " + tail;
      forall k | 0 <= k < |j| ensures !IsUpper(j[k]) {
        if k < |tokens[0]| {
          assert j[k] == tokens[0][k];
        } else if k >= |tokens[0]| + 2 {
          assert j[k] == tail[k - |tokens[0]| - 2];
        }
      }
    } else if |tokens| == 1 {
      assert Normalised(tokens[0]);
    }
  }

  /** Dropping the spaces of tokens joined by ", " joins them by ",". */
  lemma {:induction false} JoinedTokensWithoutSpaces(tokens: seq<string>)
    requires forall k :: 0 <= k < |tokens| ==> ' ' !in tokens[k]
    ensures Without(Join(tokens, ", "), ' ') == Join(tokens, ",")
    decreases |tokens|
  {
    if |tokens| > 1 {
      var tail := Join(tokens[1..], ", ");
      assert Join(tokens, ", ") == tokens[0] + (", " + tail);
      assert Join(tokens, ",") == tokens[0] + ("," + Join(tokens[1..], ","));
      WithoutAppend(tokens[0], ", " + tail, ' ');
      WithoutCommaSpace(tail);
      JoinedTokensWithoutSpaces(tokens[1..]);
    } else if |tokens| == 1 {
      assert ' ' !in tokens[0];
    }
  }

  lemma WithoutCommaSpace(t: string)
    ensures Without(", " + t, ' ') == "," + Without(t, ' ')
  {
    assert (", " + t)[1..] == " " + t;
    assert (" " + t)[1..] == t;
  }

  /** Splitting what was joined from separator-free pieces gives the pieces back. */
  lemma {:induction false} SplitJoined(pieces: seq<string>, sep: string)
    requires |pieces| > 0 && |sep| > 0
    requires forall k :: 0 <= k < |pieces| ==> sep[0] !in pieces[k]
    ensures Split(Join(pieces, sep), sep) == pieces
    decreases |pieces|
  {
    if |pieces| == 1 {
      SplitNoSeparator(pieces[0], sep);
    } else {
      SplitJoined(pieces[1..], sep);
      SplitAfterFirst(pieces[0], sep, Join(pieces[1..], sep));
    }
  }
}
