# HTTP/1.1 server core in Dafny

A model of the request/response core of a small threaded HTTP/1.1 server
that serves a handful of routes (`/`, `/echo/{text}`, `/user-agent`) and
reads and writes files under a served directory (`/files/{name}`). Every
response carries `Content-Type` and `Content-Length`, and GET replies are
gzip-compressed when the client lists `gzip` in `Accept-Encoding`.

The modules follow the program's structure:

- `Base`: `Option` and octets (`Byte`, `Bytes`).
- `Seqs`: `str.find`, `str.split` (unbounded and `maxsplit=1`) and `str.join` on any sequence.
- `Text`: Python's `strip`, ASCII `lower`, `replace(c, "")`, `isdigit`/`int` and decimal rendering.
- `Utf8`: the UTF-8 encoder (`str.encode("utf-8")`).
- `Utils`: `parse_request` and `format_response`. A reply is the list of arguments of
  `format_response` (`Reply`), and `Render` turns it into octets.
- `Framing`: the receiving side of a response. Everything before the first CR LF CR LF is the head,
  and its last line announces the length of what follows.
- `Files`: `handle_file_upload` and `handle_file_request` over an abstract `FileSystem`. The file
  system has the regular files, the paths whose read fails (and how) and the paths whose write fails.
- `Handlers`: the encoding set, the ordered routing table, `handle_request` as a pure function of
  the received text, and one connection.

Everything the server takes from the outside is a parameter:

- the received text, already decoded, or `Undecodable`;
- the served directory;
- `os.path.abspath`, as a function `string -> string`;
- `gzip.compress`, as a function `Bytes -> Bytes`;
- the file system.

`os.path.join` is modelled concretely for POSIX.

Behaviours of the code that the model follows, some of them easy to overlook:

- A request line with fewer than three space-separated tokens is answered
  405 "Only GET and POST supported", not 500. The parser returns no method and
  no path, and the dispatcher refuses the request.
- A request line with more than three tokens makes the tuple unpacking raise. The
  catch-all then answers 500 "Server Error".
- Every line after the request line is scanned for headers, including the body's lines.
  A body line such as `Content-Length: 0` therefore overrides the declared header
  (the last occurrence wins).
- The upload body is cut to `Content-Length` characters of the decoded text, not octets.
  It is then written as UTF-8.
- Containment is a plain string-prefix test on `abspath` results. `/srv/data2/x` counts as
  inside `/srv/data`, and symbolic links are not resolved.
- The read handler's error replies (400, 403, 404, 500) are offered the request's encodings.
  They are therefore gzip-compressed when the client asks for it.
- An absent `Accept-Encoding` gives the encoding set `{""}`.
- An upload whose target path holds a NUL character passes every check, and then `open` raises
  ValueError. The upload handler catches only OSError, so the catch-all answers 500 "Server Error".
  A read of such a path answers 404, because `os.path.isfile` answers false for it.

## Model

| member | source | states |
|---|---|---|
| Seqs.Split | app/utils.py:9 | `str.split(sep)`: at least one piece, no piece contains the separator, and joining the pieces with it gives the input back |
| Seqs.SplitOnce | app/files.py:33 | `str.split(sep, 1)`: one piece exactly when the separator is absent; otherwise the text before its first occurrence (no earlier occurrence starts there) and everything after it |
| Seqs.SplitAfterFirst | app/utils.py:9 | cutting at a separator whose first character the leading piece lacks gives that piece followed by the pieces of the rest |
| Text.Strip | app/utils.py:15 | `str.strip()`: a slice of the input, with only whitespace removed, that neither starts nor ends with whitespace |
| Text.Lower | app/utils.py:15 | `str.lower()` on ASCII: same length, each character mapped, and no upper-case letter left |
| Text.Without | app/handlers.py:19 | `replace(" ", "")`: the character is gone, every other character is kept, and a one-character text is kept or dropped whole |
| Text.WithoutAppend | app/handlers.py:19 | `replace` works part by part: removing the character from a concatenation removes it from each part, keeping their order |
| Text.Decimal | app/utils.py:46 | the `f"{n}"` rendering of a length: ASCII digits, no leading zero, and its decimal value is `n` |
| Text.DecimalOfValue | app/files.py:25-30 | `int()` of a digit string without a leading zero, rendered again, gives the same digits |
| Text.LeadingZeros | app/files.py:25-30 | every digit string is a run of zeros followed by the rendering of its `int()` value |
| Utf8.Encode | app/utils.py:33 | `str.encode("utf-8")`: empty exactly for the empty text, and at least one octet per character |
| Utf8.EncodeAppend | app/utils.py:49 | encoding a concatenation concatenates the encodings |
| Utils.HeaderField | app/utils.py:14-18 | a line yields a field exactly when it contains ": "; then the key is the lower-cased, stripped text before its first ':' and the value is the stripped rest |
| Utils.Store | app/utils.py:14-19 | the header map has a name exactly when some line defines it, and then holds the value of the last line that does |
| Utils.ParseRequest | app/utils.py:5-21 | raises exactly when the request line has more than three tokens, and then `ValueError`; fewer than three gives no method, no path and no headers; exactly three gives a method, with space-free method and path taken from the request line and the headers of every later line |
| Utils.ParseWrittenRequest | app/utils.py:9-21 | parsing `METHOD SP PATH SP VERSION CRLF rest` gives back the method, the path and the headers of `rest` |
| Utils.FormatResponse | app/utils.py:24-49 | the response is the UTF-8 head (status line, Content-Type, Content-Encoding only when `gzip` is offered, Content-Length of the final payload, blank line) followed by that payload |
| Utils.HeadIsJoinedLines | app/utils.py:37-49 | the header lines plus the terminator, joined by CR LF, are exactly the head |
| Utils.PlainIsUncompressed | app/utils.py:24-49 | a reply with the defaults of `format_response` is never compressed, whatever the compressor: the `text/plain` head announcing the UTF-8 length of the text, then those octets |
| Framing.EncodeBlankLine | app/utils.py:47 | the octets that end a header block are the UTF-8 encoding of CR LF CR LF |
| Framing.EncodedHead | app/utils.py:37-47 | the encoded head ends in CR LF CR LF, has no earlier empty line, and its last line is the Content-Length line |
| Framing.FirstBlankLine | app/utils.py:47-49 | the first CR LF CR LF of a response is the one that ends the head |
| Framing.ResponseFraming | app/utils.py:37-49 | a client reading up to the first empty line gets the payload exactly, and the announced length is its octet count |
| Files.FileSystem.Read | app/files.py:70-77 | a read returns the file's octets exactly for a NUL-free regular file without a read fault; a NUL makes `open` raise; otherwise the path's fault |
| Files.FileSystem.Write | app/files.py:41-47 | a NUL in the path raises `ValueError`; otherwise the open fails exactly at the faulty paths; a write replaces only the target's contents |
| Files.JoinPath | app/files.py:17 | `os.path.join`: an absolute name replaces the directory; otherwise one '/' separates a non-empty directory from the name, added only when the directory does not end in one |
| Files.FileName | app/files.py:12-16 | `^/files/([^/]+)$`: a captured name is non-empty and slash-free, and the path is the prefix followed by it |
| Files.FileNameOf | app/files.py:12-16 | every non-empty slash-free name is matched and captured whole |
| Files.ContentLength | app/files.py:24-30 | a length exactly when the header is present and all digits, and then the value whose rendering follows the header's leading zeros |
| Files.StoredBody | app/files.py:33-39 | what follows the first empty line of the raw request (no earlier one starts before it), cut to the declared length and never padded |
| Files.Rejection | app/files.py:12-35 | 400 invalid path, 403 outside the directory, 411 bad length, 400 no body, each exactly under its condition and in that order; no rejection exactly when every check passes |
| Files.HandleFileUpload | app/files.py:7-47 | a rejection is answered as is; after the checks, `ValueError` escapes exactly for a target holding a NUL, 500 exactly when the open fails, 201 exactly when it succeeds; the file system changes only on 201, at the target, to the stored body |
| Files.UploadStaysInside | app/files.py:17-21 | an upload changes only files whose path starts with the normalised served directory, and no fault of the file system |
| Files.FaultReply | app/files.py:84-115 | a vanished file gives 404 "File not found Error" and a permission error 403 "Permission Denied", both client errors; any other failure gives 500, with "OS Error" exactly for an OS error and "Server Error" exactly for an unexpected one |
| Files.HandleFileRequest | app/files.py:50-116 | 400, 403 and 404 exactly under their conditions; 200 exactly when the read succeeds, with the file's octets as `application/octet-stream`; a failed read of a regular file gets the reply for its fault; every reply offered the caller's encodings |
| Files.UploadThenRead | app/files.py:37-83 | an upload whose checks and open succeed answers 201, and a read of the same name whose read succeeds then answers 200 with the UTF-8 octets of the stored body |
| Files.UploadWholeBody | app/files.py:33-44 | when the declared length covers the whole body, the file holds exactly the body that was sent |
| Handlers.SupportedEncodings | app/handlers.py:18-19 | the encoding set is never empty, is `{""}` without the header, and holds only lower-case, space-free, comma-free tokens |
| Handlers.EncodingsArePieces | app/handlers.py:18-19 | the encoding set is exactly the comma-free pieces that, joined by commas, give the normalised header value |
| Handlers.AcceptEncodingList | app/handlers.py:18-19 | a header listing normalised tokens as "a, b, c" gives exactly those tokens as the encoding set |
| Handlers.SplitJoined | app/handlers.py:19 | splitting text joined from separator-free pieces gives the pieces back |
| Handlers.EchoText | app/handlers.py:27-30 | `^/echo/(.+)$`: the capture is non-empty and newline-free, and the path is the prefix, the capture and at most one final newline |
| Handlers.EchoTextOf | app/handlers.py:27-30 | every non-empty newline-free text is echoed, with or without one final newline after it |
| Handlers.RouteOf | app/handlers.py:21-53 | the handler chosen for each method and path, each route exactly under its condition, in the order the branches are tried |
| Handlers.Dispatch | app/handlers.py:15-53 | each route's reply, GET replies offered the request's encodings; only an upload can raise or change the file system; 405 exactly for a refused method; any offered encodings are the request's own; never the catch-all reply; always framable |
| Handlers.Handled | app/handlers.py:15-53 | the `try` block raises exactly when parsing raises or the dispatched upload raises, always `ValueError`; fewer than three tokens gives 405 and no change |
| Handlers.Respond | app/handlers.py:10-58 | the catch-all 500 exactly when the `try` block raises, and then no change to the file system; otherwise the dispatched reply |
| Handlers.Answer | app/handlers.py:11-58 | an undecodable read gets the catch-all 500 and changes nothing; decoded text gets `Respond`'s reply; every reply is framable |
| Handlers.HandleConnection | app/handlers.py:8-59 | nothing is sent exactly for an empty read; an undecodable read gets the catch-all 500; otherwise the rendered reply |
| Handlers.ResponsesAreFramed | app/handlers.py:55-59 | every response sent reads back by its framing, with the announced length matching the octets after the head |
| Handlers.EchoRequest | app/handlers.py:22-30 | `GET /echo/{text}` answers 200 with exactly `text`, offered the request's encodings |
| Handlers.UserAgentRequest | app/handlers.py:31-37 | `GET /user-agent` answers 200 with the last `User-Agent` value, or "Unknown" |
| Handlers.FilesRequest | app/handlers.py:38-49 | a request for `/files/{name}` reaches the read handler on GET and the upload handler on POST |
| Handlers.PostThenGet | app/handlers.py:38-49 | through the whole server, a POST answered 201 and then a GET of the same name whose read succeeds answers 200 with the stored body |
| Handlers.NulTargetReachesCatchAll | app/files.py:41-47 | an accepted upload whose target holds a NUL is answered with the catch-all 500 and writes nothing |

## Left out

- Sockets, `recv(4096)` and UTF-8 decoding of the received octets: the model starts from the
  decoded text, or from the fact that decoding failed. A request longer than 4096 octets is
  truncated by the server; the model's text is whatever was received.
- `server.py` and `main.py`: the accept loop, the thread pool and the command-line handling are
  not part of this model.
- Logging: the log calls have no effect on any reply.
- `gzip.compress` is a parameter. That decompressing the payload gives back the body is a
  property of the compressor and is not stated.
- `os.path.abspath` is a parameter. Normalisation of `..` and the link-free view of the
  file system are not modelled.
- Files.ContentLength: `str.isdigit` and `int` are modelled on ASCII digits only. Python also
  accepts other Unicode digits here: superscripts pass `isdigit` but make `int` raise, giving 500.
- Text.Lower: `str.lower` is modelled on ASCII letters only.
- Files.HandleFileUpload: whether `open` raises ValueError is decided on the normalised target,
  since `os.path.abspath` is a parameter. No other exception from `open` or `write` is modelled:
  the text was decoded as UTF-8, so it holds no lone surrogate. A failed write leaves the file
  system unchanged; a write that fails after truncating or partly writing the file is not
  modelled. Text-mode newline translation is taken to be POSIX (none).
- Files.FaultReply: which read failures occur (races with the isfile check, permissions) is
  part of the file-system parameter, not derived.
- Handlers.HandleConnection: the socket is closed on every path; closing has no modelled effect.
