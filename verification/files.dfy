/**
 * The `/files/{name}` route family of app/files.py: `handle_file_upload`
 * and `handle_file_request`, over an abstract file system. Each handler
 * validates the path shape and its containment in the served directory
 * before touching the file system; every file-system outcome then maps to
 * one reply.
 */
module Files {
  import opened Base
  import opened Seqs
  import opened Text
  import Utf8
  import opened Utils

  /** Why opening or reading a file failed, one case per `except` clause of the read handler. */
  datatype ReadFault =
    | FileNotFound       // FileNotFoundError: the file vanished after the isfile check
    | PermissionDenied   // PermissionError
    | OtherOsError       // any other OSError
    | Unexpected         // any other exception

  datatype ReadOutcome = Content(octets: Bytes) | Fault(fault: ReadFault)

  /**
   * What `open(p, "w")` followed by the write does: the file system
   * afterwards, an OSError (caught by the upload handler), or another
   * exception, which the upload handler does not catch.
   */
  datatype WriteOutcome = Written(after: FileSystem) | WriteFailed | WriteRaised(exception: Exception)

  /**
   * An abstract file system: the regular files and their octets, the paths
   * whose open/read fails (and how), and the paths where opening for
   * writing fails with an OSError (a directory, a read-only location, ...).
   */
  datatype FileSystem = FileSystem(files: map<string, Bytes>, readFaults: map<string, ReadFault>, writeFaults: set<string>)
  {
    /** `os.path.isfile(p)`, which answers false for a path holding a NUL instead of raising. */
    predicate IsFile(p: string)
    {
      '\0' !in p && p in files
    }

    /** `open(p, "rb").read()`; a path holding a NUL makes `open` raise ValueError. */
    function Read(p: string): (r: ReadOutcome)
      ensures r.Content? <==> '\0' !in p && p in files && p !in readFaults
      ensures r.Content? ==> r.octets == files[p]
      ensures '\0' in p ==> r == Fault(Unexpected)
      ensures '\0' !in p && p in readFaults ==> r == Fault(readFaults[p])
    {
      if '\0' in p then Fault(Unexpected)
      else if p in readFaults then Fault(readFaults[p])
      else if p in files then Content(files[p])
      else Fault(FileNotFound)
    }

    /**
     * `open(p, "w").write(...)`: a path holding a NUL makes `open` raise
     * ValueError before any system call; otherwise the open fails with an
     * OSError at the faulty paths, and elsewhere the file is created or replaced.
     */
    function Write(p: string, octets: Bytes): (r: WriteOutcome)
      ensures r.WriteRaised? <==> '\0' in p
      ensures r.WriteRaised? ==> r.exception == ValueError
      ensures r.WriteFailed? <==> '\0' !in p && p in writeFaults
      ensures r.Written? ==> r.after.files.Keys == files.Keys + {p} && r.after.files[p] == octets
      ensures r.Written? ==> forall q :: q in files && q != p ==> r.after.files[q] == files[q]
      ensures r.Written? ==> r.after.readFaults == readFaults && r.after.writeFaults == writeFaults
    {
      if '\0' in p then WriteRaised(ValueError)
      else if p in writeFaults then WriteFailed
      else Written(this.(files := files[p := octets]))
    }
  }

  /**
   * The served directory and the path normaliser `os.path.abspath`, which
   * the model does not define (no symbolic links are resolved by it either).
   */
  datatype Sandbox = Sandbox(baseDirectory: string, abspath: string -> string)

  /**
   * `os.path.join(dir, name)` on POSIX: an absolute `name` replaces `dir`;
   * otherwise exactly one '/' separates a non-empty `dir` from `name`.
   */
  function JoinPath(dir: string, name: string): (r: string)
    ensures StartsWith(name, "/") ==> r == name
    ensures !StartsWith(name, "/") ==> StartsWith(r, dir) && EndsWith(r, name)
    ensures !StartsWith(name, "/") && dir != [] ==>
              |r| - |name| - 1 >= 0 && r[|r| - |name| - 1] == '/' && |r| <= |dir| + 1 + |name|
    ensures !StartsWith(name, "/") && dir == [] ==> r == name
    ensures !StartsWith(name, "/") && dir != [] ==> |r| == |dir| + |name| + (if EndsWith(dir, "/") then 0 else 1)
  {
    if StartsWith(name, "/") then name
    else if dir == [] || EndsWith(dir, "/") then dir + name
    else dir + "/" + name
  }

  const FilesPrefix: string := "/files/"

  /**
   * The file name captured by `^/files/([^/]+)$`: the rest of the path
   * after "/files/", which must be non-empty and hold no '/'. (`[^/]`
   * also matches a newline, so a final newline stays in the name.)
   */
  function FileName(path: string): (r: Option<string>)
    ensures r.Some? ==> path == FilesPrefix + r.value && r.value != [] && '/' !in r.value
    ensures r.None? ==> !StartsWith(path, FilesPrefix) || |path| == |FilesPrefix| || '/' in path[|FilesPrefix|..]
  {
    if StartsWith(path, FilesPrefix) && |path| > |FilesPrefix| && '/' !in path[|FilesPrefix|..] then
      assert path == FilesPrefix + path[|FilesPrefix|..];
      Some(path[|FilesPrefix|..])
    else None
  }

  /** Every non-empty slash-free name is matched, and captured whole. */
  lemma FileNameOf(name: string)
    requires name != [] && '/' !in name
    ensures FileName(FilesPrefix + name) == Some(name)
  {
    assert (FilesPrefix + name)[|FilesPrefix|..] == name;
  }

  /** The normalised path a file name designates: `abspath(join(base, name))`. */
  function Target(sb: Sandbox, name: string): string
  {
    sb.abspath(JoinPath(sb.baseDirectory, name))
  }

  /** The containment check: the target starts with the normalised base directory (a plain string prefix test). */
  predicate Contained(sb: Sandbox, name: string)
  {
    StartsWith(Target(sb, name), sb.abspath(sb.baseDirectory))
  }

  /**
   * The declared body length: present only when the `content-length`
   * header exists and is all digits, and then its decimal value.
   */
  function ContentLength(headers: map<string, string>): (r: Option<nat>)
    ensures r.Some? <==> "content-length" in headers && IsDigits(headers["content-length"])
    ensures r.Some? ==> var h := headers["content-length"];
              exists z :: 0 <= z < |h| && (forall k :: 0 <= k < z ==> h[k] == '0') && h[z..] == Decimal(r.value)
  {
    if "content-length" in headers && IsDigits(headers["content-length"]) then
      LeadingZeros(headers["content-length"]);
      Some(DecimalValue(headers["content-length"]))
    else None
  }

  /**
   * The text stored by an upload: what follows the first empty line of the
   * raw request, cut to the declared length when longer and never padded.
   */
  function StoredBody(data: string, length: nat): (r: string)
    requires Contains(data, BlankLineText)
    ensures exists head, body ::
              && CutAtFirst(data, BlankLineText, head, body) && !Contains(head, BlankLineText)
              && r == body[..if length < |body| then length else |body|]
    ensures |r| <= length
  {
    var parts := SplitOnce(data, BlankLineText);
    var body := parts[1];
    body[..if length < |body| then length else |body|]
  }

  /** A handler's reply together with the file system after it ran. */
  datatype Served = Served(reply: Reply, fs: FileSystem)

  /** All checks of the upload pipeline pass, so the handler goes on to write. */
  predicate UploadAccepted(data: string, path: string, sb: Sandbox, headers: map<string, string>)
  {
    && FileName(path).Some?
    && Contained(sb, FileName(path).value)
    && ContentLength(headers).Some?
    && Contains(data, BlankLineText)
  }

  /** Every check passes and opening the target for writing succeeds, so the upload stores the body. */
  predicate UploadSucceeds(data: string, path: string, sb: Sandbox, headers: map<string, string>, fs: FileSystem)
  {
    && UploadAccepted(data, path, sb, headers)
    && var target := Target(sb, FileName(path).value);
       '\0' !in target && target !in fs.writeFaults
  }

  /**
   * The checks `handle_file_upload` makes before writing, in its order:
   * path shape (400), containment (403), Content-Length (411), body present
   * (400). The reply of the first that fails, or none when all pass.
   */
  function Rejection(data: string, path: string, sb: Sandbox, headers: map<string, string>): (r: Option<Reply>)
    ensures r.None? <==> UploadAccepted(data, path, sb, headers)
    ensures r == Some(Plain(BadRequest, "Invalid file request")) <==> FileName(path).None?
    ensures r == Some(Plain(Forbidden, "Access Denied"))
            <==> FileName(path).Some? && !Contained(sb, FileName(path).value)
    ensures r == Some(Plain(LengthRequired, "Content-Length header missing or invalid"))
            <==> FileName(path).Some? && Contained(sb, FileName(path).value) && ContentLength(headers).None?
    ensures r == Some(Plain(BadRequest, "Missing request body"))
            <==> && FileName(path).Some? && Contained(sb, FileName(path).value)
                 && ContentLength(headers).Some? && !Contains(data, BlankLineText)
  {
    match FileName(path)
    case None => Some(Plain(BadRequest, "Invalid file request"))
    case Some(name) =>
      if !Contained(sb, name) then Some(Plain(Forbidden, "Access Denied"))
      else match ContentLength(headers)
        case None => Some(Plain(LengthRequired, "Content-Length header missing or invalid"))
        case Some(_) =>
          if |SplitOnce(data, BlankLineText)| < 2 then Some(Plain(BadRequest, "Missing request body"))
          else None
  }

  /**
   * `handle_file_upload`: the first failed check's reply (see `Rejection`),
   * and only when every check passes the write: 201 with an empty body, or
   * 500 when the open fails with an OSError. An open that raises anything
   * else (a target holding a NUL) escapes the handler. The file system
   * changes only on 201, and then only at the target, which holds the
   * UTF-8 encoding of the stored body. No reply is ever compressed.
   */
  function HandleFileUpload(data: string, path: string, sb: Sandbox, headers: map<string, string>,
                            fs: FileSystem): (r: Result<Served>)
    ensures Rejection(data, path, sb, headers).Some? ==> r == Ok(Served(Rejection(data, path, sb, headers).value, fs))
    ensures r.Raised? <==> UploadAccepted(data, path, sb, headers) && '\0' in Target(sb, FileName(path).value)
    ensures r.Raised? ==> r.exception == ValueError
    ensures r == Ok(Served(Plain(InternalServerError, "File write error"), fs))
            <==> && UploadAccepted(data, path, sb, headers)
                 && var target := Target(sb, FileName(path).value);
                    '\0' !in target && target in fs.writeFaults
    ensures r.Ok? && r.value.reply.status == Created <==> UploadSucceeds(data, path, sb, headers, fs)
    ensures UploadSucceeds(data, path, sb, headers, fs) ==>
              r == Ok(Served(Plain(Created, ""),
                             fs.(files := fs.files[Target(sb, FileName(path).value)
                                                   := Utf8.Encode(StoredBody(data, ContentLength(headers).value))])))
    ensures r.Ok? && r.value.reply.status != Created ==> r.value.fs == fs
    ensures r.Ok? ==> r.value.reply.encodings.None? && r.value.reply.contentType == "text/plain"
    ensures r.Ok? ==> r.value.reply.status != MethodNotAllowed && r.value.reply.status != OK && r.value.reply.status != NotFound
    ensures r.Ok? && r.value.reply.status == InternalServerError ==> r.value.reply.body == Text("File write error")
  {
    match Rejection(data, path, sb, headers)
    case Some(reply) => Ok(Served(reply, fs))
    case None =>
      var target := Target(sb, FileName(path).value);
      match fs.Write(target, Utf8.Encode(StoredBody(data, ContentLength(headers).value)))
      case WriteRaised(e) => Raised(e)
      case WriteFailed => Ok(Served(Plain(InternalServerError, "File write error"), fs))
      case Written(fs') => Ok(Served(Plain(Created, ""), fs'))
  }

  /**
   * An upload never touches a file outside the served directory: every path
   * whose contents differ afterwards passed the containment check, and the
   * read-fault and write-fault views of the file system are unchanged.
   */
  lemma UploadStaysInside(data: string, path: string, sb: Sandbox, headers: map<string, string>, fs: FileSystem)
    requires HandleFileUpload(data, path, sb, headers, fs).Ok?
    ensures var after := HandleFileUpload(data, path, sb, headers, fs).value.fs;
            && after.readFaults == fs.readFaults && after.writeFaults == fs.writeFaults
            && forall p :: p in after.files && (p !in fs.files || after.files[p] != fs.files[p]) ==>
                 StartsWith(p, sb.abspath(sb.baseDirectory))
  {
  }

  /**
   * The reply for a failed read. A vanished file or a permission problem is
   * the client's resource error (4xx); any other failure is the server's (500).
   */
  function FaultReply(fault: ReadFault, encodings: set<string>): (r: Reply)
    ensures r.contentType == "text/plain" && r.encodings == Some(encodings)
    ensures fault == FileNotFound <==> r.status == NotFound
    ensures fault == PermissionDenied <==> r.status == Forbidden
    ensures fault == FileNotFound <==> r.body == Text("File not found Error")
    ensures fault == PermissionDenied <==> r.body == Text("Permission Denied")
    ensures (fault == FileNotFound || fault == PermissionDenied) <==> r.status.IsClientError()
    ensures (fault == OtherOsError || fault == Unexpected) <==> r.status.IsServerError()
    ensures fault == OtherOsError <==> r.body == Text("OS Error")
    ensures fault == Unexpected <==> r.body == Text("Server Error")
  {
    match fault
    case FileNotFound => Reply(NotFound, Text("File not found Error"), "text/plain", Some(encodings))
    case PermissionDenied => Reply(Forbidden, Text("Permission Denied"), "text/plain", Some(encodings))
    case OtherOsError => Reply(InternalServerError, Text("OS Error"), "text/plain", Some(encodings))
    case Unexpected => Reply(InternalServerError, Text("Server Error"), "text/plain", Some(encodings))
  }

  /**
   * `handle_file_request`: path shape (400), containment (403), regular
   * file (404), all before reading; then 200 with exactly the file's octets
   * as `application/octet-stream`, or the reply for the read fault. Every
   * reply is offered for the caller's encodings.
   */
  function HandleFileRequest(path: string, sb: Sandbox, encodings: set<string>, fs: FileSystem): (r: Reply)
    ensures r.encodings == Some(encodings)
    ensures r.status != MethodNotAllowed && r.status != Created && r.status != LengthRequired
    ensures r.contentType in {"text/plain", "application/octet-stream"}
    ensures r == Reply(BadRequest, Text("Invalid file request"), "text/plain", Some(encodings)) <==> FileName(path).None?
    ensures r == Reply(Forbidden, Text("Access Denied"), "text/plain", Some(encodings))
            <==> FileName(path).Some? && !Contained(sb, FileName(path).value)
    ensures r == Reply(NotFound, Text("File Not Found"), "text/plain", Some(encodings))
            <==> && FileName(path).Some? && Contained(sb, FileName(path).value)
                 && !fs.IsFile(Target(sb, FileName(path).value))
    ensures r.status == OK
            <==> && FileName(path).Some? && Contained(sb, FileName(path).value)
                 && fs.Read(Target(sb, FileName(path).value)).Content?
    ensures r.status == OK ==>
              r.body == Binary(fs.files[Target(sb, FileName(path).value)]) && r.contentType == "application/octet-stream"
    ensures && FileName(path).Some? && Contained(sb, FileName(path).value)
            && fs.IsFile(Target(sb, FileName(path).value)) && fs.Read(Target(sb, FileName(path).value)).Fault?
            ==> r == FaultReply(fs.Read(Target(sb, FileName(path).value)).fault, encodings)
  {
    match FileName(path)
    case None => Reply(BadRequest, Text("Invalid file request"), "text/plain", Some(encodings))
    case Some(name) =>
      var target := Target(sb, name);
      if !Contained(sb, name) then Reply(Forbidden, Text("Access Denied"), "text/plain", Some(encodings))
      else if !fs.IsFile(target) then Reply(NotFound, Text("File Not Found"), "text/plain", Some(encodings))
      else match fs.Read(target)
        case Content(octets) => Reply(OK, Binary(octets), "application/octet-stream", Some(encodings))
        case Fault(fault) => FaultReply(fault, encodings)
  }

  /**
   * Round trip over the file system: an upload to `/files/name` whose checks
   * and open succeed answers 201, and reading `/files/name` afterwards
   * answers 200 with the UTF-8 octets of the stored body, provided that
   * read does not fail.
   */
  lemma UploadThenRead(data: string, name: string, sb: Sandbox, headers: map<string, string>,
                       fs: FileSystem, encodings: set<string>)
    requires name != [] && '/' !in name
    requires UploadSucceeds(data, FilesPrefix + name, sb, headers, fs)
    requires Target(sb, name) !in fs.readFaults
    ensures var up := HandleFileUpload(data, FilesPrefix + name, sb, headers, fs);
            && up.Ok? && up.value.reply.status == Created
            && HandleFileRequest(FilesPrefix + name, sb, encodings, up.value.fs)
               == Reply(OK, Binary(Utf8.Encode(StoredBody(data, ContentLength(headers).value))),
                        "application/octet-stream", Some(encodings))
  {
    FileNameOf(name);
  }

  /**
   * When the declared length covers everything after the first empty line,
   * the whole rest of the request is stored: a read after the upload
   * returns exactly its UTF-8 octets.
   */
  lemma UploadWholeBody(data: string, name: string, sb: Sandbox,
                        headers: map<string, string>, fs: FileSystem, encodings: set<string>)
    requires name != [] && '/' !in name
    requires UploadSucceeds(data, FilesPrefix + name, sb, headers, fs)
    requires ContentLength(headers).value >= |SplitOnce(data, BlankLineText)[1]|
    requires Target(sb, name) !in fs.readFaults
    ensures var up := HandleFileUpload(data, FilesPrefix + name, sb, headers, fs);
            && up.Ok?
            && HandleFileRequest(FilesPrefix + name, sb, encodings, up.value.fs).body
               == Binary(Utf8.Encode(SplitOnce(data, BlankLineText)[1]))
  {
    UploadThenRead(data, name, sb, headers, fs, encodings);
    var body := SplitOnce(data, BlankLineText)[1];
    assert StoredBody(data, ContentLength(headers).value) == body[..|body|] == body;
  }
}
