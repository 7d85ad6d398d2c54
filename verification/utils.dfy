/**
 * Request parsing and response framing: `parse_request` and
 * `format_response` of app/utils.py.
 */
module Utils {
  import opened Base
  import opened Seqs
  import opened Text
  import Utf8

  const CRLF: string := "\r\n"

  /** The empty line that ends a header block, with the CR LF of the line before it. */
  const BlankLineText: string := CRLF + CRLF

  /** The statuses the server answers with. */
  datatype Status =
    | OK | Created | BadRequest | Forbidden | NotFound | MethodNotAllowed | LengthRequired | InternalServerError
  {
    /** The status code and reason phrase, as written after "HTTP/1.1 ". */
    function Line(): (r: string)
      ensures '\r' !in r && |r| > 4 && r[3] == ' '
    {
      match this
      case OK => "200 OK"
      case Created => "201 Created"
      case BadRequest => "400 Bad Request"
      case Forbidden => "403 Forbidden"
      case NotFound => "404 Not Found"
      case MethodNotAllowed => "405 Method Not Allowed"
      case LengthRequired => "411 Length Required"
      case InternalServerError => "500 Internal Server Error"
    }

    /** A failure the client caused or could avoid (4xx). */
    predicate IsClientError()
    {
      Line()[0] == '4'
    }

    /** A failure on the server's side (5xx). */
    predicate IsServerError()
    {
      Line()[0] == '5'
    }
  }

  /** The Python exceptions that can escape request handling and reach the catch-all. */
  datatype Exception =
    | ValueError          // unpacking a request line with more than three fields, or opening a path holding a NUL
    | UnicodeDecodeError  // the received octets are not valid UTF-8

  datatype Result<+T> = Ok(value: T) | Raised(exception: Exception)

  /**
   * What `parse_request` returns: method and path are absent (`None`) for a
   * request line with fewer than three fields; header names are lower-case.
   * (`verb` is the HTTP method; `method` is a Dafny keyword.)
   */
  datatype Request = Request(verb: Option<string>, path: Option<string>, headers: map<string, string>)

  /**
   * One line of the header scan: only a line containing ": " is a header; it
   * is cut at its first ':' and the name is trimmed and lower-cased, the
   * value trimmed.
   */
  function HeaderField(line: string): (r: Option<(string, string)>)
    ensures r.Some? <==> Contains(line, ": ")
    ensures r.Some? ==> exists i ::
              && 0 <= i < |line| && line[i] == ':' && ':' !in line[..i]
              && r.value == (Lower(Strip(line[..i])), Strip(line[i + 1..]))
  {
    if Contains(line, ": ") then
      var parts := SplitOnce(line, ":");
      ColonCut(line);
      assert line[|parts[0]|] == ':' && line[..|parts[0]|] == parts[0];
      Some((Lower(Strip(parts[0])), Strip(parts[1])))
    else
      None
  }

  /** A line holding ": " is cut at its first ':' into a colon-free name and the rest. */
  lemma ColonCut(line: string)
    requires Contains(line, ": ")
    ensures var parts := SplitOnce(line, ":");
            && |parts| == 2 && line == parts[0] + ":" + parts[1] && ':' !in parts[0]
  {
    var parts := SplitOnce(line, ":");
    assert |parts| == 2 by {
      var i :| 0 <= i <= |line| && OccursAt(line, ": ", i);
      assert line[i..i + 1] == line[i..i + 2][..1];
      assert OccursAt(line, ":", i);
    }
    assert ':' !in parts[0] by {
      if ':' in parts[0] {
        var j :| 0 <= j < |parts[0]| && parts[0][j] == ':';
        assert OccursAt(parts[0], ":", j);
      }
    }
  }

  /** The field each line contributes to the header scan, line by line. */
  function Fields(lines: seq<string>): seq<Option<(string, string)>>
  {
    seq(|lines|, i requires 0 <= i < |lines| => HeaderField(lines[i]))
  }

  /**
   * The header dictionary built by scanning `lines` in order (the dict
   * comprehension of `parse_request`); see `LastWins` for its meaning.
   */
  function CollectHeaders(lines: seq<string>): (m: map<string, string>)
  {
    Store(Fields(lines))
  }

  /** Field `i` of `fields` is present and its name is `name`. */
  predicate Defines<K(==), V>(fields: seq<Option<(K, V)>>, i: int, name: K)
  {
    0 <= i < |fields| && fields[i].Some? && fields[i].value.0 == name
  }

  /**
   * Storing fields one after another into a dictionary: a name is present
   * exactly when some field defines it, and its value is the one given by
   * the LAST field that defines it.
   */
  function Store<K(==,!new), V>(fields: seq<Option<(K, V)>>): (m: map<K, V>)
    ensures forall name :: name in m <==> exists i :: Defines(fields, i, name)
    ensures forall i, name ::
              Defines(fields, i, name) && (forall j :: i < j < |fields| ==> !Defines(fields, j, name))
              ==> name in m && m[name] == fields[i].value.1
    decreases |fields|
  {
    if |fields| == 0 then map[]
    else
      var init := fields[..|fields| - 1];
      var m := Store(init);
      var r := match fields[|fields| - 1]
        case None => m
        case Some(field) => m[field.0 := field.1];
      StoreStep(fields, m, r);
      r
  }

  /** One step of `Store`: what holds of the first |fields| - 1 fields extends to all of them. */
  lemma StoreStep<K(!new), V>(fields: seq<Option<(K, V)>>, m: map<K, V>, r: map<K, V>)
    requires |fields| > 0
    requires var init := fields[..|fields| - 1];
             && (forall name :: name in m <==> exists i :: Defines(init, i, name))
             && (forall i, name ::
                   Defines(init, i, name) && (forall j :: i < j < |init| ==> !Defines(init, j, name))
                   ==> name in m && m[name] == init[i].value.1)
    requires fields[|fields| - 1].None? ==> r == m
    requires fields[|fields| - 1].Some? ==> r == m[fields[|fields| - 1].value.0 := fields[|fields| - 1].value.1]
    ensures forall name :: name in r <==> exists i :: Defines(fields, i, name)
    ensures forall i, name ::
              Defines(fields, i, name) && (forall j :: i < j < |fields| ==> !Defines(fields, j, name))
              ==> name in r && r[name] == fields[i].value.1
  {
    var init := fields[..|fields| - 1];
    var last := |fields| - 1;
    forall i, name | 0 <= i < |init| ensures Defines(init, i, name) <==> Defines(fields, i, name) {
      assert init[i] == fields[i];
    }
    forall name ensures name in r <==> exists i :: Defines(fields, i, name) {
      if name in r && !Defines(fields, last, name) {
        assert name in m;
        var i :| Defines(init, i, name);
        assert Defines(fields, i, name);
      }
      if exists i :: Defines(fields, i, name) {
        var i :| Defines(fields, i, name);
        if i < last {
          assert Defines(init, i, name);
        }
      }
    }
    forall i, name | Defines(fields, i, name) && (forall j :: i < j < |fields| ==> !Defines(fields, j, name))
      ensures name in r && r[name] == fields[i].value.1
    {
      if i < last {
        assert !Defines(fields, last, name);
        assert Defines(init, i, name);
        forall j | i < j < |init| ensures !Defines(init, j, name) {
          assert !Defines(fields, j, name);
        }
      }
    }
  }

  /**
   * Python's `parse_request`. The first CRLF-delimited line is split on
   * single spaces: fewer than three fields give an empty request, more than
   * three raise `ValueError` (the unpacking `method, path, _ = ...`), and
   * exactly three give method and path verbatim. Every later line, the body
   * included, goes through the header scan.
   */
  function ParseRequest(data: string): (r: Result<Request>)
    ensures var line := Split(data, CRLF)[0];
            && (r.Raised? <==> |Split(line, " ")| > 3)
            && (|Split(line, " ")| < 3 <==> r == Ok(Request(None, None, map[])))
            && (|Split(line, " ")| == 3 <==> r.Ok? && r.value.verb.Some?)
    ensures r.Raised? ==> r.exception == ValueError
    ensures r.Ok? && r.value.verb.Some? ==>
              && r.value.path.Some?
              && ' ' !in r.value.verb.value && ' ' !in r.value.path.value
              && exists version :: ' ' !in version && RequestLine(data) == r.value.verb.value + " " + r.value.path.value + " " + version
    ensures r.Ok? && r.value.verb.Some? ==> r.value.headers == CollectHeaders(Split(data, CRLF)[1..])
  {
    var lines := Split(data, CRLF);
    var fields := Split(lines[0], " ");
    if |fields| < 3 then Ok(Request(None, None, map[]))
    else if |fields| > 3 then Raised(ValueError)
    else
      ThreeFields(lines[0]);
      Ok(Request(Some(fields[0]), Some(fields[1]), CollectHeaders(lines[1..])))
  }

  /** The request line: the text before the first CRLF, or all of it when there is none. */
  function RequestLine(data: string): (r: string)
    ensures StartsWith(data, r) && !Contains(r, CRLF)
    ensures r != data ==> StartsWith(data, r + CRLF)
  {
    var lines := Split(data, CRLF);
    assert |lines| > 1 ==> data == lines[0] + CRLF + Join(lines[1..], CRLF);
    lines[0]
  }

  /** A line that splits into three fields is those fields, space-free, with one space between each. */
  lemma ThreeFields(line: string)
    requires |Split(line, " ")| == 3
    ensures var fields := Split(line, " ");
            && line == fields[0] + " " + fields[1] + " " + fields[2]
            && ' ' !in fields[0] && ' ' !in fields[1] && ' ' !in fields[2]
  {
    var fields := Split(line, " ");
    SpacesFreeFields(fields);
    assert fields == [fields[0], fields[1], fields[2]];
    JoinThree(fields[0], fields[1], fields[2], " ");
  }

  /** Pieces cut at single spaces contain no space. */
  lemma SpacesFreeFields(fields: seq<string>)
    requires forall k :: 0 <= k < |fields| ==> !Contains(fields[k], " ")
    ensures forall k :: 0 <= k < |fields| ==> ' ' !in fields[k]
  {
    forall k | 0 <= k < |fields| ensures ' ' !in fields[k] {
      if ' ' in fields[k] {
        var j :| 0 <= j < |fields[k]| && fields[k][j] == ' ';
        assert OccursAt(fields[k], " ", j);
      }
    }
  }

  /** A request as a client writes it: `verb SP path SP version CRLF`, then the rest (headers, empty line, body). */
  function WrittenRequest(verb: string, path: string, version: string, rest: string): string
  {
    verb + " " + path + " " + version + CRLF + rest
  }

  /**
   * Parsing inverts writing a request line: for a verb (method), path and version
   * free of spaces and carriage returns, followed by CRLF and anything,
   * the parser returns that method and path and scans the rest for headers.
   */
  lemma {:induction false} ParseWrittenRequest(verb: string, path: string, version: string, rest: string)
    requires ' ' !in verb && ' ' !in path && ' ' !in version
    requires '\r' !in verb && '\r' !in path && '\r' !in version
    ensures ParseRequest(WrittenRequest(verb, path, version, rest))
         == Ok(Request(Some(verb), Some(path), CollectHeaders(Split(rest, CRLF))))
  {
    var line := verb + " " + path + " " + version;
    assert '\r' !in line by {
      assert line == verb + (" " + path) + (" " + version);
    }
    SplitAfterFirst(line, CRLF, rest);
    RequestLineFields(verb, path, version);
  }

  /** A request line written from three space-free fields splits back into them. */
  lemma RequestLineFields(verb: string, path: string, version: string)
    requires ' ' !in verb && ' ' !in path && ' ' !in version
    ensures Split(verb + " " + path + " " + version, " ") == [verb, path, version]
  {
    assert verb + " " + path + " " + version == verb + " " + (path + " " + version);
    SplitAfterFirst(verb, " ", path + " " + version);
    SplitAfterFirst(path, " ", version);
    SplitNoSeparator(version, " ");
  }

  /** The body handed to `format_response`: text (encoded as UTF-8) or raw octets. */
  datatype Body = Text(text: string) | Binary(octets: Bytes)

  /** The octets of a body before any compression. */
  function BodyOctets(body: Body): Bytes
  {
    match body
    case Text(s) => Utf8.Encode(s)
    case Binary(b) => b
  }

  /** gzip is applied exactly when "gzip" is among the encodings; an absent set never compresses. */
  predicate WantsGzip(encodings: Option<set<string>>)
  {
    encodings.Some? && "gzip" in encodings.value
  }

  /** The octets actually transmitted after the header block. */
  function Payload(body: Body, encodings: Option<set<string>>, gzip: Bytes -> Bytes): Bytes
  {
    if WantsGzip(encodings) then gzip(BodyOctets(body)) else BodyOctets(body)
  }

  /**
   * The response head required by the message format of RFC 9112 (status
   * line, section 4; header fields and the empty line, section 2.1) for the
   * fields this server sends, in its fixed order.
   */
  function Head(status: string, contentType: string, gzipped: bool, length: nat): string
  {
    ("HTTP/1.1 " + status) + CRLF
    + ("Content-Type: " + contentType) + CRLF
    + (if gzipped then "Content-Encoding: gzip" + CRLF else "")
    + ("Content-Length: " + Decimal(length)) + CRLF
    + CRLF
  }

  /**
   * Python's `format_response`: the header lines joined with CRLF, a final
   * empty line, then the payload. The output is the UTF-8 head followed by
   * the payload verbatim; `Content-Encoding: gzip` is present and the body
   * compressed exactly when "gzip" is requested; `Content-Length` is the
   * length of the payload actually appended.
   */
  function FormatResponse(status: string, body: Body, contentType: string,
                          encodings: Option<set<string>>, gzip: Bytes -> Bytes): (r: Bytes)
    ensures var payload := Payload(body, encodings, gzip);
            r == Utf8.Encode(Head(status, contentType, WantsGzip(encodings), |payload|)) + payload
    ensures !WantsGzip(encodings) ==> StartsWith(r, Utf8.Encode(Head(status, contentType, false, |BodyOctets(body)|)))
  {
    var payload := if WantsGzip(encodings) then gzip(BodyOctets(body)) else BodyOctets(body);
    var lines := HeaderLines(status, contentType, WantsGzip(encodings), |payload|) + [CRLF];
    HeadIsJoinedLines(status, contentType, WantsGzip(encodings), |payload|);
    Utf8.Encode(Join(lines, CRLF)) + payload
  }

  /** The header lines `format_response` collects, in order, before the final empty line. */
  function HeaderLines(status: string, contentType: string, gzipped: bool, length: nat): seq<string>
  {
    ["HTTP/1.1 " + status, "Content-Type: " + contentType]
    + (if gzipped then ["Content-Encoding: gzip"] else [])
    + ["Content-Length: " + Decimal(length)]
  }

  lemma HeadIsJoinedLines(status: string, contentType: string, gzipped: bool, length: nat)
    ensures Join(HeaderLines(status, contentType, gzipped, length) + [CRLF], CRLF)
         == Head(status, contentType, gzipped, length)
  {
    var a, b, d := "HTTP/1.1 " + status, "Content-Type: " + contentType, "Content-Length: " + Decimal(length);
    var c := "Content-Encoding: gzip";
    var hl := HeaderLines(status, contentType, gzipped, length);
    JoinSnoc(hl, CRLF, CRLF);
    var y := a + CRLF + b + CRLF;
    if gzipped {
      assert hl == [a, b, c, d];
      JoinFour(a, b, c, d, CRLF);
      assert y + (c + CRLF) == y + c + CRLF;
    } else {
      assert hl == [a, b, d];
      JoinThree(a, b, d, CRLF);
      assert y + "" == y;
    }
  }

  /**
   * The arguments of one `format_response` call. Handlers are modelled as
   * returning these; the octets sent are `Render` of them.
   */
  datatype Reply = Reply(status: Status, body: Body, contentType: string, encodings: Option<set<string>>)

  /** `format_response(status, text)` with its defaults: `text/plain`, no encodings. */
  function Plain(status: Status, text: string): Reply
  {
    Reply(status, Text(text), "text/plain", None)
  }

  function Render(reply: Reply, gzip: Bytes -> Bytes): Bytes
  {
    FormatResponse(reply.status.Line(), reply.body, reply.contentType, reply.encodings, gzip)
  }

  /**
   * A reply with the defaults of `format_response` is never compressed,
   * whatever the compressor: it is the `text/plain` head announcing the
   * UTF-8 length of the text, followed by exactly those octets.
   */
  lemma PlainIsUncompressed(status: Status, text: string, gzip: Bytes -> Bytes)
    ensures Render(Plain(status, text), gzip)
         == Utf8.Encode(Head(status.Line(), "text/plain", false, |Utf8.Encode(text)|)) + Utf8.Encode(text)
  {
    assert !WantsGzip(None);
  }
}

/**
 * The receiving side of the framing: a client that reads up to the first
 * empty line and then as many octets as `Content-Length` announces gets
 * exactly the payload `format_response` appended.
 */
module Framing {
  import opened Base
  import opened Seqs
  import opened Text
  import Utf8
  import opened Utils

  /** CR LF CR LF, the end of a header block, as octets (`EncodeBlankLine` ties it to `BlankLineText`). */
  const BlankLine: Bytes := [13, 10, 13, 10]

  /**
   * `sent` reads back as a response: it holds CR LF CR LF, and the header
   * block before the first one ends by announcing the number of octets after it.
   */
  predicate Framed(sent: Bytes)
  {
    var parts := SplitOnce(sent, BlankLine);
    |parts| == 2 && EndsWith(parts[0], Utf8.Encode("Content-Length: " + Decimal(|parts[1]|)))
  }

  /** Every CR of `x` is followed, two octets later and still inside `x`, by an octet that is not CR. */
  predicate LoneCRs(x: Bytes)
  {
    forall i :: 0 <= i < |x| && x[i] == 13 ==> i + 2 < |x| && x[i + 2] != 13
  }

  lemma {:induction false} EncodeCRLF()
    ensures Utf8.Encode(CRLF) == [13, 10]
  {
    assert CRLF[1..][1..] == [];
  }

  /** The octets of a header block's end are the UTF-8 encoding of its text. */
  lemma EncodeBlankLine()
    ensures Utf8.Encode(BlankLineText) == BlankLine
  {
    EncodeCRLF();
    Utf8.EncodeAppend(CRLF, CRLF);
  }

  /** Appending a CR-free, non-empty line after CRLF keeps every CR lone. */
  lemma {:induction false} AppendLine(a: string, b: string)
    requires LoneCRs(Utf8.Encode(a))
    requires '\r' !in b && |b| > 0
    ensures Utf8.Encode(a + CRLF + b) == Utf8.Encode(a) + [13, 10] + Utf8.Encode(b)
    ensures LoneCRs(Utf8.Encode(a + CRLF + b))
  {
    Utf8.EncodeAppend(a, CRLF);
    Utf8.EncodeAppend(a + CRLF, b);
    EncodeCRLF();
    Utf8.EncodeKeepsAsciiAbsent(b, '\r');
    var x, y := Utf8.Encode(a), Utf8.Encode(b);
    var z := x + [13, 10] + y;
    forall i | 0 <= i < |z| && z[i] == 13 ensures i + 2 < |z| && z[i + 2] != 13 {
      if i < |x| {
        assert x[i] == 13;
      } else if i == |x| {
        assert z[i + 2] == y[0];
      }
    }
  }

  /** With lone CRs before it, the first CR LF CR LF of `x + BlankLine + p` starts right after `x`. */
  lemma FirstBlankLine(x: Bytes, p: Bytes)
    requires LoneCRs(x)
    ensures SplitOnce(x + BlankLine + p, BlankLine) == [x, p]
  {
    var s := x + BlankLine + p;
    assert OccursAt(s, BlankLine, |x|) by {
      assert s[|x|..|x| + 4] == BlankLine;
    }
    forall j | 0 <= j < |x| ensures !OccursAt(s, BlankLine, j) {
      if j + 4 <= |s| {
        if x[j] == 13 {
          assert s[j..j + 4][2] == s[j + 2] == x[j + 2] != 13;
        } else {
          assert s[j..j + 4][0] == s[j] == x[j] != 13;
        }
      }
    }
    assert Find(s, BlankLine) == Some(|x|);
    assert s[..|x|] == x && s[|x| + 4..] == p;
  }

  /** Every header line is non-empty and free of CR. */
  lemma HeaderLinesAreClean(status: string, contentType: string, gzipped: bool, length: nat)
    requires '\r' !in status && '\r' !in contentType
    ensures var lines := HeaderLines(status, contentType, gzipped, length);
            forall k :: 0 <= k < |lines| ==> '\r' !in lines[k] && |lines[k]| > 0
  {
    var d := Decimal(length);
    assert forall k :: 0 <= k < |d| ==> IsDigit(d[k]);
    assert '\r' !in "Content-Length: " + d;
  }

  /** Non-empty CR-free lines joined by CRLF have lone CRs once encoded. */
  lemma {:induction false} JoinedLinesHaveLoneCRs(lines: seq<string>)
    requires |lines| > 0
    requires forall k :: 0 <= k < |lines| ==> '\r' !in lines[k] && |lines[k]| > 0
    ensures LoneCRs(Utf8.Encode(Join(lines, CRLF)))
    decreases |lines|
  {
    if |lines| == 1 {
      Utf8.EncodeKeepsAsciiAbsent(lines[0], '\r');
    } else {
      var init := lines[..|lines| - 1];
      JoinedLinesHaveLoneCRs(init);
      JoinSnoc(init, lines[|lines| - 1], CRLF);
      assert init + [lines[|lines| - 1]] == lines;
      AppendLine(Join(init, CRLF), lines[|lines| - 1]);
    }
  }

  /**
   * The encoded head is its encoded header lines, whose CRs are lone,
   * followed by CR LF CR LF; the last header line is the length line.
   */
  lemma EncodedHead(status: string, contentType: string, gzipped: bool, length: nat)
    requires '\r' !in status && '\r' !in contentType
    ensures var x := Utf8.Encode(Join(HeaderLines(status, contentType, gzipped, length), CRLF));
            && Utf8.Encode(Head(status, contentType, gzipped, length)) == x + BlankLine
            && LoneCRs(x)
            && EndsWith(x, Utf8.Encode("Content-Length: " + Decimal(length)))
  {
    var lines := HeaderLines(status, contentType, gzipped, length);
    var joined := Join(lines, CRLF);
    HeadIsJoinedLines(status, contentType, gzipped, length);
    JoinSnoc(lines, CRLF, CRLF);
    assert joined + CRLF + CRLF == joined + BlankLineText;
    Utf8.EncodeAppend(joined, BlankLineText);
    EncodeBlankLine();
    HeaderLinesAreClean(status, contentType, gzipped, length);
    JoinedLinesHaveLoneCRs(lines);
    var init := lines[..|lines| - 1];
    var last := lines[|lines| - 1];
    assert lines == init + [last];
    JoinSnoc(init, last, CRLF);
    Utf8.EncodeAppend(Join(init, CRLF) + CRLF, last);
  }

  /**
   * Reading back what `format_response` wrote: the octets after the first
   * CR LF CR LF are the payload, and the header block ends with the
   * `Content-Length` line announcing exactly their number.
   */
  lemma ResponseFraming(status: string, body: Body, contentType: string,
                        encodings: Option<set<string>>, gzip: Bytes -> Bytes)
    requires '\r' !in status && '\r' !in contentType
    ensures var parts := SplitOnce(FormatResponse(status, body, contentType, encodings, gzip), BlankLine);
            && |parts| == 2
            && parts[1] == Payload(body, encodings, gzip)
            && EndsWith(parts[0], Utf8.Encode("Content-Length: " + Decimal(|parts[1]|)))
            && DecimalValue(Decimal(|parts[1]|)) == |parts[1]|
    ensures Framed(FormatResponse(status, body, contentType, encodings, gzip))
  {
    var payload := Payload(body, encodings, gzip);
    var gz := WantsGzip(encodings);
    EncodedHead(status, contentType, gz, |payload|);
    var x := Utf8.Encode(Join(HeaderLines(status, contentType, gz, |payload|), CRLF));
    FirstBlankLine(x, payload);
  }
}
