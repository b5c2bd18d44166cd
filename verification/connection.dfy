/**
 * `handle_connection`: look the request line up in the route table, pick
 * the status and the file, read the file, and frame the reply.
 */
module Connection {
  import opened Wrappers
  import opened Utf8
  import opened Tables
  import opened Message
  import Decimal

  const StatusOk := "HTTP/1.1 200 OK"
  const StatusNotFound := "HTTP/1.1 404 NOT FOUND"
  const NotFoundPage := "public/404.html"

  /** The status line of the reply and the file whose contents form its body. */
  datatype Selection = Selection(status: string, file: string)

  /**
   * The file comes from `get` with `public/404.html` as the default, the
   * status from a separate `contains_key`; both compare the whole line, with
   * no trimming, case folding or parsing. The two always agree: 200 with the
   * mapped file exactly when the line is a key, 404 with the not-found page
   * otherwise.
   */
  function Resolve(routes: map<string, string>, line: string): (sel: Selection)
    ensures sel.status == StatusOk <==> line in routes
    ensures sel.status == StatusNotFound <==> line !in routes
    ensures line in routes ==> sel.file == routes[line]
    ensures line !in routes ==> sel.file == NotFoundPage
  {
    var file := Get(routes, line).GetOr(NotFoundPage);
    var status := if line in routes then StatusOk else StatusNotFound;
    Selection(status, file)
  }

  /** The reply text: status line, `Content-Length` with the byte length of the contents, an empty line, the contents. */
  function Format(status: string, contents: string): string {
    status + "\r\nContent-Length: " + Decimal.Show(|Encode(contents)|) + "\r\n\r\n" + contents
  }

  /** Neither status line contains a carriage return or a non-ASCII character. */
  lemma StatusLinesArePlain()
    ensures IsAscii(StatusOk) && '\r' !in StatusOk
    ensures IsAscii(StatusNotFound) && '\r' !in StatusNotFound
  {
  }

  /**
   * A formatted reply reads back as its status line, a `Content-Length`
   * equal to the byte length of the contents, and a body that is exactly
   * the bytes of the contents: everything after the first empty line.
   */
  lemma ReadFormat(status: string, contents: string)
    requires IsAscii(status) && '\r' !in status
    ensures Read(Encode(Format(status, contents)))
         == Some(Reply(status, |Encode(contents)|, Encode(contents)))
  {
    EncodeFormat(status, contents);
    ReadFramed(status, |Encode(contents)|, Encode(contents));
  }

  /** The reply is the head of the message, the empty line and the contents. */
  lemma FormatIsHeadAndBody(status: string, contents: string)
    ensures Format(status, contents) == Head(status, |Encode(contents)|) + "\r\n\r\n" + contents
  {
    SplitHeaderLine(status, Decimal.Show(|Encode(contents)|), contents);
  }

  lemma SplitHeaderLine(status: string, digits: string, contents: string)
    ensures status + "\r\nContent-Length: " + digits + "\r\n\r\n" + contents
         == (status + CrLf + ContentLengthField + digits) + "\r\n\r\n" + contents
  {
    assert "\r\nContent-Length: " == CrLf + ContentLengthField;
  }

  lemma EncodeHeaderEnd()
    ensures Encode("\r\n\r\n") == HeaderEnd
  {
    EncodeAscii("\r\n\r\n");
  }

  /** The bytes of a reply: those of the head, `CR LF CR LF`, those of the contents. */
  lemma EncodeFormat(status: string, contents: string)
    ensures Encode(Format(status, contents)) == Encode(Head(status, |Encode(contents)|)) + HeaderEnd + Encode(contents)
  {
    var head := Head(status, |Encode(contents)|);
    FormatIsHeadAndBody(status, contents);
    EncodeAppend(head + "\r\n\r\n", contents);
    EncodeAppend(head, "\r\n\r\n");
    EncodeHeaderEnd();
  }

  /**
   * One connection: no reply when no request line can be read or when the
   * selected file cannot be read (`files` holds the readable files and their
   * text); otherwise the bytes of the formatted reply, which read back as
   * the selected status, a `Content-Length` equal to the byte length of the
   * file's contents, and exactly those bytes as the body.
   */
  function HandleConnection(routes: map<string, string>, line: Option<string>, files: map<string, string>)
    : (r: Option<seq<byte>>)
    ensures r.Some? <==> line.Some? && Resolve(routes, line.value).file in files
    ensures r.Some? ==>
      var sel := Resolve(routes, line.value);
      var body := Encode(files[sel.file]);
      Read(r.value) == Some(Reply(sel.status, |body|, body))
  {
    if line.None? then None
    else
      var sel := Resolve(routes, line.value);
      if sel.file !in files then None
      else
        var contents := files[sel.file];
        StatusLinesArePlain();
        ReadFormat(sel.status, contents);
        Some(Encode(Format(sel.status, contents)))
  }

  /**
   * The bytes a connection writes are fixed by what they read back as:
   * the head for the chosen status and the byte length of the file,
   * `CR LF CR LF`, then the file's bytes.
   */
  lemma ReplyBytes(routes: map<string, string>, line: Option<string>, files: map<string, string>)
    requires HandleConnection(routes, line, files).Some?
    ensures var sel := Resolve(routes, line.value);
      var body := Encode(files[sel.file]);
      HandleConnection(routes, line, files).value == Encode(Head(sel.status, |body|)) + HeaderEnd + body
  {
    var sel := Resolve(routes, line.value);
    var body := Encode(files[sel.file]);
    StatusLinesArePlain();
    ReadExact(HandleConnection(routes, line, files).value, sel.status, |body|, body);
  }
}
