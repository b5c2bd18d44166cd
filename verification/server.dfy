/**
 * The server as `main` wires it: the route table built at start-up, then
 * each connection answered from it.
 */
module Server {
  import opened Wrappers
  import opened Utf8
  import opened Routes
  import opened Message
  import opened Connection

  /** The routes a server started on a readable listing of `entries` serves from. */
  function ServedRoutes(entries: seq<Entry>): Table {
    Assemble(BuildTable(entries))
  }

  /** A request line is routed exactly when it is the root key or the key some entry derives. */
  lemma RoutedLines(entries: seq<Entry>, line: string)
    ensures line in ServedRoutes(entries)
        <==> line == RootKey || exists i :: 0 <= i < |entries| && DeriveKey(entries[i].name) == line
  {
    BuildTableContents(entries);
  }

  /** Every routed line has the shape `GET /<target> HTTP/1.1`. */
  lemma RoutedLinesHaveKeyShape(entries: seq<Entry>, line: string)
    requires line in ServedRoutes(entries)
    ensures KeyTarget(line).Some?
  {
    RoutedLines(entries, line);
    if line == RootKey {
      KeyTargetOfShape("");
      assert KeyPrefix + "" + KeySuffix == RootKey;
    } else {
      var i :| 0 <= i < |entries| && DeriveKey(entries[i].name) == line;
      DeriveKeyShape(entries[i].name);
    }
  }

  /**
   * A request line not of the form `GET /<target> HTTP/1.1` (another method,
   * another version, lower case, stray spaces) is answered from the
   * not-found page with a 404 status, whatever the listing held.
   */
  lemma MalformedLineNotFound(entries: seq<Entry>, line: string)
    requires KeyTarget(line).None?
    ensures Resolve(ServedRoutes(entries), line) == Selection(StatusNotFound, NotFoundPage)
  {
    if line in ServedRoutes(entries) {
      RoutedLinesHaveKeyShape(entries, line);
    }
  }

  /** An HTTP/1.0 request for the root is not found: versions are compared as text. */
  lemma Http10RootNotFound(entries: seq<Entry>)
    ensures Resolve(ServedRoutes(entries), "GET / HTTP/1.0") == Selection(StatusNotFound, NotFoundPage)
  {
    var line := "GET / HTTP/1.0";
    assert line[|line| - 1] != KeySuffix[|KeySuffix| - 1];
    assert line[|line| - |KeySuffix|..] != KeySuffix;
    MalformedLineNotFound(entries, line);
  }

  /** When the index page is readable, the root request is answered with it and a 200 status. */
  lemma ServeIndex(entries: seq<Entry>, files: map<string, string>)
    requires IndexPage in files
    ensures HandleConnection(ServedRoutes(entries), Some(RootKey), files).Some?
    ensures Read(HandleConnection(ServedRoutes(entries), Some(RootKey), files).value)
         == Some(Reply(StatusOk, |Encode(files[IndexPage])|, Encode(files[IndexPage])))
  {
  }

  /**
   * The key an entry derives, when no later entry derives it too and it is
   * not the root key, is answered with a 200 status and that entry's file.
   */
  lemma ServeListedPage(entries: seq<Entry>, i: nat, files: map<string, string>)
    requires i < |entries| && IsLastFor(entries, i)
    requires DeriveKey(entries[i].name) != RootKey
    requires entries[i].path in files
    ensures HandleConnection(ServedRoutes(entries), Some(DeriveKey(entries[i].name)), files).Some?
    ensures Read(HandleConnection(ServedRoutes(entries), Some(DeriveKey(entries[i].name)), files).value)
         == Some(Reply(StatusOk, |Encode(files[entries[i].path])|, Encode(files[entries[i].path])))
  {
    BuildTableContents(entries);
  }
}
