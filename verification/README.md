# rsblog request routing and response framing, in Dafny

rsblog is a small static blog server written in Rust. At start-up, `main`
lists the pages directory. Each file name becomes a route key of the form
`GET /<name without .html> HTTP/1.1` that maps to the file's path, and the
root key `GET / HTTP/1.1` is added for `public/index.html`. For every
connection, `handle_connection` compares the first request line, as a
whole, against the table. A match gives `HTTP/1.1 200 OK` with the mapped
file. Any other line gives `HTTP/1.1 404 NOT FOUND` with `public/404.html`.
The reply is written as the status line, one `Content-Length` header, an
empty line, then the file's contents. This is the message layout of section
2.1 of RFC 9112, with the header field of section 8.6 of RFC 9110.

This project models that logic as pure functions over strings, maps and
bytes, and proves properties about it.

- `wrappers.dfy` (`Wrappers`): the `Option` type used for every failing step.
- `strings.dfy` (`Strings`): the leftmost-occurrence search behind
  `match_indices`, and `str::replace`. Replace-all is written as Rust's loop
  over `last_end` and is proved equal to a left-to-right scan.
- `decimal.dfy` (`Decimal`): how `{}` formats a length, with a parser that
  accepts exactly what it writes, and round-trip lemmas.
- `utf8.dfy` (`Utf8`): UTF-8 encoding of text as RFC 3629 lays it out, with
  a validating decoder as its partner. `String::len()` counts these bytes,
  and `as_bytes()` is what gets written to the socket.
- `tables.dfy` (`Tables`): a map filled by repeated `HashMap::insert`, and
  `HashMap::get`.
- `routes.dfy` (`Routes`): key derivation, `filenames_to_paths` and the root
  route that `main` adds.
- `message.dfy` (`Message`): the head of a reply, and a reader that takes a
  reply's bytes apart again. The reader is the partner of the framing.
- `connection.dfy` (`Connection`): `handle_connection`, which covers
  resolution, framing and the two cases where no reply is sent.
- `server.dfy` (`Server`): end-to-end facts about a server started on a
  listing.

I/O is turned into inputs:

- The result of `fs::read_dir` is an `Option<seq<Option<Entry>>>`. The outer
  `None` means the directory cannot be read. An inner `None` means one entry
  failed to read.
- The request line is an `Option<string>`. It is `None` when reading it
  failed or the stream ended.
- The files `fs::read_to_string` can read are a `map` from path to text.
- The reply is the byte sequence handed to `write_all`.

Text is Dafny `string`, a sequence of Unicode scalar values, so
`Content-Length` is the UTF-8 byte count, as it is in Rust.

## Model

| member | source | states |
|---|---|---|
| Strings.ReplaceAll | src/main.rs:118 | `replace(".html", "")`: the result equals the left-to-right scan; it is the input unchanged when the pattern does not occur; with a shorter replacement it is never longer, and strictly shorter once the pattern occurs |
| Strings.ReplaceFrom | src/main.rs:118 | the `last_end` loop of `str::replace`: copy up to the next occurrence, emit the replacement, continue after it, copy the rest; `ReplaceFromIsScan` proves it equal to the left-to-right scan and `ReplaceAll` states its identity and shrink facts |
| Strings.ReplaceFromIsScan | src/main.rs:118 | the find-copy-skip loop of `str::replace`, started at any `last_end`, produces exactly the left-to-right scan that replaces each leftmost non-overlapping occurrence |
| Strings.Find | src/main.rs:118 | the leftmost-occurrence search that `match_indices` performs, from the start: it finds an index exactly when the pattern occurs, the pattern occurs at that index, and it occurs at no earlier index |
| Strings.FindFromIsLeftmost | src/main.rs:118 | the search `replace` runs from `last_end` passes over no occurrence at or after `last_end` |
| Routes.StripExtensionIdentity | src/main.rs:118 | removing `.html` leaves a file name unchanged exactly when it contains no `.html`, and otherwise makes it strictly shorter |
| Routes.DeriveKey | src/main.rs:116-119 | the `format!` of a route key from a file name; `DeriveKeyShape` states its prefix, suffix and stripped target, `DeriveKeyOfPage` and `DeriveKeyOfPlainName` its value for page and plain names, `DeriveKeyCollision` when two names share it |
| Routes.DeriveKeyShape | src/main.rs:116-119 | every derived key starts with `GET /`, ends with ` HTTP/1.1`, and has the name with every `.html` removed between them |
| Routes.DeriveKeyOfPlainName | src/main.rs:116-119 | a file name with no `.html` appears verbatim in its key |
| Routes.DeriveKeyOfPage | src/main.rs:116-119 | any base name that does not contain `.html`, with `.html` appended, derives the key `GET /<base> HTTP/1.1` |
| Routes.DeriveKeyVersioned | src/main.rs:116-119 | `v1.2.html` yields `GET /v1.2 HTTP/1.1`: the dots of the base name are kept |
| Routes.DeriveKeyAbout | src/main.rs:116-119 | `about.html` yields `GET /about HTTP/1.1` |
| Routes.DeriveKeyBareAbout | src/main.rs:116-119 | the bare name `about` yields the same key as `about.html` |
| Routes.DeriveKeyOfBareExtension | src/main.rs:116-119 | a file named `.html` derives exactly the root key `GET / HTTP/1.1` |
| Routes.DeriveKeyCollision | src/main.rs:116-120 | two file names share a key exactly when they agree once `.html` is removed |
| Routes.KeyTargetOfShape | src/main.rs:116-119 | any text placed between `GET /` and ` HTTP/1.1` is recovered by cutting those off again |
| Routes.BuildTable | src/main.rs:111-121 | the insert loop of `filenames_to_paths` over the listed entries, in order; `BuildTableContents` states its keys and the last-entry-wins value under each |
| Routes.BuildTableContents | src/main.rs:111-121 | the built table holds exactly the derived keys of the listed entries, and under each key the path of the last entry in listing order that derives it |
| Routes.FilenamesToPaths | src/main.rs:110-124 | the table is missing exactly when the directory or one of its entries cannot be read; otherwise it is the table built from all entries in order |
| Routes.LaterEntryWins | src/main.rs:111-121 | with `about` listed before `about.html`, the table has one key, `GET /about HTTP/1.1`, and it maps to the later entry's path |
| Routes.Assemble | src/main.rs:19-23 | after the root insert, `GET / HTTP/1.1` maps to `public/index.html`, the keys are the page keys plus the root key, and every other key keeps its page |
| Routes.Startup | src/main.rs:18-30 | start-up yields a table exactly when the listing is readable, and that table always routes `GET / HTTP/1.1` to `public/index.html` |
| Routes.RootRouteOverridesPage | src/main.rs:18-24 | a listing holding only a page named `.html` still serves the index page at the root |
| Tables.InsertAllKeys | src/main.rs:111-121 | repeated inserts leave exactly the inserted keys |
| Tables.InsertAllLastWins | src/main.rs:111-121 | under each key, repeated inserts leave the value of the last insert with that key |
| Tables.Get | src/main.rs:76-79 | `get` yields a value exactly when the key is present, and then it is the mapped value |
| Connection.Resolve | src/main.rs:76-85 | the status is `HTTP/1.1 200 OK` exactly when the whole request line is a key, and then the file is the mapped one; otherwise the status is `HTTP/1.1 404 NOT FOUND` and the file is `public/404.html` |
| Connection.Format | src/main.rs:95-99 | the `format!` of a reply from a status line and the file text; `EncodeFormat` and `ReplyBytes` state its exact bytes, `ReadFormat` that it reads back as that status, the UTF-8 byte length and exactly the text's bytes |
| Connection.ReadFormat | src/main.rs:95-99 | a formatted reply reads back as its status line, a `Content-Length` equal to the UTF-8 byte length of the contents, and, after the first empty line, exactly the bytes of the contents |
| Connection.ReplyBytes | src/main.rs:95-103 | the bytes written for a connection are exactly the status line, `CR LF`, `Content-Length: `, the decimal byte length of the file without leading zeros, `CR LF CR LF`, then the file's bytes |
| Connection.EncodeFormat | src/main.rs:95-99 | the bytes of a reply are those of the status line and header, then `CR LF CR LF`, then those of the contents |
| Connection.HandleConnection | src/main.rs:60-105 | there is no reply exactly when no request line was read or the selected file cannot be read; otherwise the reply's bytes read back as the chosen status line, a `Content-Length` equal to the UTF-8 byte length of the file's text, and exactly those bytes as the body |
| Message.ReadFramed | src/main.rs:95-99 | the head, `CR LF CR LF` and any body read back as the same status line, the advertised length and exactly that body |
| Message.ReadExact | src/main.rs:95-99 | a reply that reads back as an ASCII status line, a length and a body is byte for byte the one the server writes for them, so the reader accepts no other spelling of a reply |
| Message.FindHeaderEnd | src/main.rs:96 | in a framed reply the first `CR LF CR LF` is the one right after the `Content-Length` value |
| Decimal.Show | src/main.rs:96-97 | the length is written in digits only, never empty, with a leading zero only for zero |
| Decimal.Parse | src/main.rs:96-97 | the reader accepts a length exactly when it is a non-empty run of digits with no leading zero, the only form `{}` writes |
| Decimal.ParseShow | src/main.rs:96-97 | reading the written length back gives the length |
| Decimal.ShowValueOf | src/main.rs:96-97 | a digit string with no leading zero is exactly how its value is written |
| Utf8.Encode | src/main.rs:97 | the byte length of a text is between one and four times its character count, and equals the character count exactly when the text is ASCII |
| Utf8.EncodeChar | src/main.rs:97 | each character takes the number of bytes its code-point range gets in the table of section 3 of RFC 3629 (1 below U+0080, 2 below U+0800, 3 below U+10000, else 4); one byte equal to the code point exactly for ASCII; a lead byte in C2-DF, E0-EF or F0-F4 for 2, 3 or 4 bytes; every later byte in 80-BF |
| Utf8.EncodeLength | src/main.rs:97 | `contents.len()`, the byte length of a text, is the sum of its characters' widths by code-point range |
| Utf8.AccentedLength | src/main.rs:97 | `é` is written as the two bytes C3 A9, so it counts 2 towards `Content-Length` |
| Utf8.DecodeEncodeChar | src/main.rs:103 | the validating decoder of section 4 of RFC 3629 gives back the character from the bytes written for it |
| Utf8.EncodeDecodeChar | src/main.rs:103 | any byte sequence the validating decoder accepts as a character is exactly that character's encoding, so overlong forms and wrong markers are not encodings |
| Utf8.DecodeEncode | src/main.rs:103 | decoding the bytes written for a text gives the text back |
| Utf8.EncodeAppend | src/main.rs:95-103 | the bytes of a concatenation are the concatenated bytes |
| Server.RoutedLines | src/main.rs:76-85 | on a started server, a request line is routed exactly when it is the root key or a key derived from some listed entry |
| Server.MalformedLineNotFound | src/main.rs:76-85 | a request line not of the form `GET /<target> HTTP/1.1` always gets the 404 status and `public/404.html` |
| Server.Http10RootNotFound | src/main.rs:77-85 | `GET / HTTP/1.0` is not found: the version is compared as text, with no request-line parsing |
| Server.ServeIndex | src/main.rs:18-24 | when the index page is readable, the root request is answered with status 200 and the index page as the body |
| Server.ServeListedPage | src/main.rs:110-121 | when entry `i` is the last listed entry to derive its key, that key is not `GET / HTTP/1.1`, and the entry's file is readable, the request line equal to that key gets a reply that reads back as status 200 with that file's bytes as the body |

## Left out

- `src/lib.rs` (`ThreadPool`, `Worker`, `Drop`): it exists only for concurrency. Its queueing, blocking and join behaviour lives in `std::sync::mpsc`, `Mutex` and `thread`, which are not modelled. Each connection is modelled as one independent call.
- The TCP bind and accept loop, including the retry on `ErrorKind::Interrupted` and the stop on other errors (src/main.rs:36-57): socket I/O.
- `Arc` sharing of the route table (src/main.rs:24, src/main.rs:45): it has no behavioural content. The table is passed by value.
- All `println!` and `eprintln!` output, including the second space-separated token of the request line, which only feeds a log line (src/main.rs:100-102).
- The print loop over the route table (src/main.rs:32-34): logging only.
- Skipping of entries whose file name is missing or not UTF-8 (src/main.rs:115): entries are modelled with decoded names.
- How `entry.path()` joins the directory and the name: the displayed path is part of each entry in the input.
- A failure of `write_all` (src/main.rs:103-105): it is only logged. The model returns the bytes that are handed to it.
- Line reading by `BufReader::lines`: the request line arrives with its line ending already removed. A read error and an empty stream both become `None`.
- `fs::read_to_string` failing on a file that is not valid UTF-8: such a file is simply absent from the map of readable files.
- Strings.ReplaceAll: it requires a non-empty pattern. Rust's behaviour for an empty pattern is not modelled, because the source only ever replaces `.html`.
