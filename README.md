# Swow server adapter for Ubiquity, modelled in Dafny

This project models the request-handling core of `ubiquity-swow`. That is the
glue that lets the Ubiquity PHP framework run on the Swow coroutine HTTP server.
It covers two classes:

- **`SwowServer`** rebuilds PHP's request globals for every incoming PSR-7 request:
  - `$_SERVER`, `$_GET`, `$_POST` and `$_REQUEST`;
  - `$_FILES`, for `multipart/form-data` bodies.

  It then routes the request. An action goes to the framework, a static file is
  served, and anything else gets a plain-text 404. It also keeps a small option
  dictionary.
- **`SwowHttp`** is the framework's HTTP facade for one request. It holds a copy of
  the request headers that can be overwritten, plus a response code. It forwards
  headers and status to the Swow response.

Layout:

- `wrappers.dfy`: `Option`.
- `php_strings.dfy`: the PHP string built-ins the code relies on. These are
  `strtolower`, `strtoupper`, `str_replace` on one character, `strpos`,
  `stripos`, `explode` (with and without a limit of 2), `implode`, `trim` and
  `rtrim($s, "\r\n")`, over byte strings.
- `php_arrays.dfy`: PHP values and ordered arrays, never with a key twice:
  - `$a[$k] = $v`;
  - `array_merge`, which overwrites string keys and renumbers integer keys;
  - the generic `foreach … $a[key] = value` fold.
- `psr7.dfy`: the request as a value. The Swow response is a class with status,
  headers (filed case-insensitively) and body.
- `environment.dfy`: what `populateServerArray` computes, as functions of the
  request and the previous `$_SERVER`.
- `multipart.dfy`: what `parseMultipartData` computes: the boundary, the parts,
  the part headers, the Content-Disposition pattern, and one upload per matching
  part, folded over the parts.
- `multipart_example.dfy`: a one-part body (field `f`, file `t.txt`, content
  `hello`) worked through the parser.
- `swow_http.dfy`: the `SwowHttp` class.
- `swow_server.dfy`: the `Server` class.
  - The superglobals and the temporary upload store are fields.
  - The loops over headers, parts and part-header lines are `while` loops.
  - Each method is proved against the functions above.

Things the code does that are easy to miss, all modelled as written:

- Stale state leaks between requests. `$_POST` is kept for a multipart POST and
  for a POST with an unrecognised content type. `$_FILES` is kept for every
  request that is not a multipart POST.
- `$_GET['c'] = ''` in `handle` is overwritten straight away, because
  `parse_str` replaces `$_GET`. So only an action request ends with a `c` entry,
  unless the query string carried one (`SwowServer.Server.Handle`). `$_REQUEST`
  never sees the action's `c`.
- A part-header line is split on every colon. The value is only the text between
  the first and second colon (`Multipart.HeaderFieldTruncates`). A reader might
  expect the line to be split once, at the first colon; the code splits on every
  colon. For example,
  `filename="C:\a.txt"` loses the upload, because the truncated value no longer
  matches the pattern. The model follows the code.
- `REMOTE_ADDR` and `REMOTE_PORT` never hold the client's address. `run` sets
  them to the listen host and port, and `populateServerArray` carries them over
  unchanged (`Environment.ServerArrayRequestLine`).
- A part equal to `"0"` is skipped like an empty one, because PHP's `empty("0")`
  is true.
- A multipart body whose first line is empty, or which has no CRLF at all, gives
  an empty boundary. `explode` then throws a `ValueError` after `$_FILES` was
  reset. The methods return `ok == false` for this case. `$_REQUEST` is then not
  rebuilt and no route is taken.
- Only the exact method string `POST` reads a body. The content type is matched
  case-insensitively, as a substring, in the order multipart, urlencoded, JSON.

Library and framework calls outside the model are function-typed parameters:

- `parse_str`, `json_decode` (`None` for a failed decode);
- the MIME lookup, `file_get_contents`;
- the framework's dispatcher, taken together with the output it prints;
- the framework's URI parser (a `UriInfo` value).

The clock is a parameter too: `now` for `time()`, and `date` for the formatted
`Date` header.

## Model

| member | source | states |
|---|---|---|
| `SwowServer.Server.GetOption` | src/Ubiquity/servers/swow/SwowServer.php:49-55 | an option set to a non-null value is returned; a missing option, or one set to null, gives the failure `Parameter not found: <key>` |
| `SwowServer.Server.SetOptions` | src/Ubiquity/servers/swow/SwowServer.php:57-59 | the option dictionary becomes exactly the argument; nothing else changes |
| `SwowServer.Server.Init` | src/Ubiquity/servers/swow/SwowServer.php:43-47 | records the base directory; nothing else changes |
| `SwowServer.Server.PopulateServerArray` | src/Ubiquity/servers/swow/SwowServer.php:61-120 | `$_SERVER` becomes `ServerArray` of the old one and the request; `$_GET` is the parsed query; `$_POST` and `$_FILES` follow the branch the method and content type select; on success `$_REQUEST` is `array_merge($_GET, $_POST)`, otherwise it is unchanged |
| `SwowServer.Server.BuildServerVars` | src/Ubiquity/servers/swow/SwowServer.php:62-102 | `$_SERVER` becomes `ServerArray` of the old one and the request; no other global changes |
| `SwowServer.Server.ServerVarsFor` | src/Ubiquity/servers/swow/SwowServer.php:62-102 | the reset array, the header entries, the AJAX entry, the host, port, script and time entries and the content entries, assigned in source order, give exactly `ServerArray` |
| `SwowServer.Server.HeaderVars` | src/Ubiquity/servers/swow/SwowServer.php:77-80 | the header loop keeps the array equal to the fold of the headers processed so far: one `HTTP_` key per header, its values joined with `", "`, a later header overwriting an earlier one |
| `SwowServer.Server.ReadPostBody` | src/Ubiquity/servers/swow/SwowServer.php:104-116 | non-POST clears `$_POST`; urlencoded and JSON decode the body (a failed JSON decode gives `[]`); multipart fills `$_FILES` from `ParseBody` or fails; any other POST leaves `$_POST` and `$_FILES` as they were |
| `SwowServer.Server.ParseMultipartData` | src/Ubiquity/servers/swow/SwowServer.php:122-162 | `$_FILES` is reset; an empty boundary fails with `$_FILES` empty; otherwise `$_FILES` and the temporary store equal `ParseBody` of the body |
| `SwowServer.Server.StoreParts` | src/Ubiquity/servers/swow/SwowServer.php:129-160 | the loop over the parts leaves `$_FILES` and the store equal to `Collect` of what each part yields, in part order, by a loop invariant; no other global changes |
| `SwowServer.Server.ReadPartHeaders` | src/Ubiquity/servers/swow/SwowServer.php:138-142 | the loop over header lines builds exactly `PartHeaders` of the lines |
| `SwowServer.Server.StoreUpload` | src/Ubiquity/servers/swow/SwowServer.php:149-158 | an upload appends one temporary file with the trimmed content and replaces the field's entry (file name, type, new file, error OK, size of the file); no upload changes nothing |
| `SwowServer.Server.Handle` | src/Ubiquity/servers/swow/SwowServer.php:208-239 | a fresh facade over the request and response (code 200, request headers); `$_SERVER` is rebuilt; `$_POST`, `$_FILES` and the store follow the body branch (`BodyRead`); on success `$_REQUEST` is `array_merge` of the parsed query and `$_POST`, and the route's result (`Routed`) holds over the response with the Date header added; on failure `$_GET` is the parsed query, `$_REQUEST` is unchanged, and the response differs from before only by the Date header |
| `SwowServer.Server.OpenRequest` | src/Ubiquity/servers/swow/SwowServer.php:209-212 | a fresh facade with code 200 and the request's headers; the response gains exactly the Date header, with status and body untouched; `$_GET['c']` is cleared to `''`; no other global changes |
| `SwowServer.Server.Route` | src/Ubiquity/servers/swow/SwowServer.php:217-238 | an action (checked first) sets `$_GET['c']` to the uri and appends the dispatcher's output, leaving status and headers alone; otherwise `$_GET` is untouched and a file gets `Content-Type: <mime>; charset=utf-8` and its contents with the status untouched; otherwise status 404, `Content-Type: text/plain; charset=utf-8` and body `<uri> not found!`; in both, no header but Content-Type changes; no other global changes |
| `Environment.HeaderKey` | src/Ubiquity/servers/swow/SwowServer.php:78 | the key is `HTTP_` then the name with each `-` turned to `_` and every other character upper-cased; it has no `-` and no lower-case letter after the prefix |
| `Environment.HeaderKeyIgnoresCase` | src/Ubiquity/servers/swow/SwowServer.php:77-78 | header names that differ only in case give the same key |
| `Environment.FirstValue` | src/Ubiquity/servers/swow/SwowServer.php:84 | `getHeader(...)[0]` is the first value, and null exactly when there is none |
| `Environment.AfterHeadersAt` | src/Ubiquity/servers/swow/SwowServer.php:77-80 | after the header loop a key holds the `", "`-joined values of the last header with that key; other keys keep their reset value |
| `Environment.ServerArrayKeys` | src/Ubiquity/servers/swow/SwowServer.php:62-102 | the new `$_SERVER` has exactly the eleven fixed keys, one key per header, and the AJAX and content keys when those headers exist; nothing else survives from the old array |
| `Environment.ServerArrayRequestLine` | src/Ubiquity/servers/swow/SwowServer.php:62-74 | remote address and port are carried over (null when absent); method, path, query and `HTTP/<version>` are recorded and never overwritten |
| `Environment.ServerArrayHeader` | src/Ubiquity/servers/swow/SwowServer.php:77-85 | an `HTTP_` key holds the joined values of its last header, except `HTTP_X_REQUESTED_WITH`, which holds only the first value when that header exists; a key no header produces is absent |
| `Environment.ServerArrayServerInfo` | src/Ubiquity/servers/swow/SwowServer.php:88-93 | `SERVER_NAME` is the first Host value or `127.0.0.1`; `SERVER_PORT` is the URI port or 80; `SCRIPT_NAME` and `PHP_SELF` are the path; `REQUEST_TIME` is the clock |
| `Environment.ServerArrayContent` | src/Ubiquity/servers/swow/SwowServer.php:97-102 | `CONTENT_TYPE` and `CONTENT_LENGTH` exist exactly when their header does, and hold its first value, overriding any joined value |
| `Environment.BodyKindOfRequest` | src/Ubiquity/servers/swow/SwowServer.php:104-113 | the body branch in terms of the request: non-POST exactly when the method is not `POST`; otherwise multipart, then urlencoded, then JSON, each a case-insensitive substring test that the earlier ones failed |
| `Environment.ServerArrayIdempotent` | src/Ubiquity/servers/swow/SwowServer.php:62-102 | building `$_SERVER` a second time from the same request and clock gives the same array as the first build |
| `Environment.PostAfterIdempotent` | src/Ubiquity/servers/swow/SwowServer.php:104-116 | reading the same body a second time leaves `$_POST` as the first read left it |
| `PhpArrays.MergeStrKey` | src/Ubiquity/servers/swow/SwowServer.php:119 | in `$_REQUEST` a string key holds the `$_POST` value when `$_POST` has it, else the `$_GET` value |
| `PhpArrays.MergeIntPart` | src/Ubiquity/servers/swow/SwowServer.php:119 | the integer-keyed values of `$_REQUEST` are those of `$_GET` then those of `$_POST`, renumbered 0, 1, 2, … |
| `PhpArrays.Set` | src/Ubiquity/servers/swow/SwowServer.php:218 | after `$a[$k] = $v` the key reads `$v`, every other key reads as before, every existing entry keeps its key at its position, a new key is appended as the last entry, and the result is again an array with no key twice |
| `PhpStrings.IndexOf` | src/Ubiquity/servers/swow/SwowServer.php:125 | `strpos` gives the first occurrence, and false exactly when there is none |
| `PhpStrings.Explode` | src/Ubiquity/servers/swow/SwowServer.php:128 | the pieces joined by the delimiter give back the string, no piece contains the delimiter, there is at least one piece, and with more than one the first split is at the leftmost occurrence |
| `PhpStrings.ExplodeEachLeftmost` | src/Ubiquity/servers/swow/SwowServer.php:128 | every split, not only the first, is at the leftmost occurrence of the delimiter in the text from that piece on, so the pieces are exactly those `explode` returns, even for a delimiter that overlaps itself |
| `PhpStrings.ExplodeOnce` | src/Ubiquity/servers/swow/SwowServer.php:135 | with a limit of 2: the text before the leftmost blank line and the rest, or the whole part and nothing when there is no blank line |
| `PhpStrings.TrimCrLfRight` | src/Ubiquity/servers/swow/SwowServer.php:150 | `rtrim($s, "\r\n")` is a prefix of `$s` that does not end in CR or LF, and only CR and LF were removed |
| `PhpStrings.TrimPadding` | src/Ubiquity/servers/swow/SwowServer.php:141 | `trim` removes exactly the surrounding whitespace: padding around a text with kept characters at both ends is all that goes |
| `Multipart.Boundary` | src/Ubiquity/servers/swow/SwowServer.php:125 | the boundary is the body before its first CRLF; it is empty, so `explode` throws, exactly when the body has no CRLF or starts with one |
| `Multipart.HeaderFieldTruncates` | src/Ubiquity/servers/swow/SwowServer.php:140-141 | a line `n:v:rest` gives the lower-cased trimmed name and only the trimmed `v`: the value stops at the second colon |
| `Multipart.HeaderFieldOneColon` | src/Ubiquity/servers/swow/SwowServer.php:140-141 | a line `n:v` with one colon gives the lower-cased trimmed name and the trimmed value |
| `Multipart.HeaderFieldNoColon` | src/Ubiquity/servers/swow/SwowServer.php:140-141 | a line without a colon gives an empty value |
| `Multipart.PartHeadersAt` | src/Ubiquity/servers/swow/SwowServer.php:139-142 | a part's header name holds the value of the last line with that name, and names of no line are absent |
| `Multipart.MatchAtExact` | src/Ubiquity/servers/swow/SwowServer.php:146 | the pattern matches at a position with groups `n`, `f` exactly when `name="n"; filename="f"` starts there, with `n` and `f` non-empty and quote-free |
| `Multipart.MatchIndex` | src/Ubiquity/servers/swow/SwowServer.php:146 | `preg_match` takes the leftmost position where the pattern matches, and fails exactly when it matches nowhere |
| `Multipart.CollectConsistent` | src/Ubiquity/servers/swow/SwowServer.php:149-158 | every `$_FILES` entry names a stored file, has size equal to that file's length and error OK; stored files are never removed or changed |
| `Multipart.CollectLastWins` | src/Ubiquity/servers/swow/SwowServer.php:129-160 | a field's entry comes from the last part that uploads under it (its file name, type and stored content); a field no part uploads keeps its previous entry or stays absent |
| `Multipart.CollectTempCount` | src/Ubiquity/servers/swow/SwowServer.php:149-150 | one temporary file is created per uploading part, even when a later part replaces the entry |
| `Multipart.PartFileYields` | src/Ubiquity/servers/swow/SwowServer.php:130-146 | a part yields an upload exactly when it is not `--\r\n`, empty or `"0"`, has a Content-Disposition line, and the pattern matches the last such line |
| `Multipart.PartFileUpload` | src/Ubiquity/servers/swow/SwowServer.php:144-155 | an upload's field and file name are the pattern's groups in the last Content-Disposition line; its type is the last Content-Type line's value, or `application/octet-stream` without one |
| `Multipart.NoDispositionNoUpload` | src/Ubiquity/servers/swow/SwowServer.php:144 | a part with no header line named Content-Disposition yields no upload |
| `Multipart.PartFileContent` | src/Ubiquity/servers/swow/SwowServer.php:135-150 | the stored content is the part content minus its trailing CR/LF run and never ends in CR or LF |
| `Multipart.ParseBodyFiles` | src/Ubiquity/servers/swow/SwowServer.php:122-162 | a field has an entry exactly when some part uploads under it; the entry is the last such part's, with error OK, a new temporary file (the older ones kept), and a size equal to that file's length |
| `MultipartExample.OneFileBody` | src/Ubiquity/servers/swow/SwowServer.php:122-162 | a body with one part `name="f"; filename="t.txt"` and content `hello` yields exactly one entry: `t.txt`, `application/octet-stream`, error OK, size 5, and a new file holding exactly `hello` |
| `SwowHttpAdapter.HeaderArrayAt` | src/Ubiquity/utils/http/foundation/SwowHttp.php:31 | the facade's header array holds exactly the request's header names, each with its list of values |
| `SwowHttpAdapter.SwowHttp.constructor` | src/Ubiquity/utils/http/foundation/SwowHttp.php:28-32 | a fresh facade keeps the response and request; its headers are the request's; its code is 200; its data is null |
| `SwowHttpAdapter.SwowHttp.GetAllHeaders` | src/Ubiquity/utils/http/foundation/SwowHttp.php:34-36 | returns the facade's current header array |
| `SwowHttpAdapter.SwowHttp.SetDatas` | src/Ubiquity/utils/http/foundation/SwowHttp.php:38-40 | stores nothing and returns null, whatever its argument |
| `SwowHttpAdapter.SwowHttp.Header` | src/Ubiquity/utils/http/foundation/SwowHttp.php:42-48 | always overwrites the entry under the key, whatever `replace` says; takes the code only when it is non-zero; forwards the header to the response; never changes the response status or body |
| `SwowHttpAdapter.SwowHttp.GetResponseCode` | src/Ubiquity/utils/http/foundation/SwowHttp.php:54-56 | returns the facade's code |
| `SwowHttpAdapter.SwowHttp.SetResponseCode` | src/Ubiquity/utils/http/foundation/SwowHttp.php:62-69 | a code sets both the facade's code and the response status and is returned; null returns false and changes nothing |
| `SwowHttpAdapter.SwowHttp.HeadersSent` | src/Ubiquity/utils/http/foundation/SwowHttp.php:71-75 | always false, and changes nothing |
| `SwowHttpAdapter.SwowHttp.GetInput` | src/Ubiquity/utils/http/foundation/SwowHttp.php:77-79 | always null: every method keeps the data null |

## Left out

- `run` (the socket bind and listen, the accept loop, the coroutine per connection, keep-alive, and the back-off on EMFILE/ENFILE/ENOMEM). This is concurrency and network I/O. The model handles one request at a time, as one connection's coroutine does.
- `REQUEST_TIME_FLOAT`: `microtime(true)` is a float clock reading and is not stored. `REQUEST_TIME` is the integer parameter `now`, and the Date header is the preformatted parameter `date`.
- `parse_str`, `json_decode`, `MimeType::getFileMimeType`, `file_get_contents` and `URequest::parseURI` are library or framework calls outside the model. They are function parameters, or a `UriInfo` value for the URI parser. A JSON document that decodes to a scalar cannot be expressed, since the decoder returns an array or nothing. In PHP such a value would make `array_merge` throw.
- `StartupAsync::forward` and the `ob_start`/`ob_get_clean` capture are modelled together as one function from the controller path to the printed text. Anything the controller does to headers or status through the facade is not modelled.
- `Startup::init`, `Startup::setHttpInstance` and the `$config` argument of `init` only hand state to the framework, so they are not modelled.
- `tempnam`, `sys_get_temp_dir`, `file_put_contents` and `filesize` are modelled as a store of file contents. A file is named by its index in the store. Real path names and the `swow_upload_` prefix are not modelled, and the files are never deleted.
- The order of entries in `$_SERVER`, `$_FILES`, the facade's header array and the option array. These are maps here, so order is lost. `$_GET`, `$_POST` and `$_REQUEST` keep their order.
- An array nested as a value (`Value.Arr`) is a plain entry sequence, not constrained to unique keys; the model never looks inside one.
- PHP's conversion of numeric-string keys such as `"1"` to integer keys, in `$_SERVER`, `$_FILES` and the header arrays.
- The body stream's read position. The body is read as one string each time it is needed, which changes nothing here because the second read (for `setDatas`) is ignored.
- The reference parameters `$file` and `$line` of `headersSent`. They are never written.
- How Swow normalises header names and values, and the reason phrase tied to a status code. The response files headers by lower-cased name, and the last value set wins.
- Characters stand for bytes, and case mapping is ASCII only, as PHP 8.2's `strtolower`, `strtoupper` and `stripos` are.
- A second build from the same request does not repeat everything: a multipart body is stored again as new temporary files, so the `$_FILES` temp names and the store change, and `REQUEST_TIME` follows the clock.
- A `Request` may hold two headers whose names differ only in case, which a PSR-7 message cannot hold. On such a request `HasHeader` and `GetHeader` read the first match while the `HTTP_*` loop keeps the last. Such requests are outside the model.
- `SwowServer.Server.Handle`: when populating the globals throws, the model returns `ok == false`. What happens to the connection after that (closing it in `run`) is not modelled.
