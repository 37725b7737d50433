/**
 * The server object: its options, the per-request globals it rebuilds
 * (`$_SERVER`, `$_GET`, `$_POST`, `$_REQUEST`, `$_FILES`), the temporary
 * upload store, and the routing of one request.
 */
module SwowServer {
  import opened Wrappers
  import opened PhpStrings
  import opened PhpArrays
  import opened Psr7
  import opened Environment
  import opened Multipart
  import opened SwowHttpAdapter

  /** A value, or the message of the InvalidArgumentException thrown instead. */
  datatype Outcome<T> = Ok(value: T) | Failure(message: string)

  /** What the framework's URI parser says about a request path. */
  datatype UriInfo = UriInfo(uri: string, isAction: bool, file: bool)

  const NotFoundStatus := 404
  const PlainText := "text/plain; charset=utf-8"
  const Utf8Suffix := "; charset=utf-8"

  /** The response header names the server sets, under the lower-case keys the response files them by. */
  lemma ResponseHeaderKeys()
    ensures ToLower("Date") == "date"
    ensures ToLower("Content-Type") == "content-type"
  {
  }

  /**
   * The body branch of populateServerArray, from `$_POST`, `$_FILES` and the
   * temporary store before it to the three after it and whether it got through:
   * every kind but multipart sets `$_POST` and succeeds; multipart leaves
   * `$_POST` alone and fails, with `$_FILES` reset, exactly when the boundary is empty.
   */
  predicate BodyRead(kind: BodyKind, body: string, parseStr: string -> PhpArray, jsonDecode: string -> Option<PhpArray>,
                     post0: PhpArray, files0: map<string, Upload>, temp0: seq<string>,
                     ok: bool, post: PhpArray, files: map<string, Upload>, temp: seq<string>)
  {
    if kind != MultipartForm then
      && ok
      && post == PostAfter(kind, post0, body, parseStr, jsonDecode)
      && files == files0 && temp == temp0
    else
      && post == post0
      && match ParseBody(body, temp0)
         case None => !ok && files == map[] && temp == temp0
         case Some(st) => ok && files == st.files && temp == st.temp
  }

  class Server {
    var options: map<string, Value>
    var basedir: string
    var httpInstance: SwowHttp?
    /** The superglobals; they outlive a request, so what is not rebuilt leaks into the next one. */
    var serverVars: ServerVars
    var getVars: PhpArray
    var postVars: PhpArray
    var requestVars: PhpArray
    var files: map<string, Upload>
    /** The contents of the temporary files created so far, by creation order. */
    var tempFiles: seq<string>

    constructor ()
      ensures options == map[] && httpInstance == null
      ensures serverVars == map[] && getVars == [] && postVars == [] && requestVars == []
      ensures files == map[] && tempFiles == []
    {
      options := map[];
      basedir := "";
      httpInstance := null;
      serverVars := map[];
      getVars := [];
      postVars := [];
      requestVars := [];
      files := map[];
      tempFiles := [];
    }

    /** Records the directory static files are served from. */
    method Init(dir: string)
      modifies this
      ensures basedir == dir
      ensures options == old(options) && httpInstance == old(httpInstance)
      ensures serverVars == old(serverVars) && getVars == old(getVars) && postVars == old(postVars)
      ensures requestVars == old(requestVars) && files == old(files) && tempFiles == old(tempFiles)
    {
      basedir := dir;
    }

    /** A missing option and an option set to null both throw. */
    method GetOption(key: string) returns (r: Outcome<Value>)
      ensures key in options && options[key] != Null ==> r == Ok(options[key])
      ensures !(key in options && options[key] != Null) ==> r == Failure("Parameter not found: " + key)
    {
      var option := if key in options then options[key] else Null;
      if option == Null {
        return Failure("Parameter not found: " + key);
      }
      return Ok(option);
    }

    method SetOptions(opts: map<string, Value>)
      modifies this
      ensures options == opts
      ensures basedir == old(basedir) && httpInstance == old(httpInstance)
      ensures serverVars == old(serverVars) && getVars == old(getVars) && postVars == old(postVars)
      ensures requestVars == old(requestVars) && files == old(files) && tempFiles == old(tempFiles)
    {
      options := opts;
    }

    /**
     * Resets `$_FILES` and fills it from a multipart body. `ok` is false when
     * the boundary is empty: `explode` then throws, after `$_FILES` was reset.
     */
    method ParseMultipartData(req: Request) returns (ok: bool)
      modifies this
      ensures match ParseBody(req.body, old(tempFiles))
        case None => !ok && files == map[] && tempFiles == old(tempFiles)
        case Some(st) => ok && files == st.files && tempFiles == st.temp
      ensures options == old(options) && basedir == old(basedir) && httpInstance == old(httpInstance)
      ensures serverVars == old(serverVars) && getVars == old(getVars) && postVars == old(postVars)
      ensures requestVars == old(requestVars)
    {
      files := map[];
      var body := req.body;
      var boundary: string;
      match IndexOf(body, "\r\n") {
        case None =>
          return false;
        case Some(i) =>
          if i == 0 {
            return false;
          }
          boundary := body[..i];
      }
      assert Boundary(body) == Some(boundary);
      StoreParts(Explode(boundary, body)[1..]);
      return true;
    }

    /** The loop over the parts after the first boundary: each part read, then its upload stored. */
    method StoreParts(parts: seq<string>)
      modifies this
      ensures Store(files, tempFiles) == Collect(old(Store(files, tempFiles)), Uploads(parts))
      ensures options == old(options) && basedir == old(basedir) && httpInstance == old(httpInstance)
      ensures serverVars == old(serverVars) && getVars == old(getVars) && postVars == old(postVars)
      ensures requestVars == old(requestVars)
    {
      ghost var ups := Uploads(parts);
      ghost var start := Store(files, tempFiles);
      var k := 0;
      while k < |parts|
        invariant 0 <= k <= |parts|
        invariant Store(files, tempFiles) == Collect(start, ups[..k])
        invariant options == old(options) && basedir == old(basedir) && httpInstance == old(httpInstance)
        invariant serverVars == old(serverVars) && getVars == old(getVars) && postVars == old(postVars)
        invariant requestVars == old(requestVars)
      {
        assert ups[..k + 1][..k] == ups[..k];
        var upload := ReadPart(parts[k]);
        StoreUpload(upload);
        k := k + 1;
      }
      assert ups[..|parts|] == ups;
    }

    /** The storing half of a turn: a fresh temporary file and the entry under the field name. */
    method StoreUpload(upload: Option<FilePart>)
      modifies this
      ensures Store(files, tempFiles) == Step(old(Store(files, tempFiles)), upload)
      ensures options == old(options) && basedir == old(basedir) && httpInstance == old(httpInstance)
      ensures serverVars == old(serverVars) && getVars == old(getVars) && postVars == old(postVars)
      ensures requestVars == old(requestVars)
    {
      if upload.Some? {
        var f := upload.value;
        var tmpFile := |tempFiles|;
        tempFiles := tempFiles + [f.content];
        files := files[f.field := Upload(f.filename, f.mediaType, tmpFile, UploadErrOk, |tempFiles[tmpFile]|)];
      }
    }

    /**
     * The loop-body form of `PartFile`, proved equal to it: skip test, header
     * split, header lines, Content-Disposition match.
     */
    static method ReadPart(part: string) returns (upload: Option<FilePart>)
      ensures upload == PartFile(part)
    {
      if part == "--\r\n" || part == "" || part == "0" {
        return None;
      }
      var (rawHeaders, fileContent) := ExplodeOnce("\r\n\r\n", part);
      var headers := ReadPartHeaders(Explode("\r\n", rawHeaders));
      if "content-disposition" !in headers {
        return None;
      }
      var m := DispositionMatch(headers["content-disposition"]);
      if m.None? {
        return None;
      }
      var stored := TrimCrLfRight(fileContent.GetOr(""));
      var mediaType := if "content-type" in headers then headers["content-type"] else DefaultType;
      return Some(FilePart(m.value.0, m.value.1, mediaType, stored));
    }

    /** The loop over a part's header lines. */
    static method ReadPartHeaders(lines: seq<string>) returns (headers: map<string, string>)
      ensures headers == PartHeaders(lines)
    {
      headers := map[];
      var j := 0;
      while j < |lines|
        invariant 0 <= j <= |lines|
        invariant headers == AssignAll(map[], lines[..j], FieldName, FieldValue)
      {
        var name, value := ReadHeaderLine(lines[j]);
        AssignStep(map[], lines, j, FieldName, FieldValue, headers, name, value);
        headers := headers[name := value];
        j := j + 1;
      }
      assert lines[..|lines|] == lines;
    }

    /**
     * The loop-body form of `HeaderField`, proved equal to it: split on every
     * colon, the trimmed lower-cased name and the trimmed second piece.
     */
    static method ReadHeaderLine(line: string) returns (name: string, value: string)
      ensures name == FieldName(line) && value == FieldValue(line)
    {
      var pieces := Explode(":", line);
      name := ToLower(Trim(pieces[0]));
      value := Trim(if |pieces| > 1 then pieces[1] else "");
    }

    /**
     * Rebuilds `$_SERVER`, `$_GET` and `$_POST` from the request and merges
     * the last two into `$_REQUEST`. `ok` is false when a multipart body
     * makes `explode` throw, which leaves `$_REQUEST` as it was.
     */
    method PopulateServerArray(req: Request, now: int, parseStr: string -> PhpArray,
                               jsonDecode: string -> Option<PhpArray>) returns (ok: bool)
      modifies this
      ensures serverVars == ServerArray(old(serverVars), req, now)
      ensures getVars == parseStr(req.uri.query)
      ensures BodyRead(BodyKindOf(serverVars), req.body, parseStr, jsonDecode, old(postVars), old(files), old(tempFiles),
                       ok, postVars, files, tempFiles)
      ensures ok ==> requestVars == Merge(getVars, postVars)
      ensures !ok ==> requestVars == old(requestVars)
      ensures options == old(options) && basedir == old(basedir) && httpInstance == old(httpInstance)
    {
      BuildServerVars(req, now);
      getVars := parseStr(req.uri.query);
      ok := ReadPostBody(req, parseStr, jsonDecode);
      if ok {
        requestVars := Merge(getVars, postVars);
      }
    }

    /** Lines 77-80 of populateServerArray: one `HTTP_` entry per header, a later header overwriting an earlier one. */
    static method HeaderVars(base: ServerVars, headers: seq<Header>) returns (vars: ServerVars)
      ensures vars == AssignAll(base, headers, HeaderEntryKey, HeaderEntryValue)
    {
      vars := base;
      var i := 0;
      while i < |headers|
        invariant 0 <= i <= |headers|
        invariant vars == AssignAll(base, headers[..i], HeaderEntryKey, HeaderEntryValue)
      {
        var h := headers[i];
        AssignStep(base, headers, i, HeaderEntryKey, HeaderEntryValue, vars, HeaderKey(h.name), Str(Implode(", ", h.values)));
        vars := vars[HeaderKey(h.name) := Str(Implode(", ", h.values))];
        i := i + 1;
      }
      assert headers[..|headers|] == headers;
    }

    /** Lines 62-102 of populateServerArray: the new `$_SERVER`, keeping the previous REMOTE_ADDR and REMOTE_PORT (the listen host and port that `run` stores). */
    method BuildServerVars(req: Request, now: int)
      modifies this
      ensures serverVars == ServerArray(old(serverVars), req, now)
      ensures getVars == old(getVars) && postVars == old(postVars) && requestVars == old(requestVars)
      ensures files == old(files) && tempFiles == old(tempFiles)
      ensures options == old(options) && basedir == old(basedir) && httpInstance == old(httpInstance)
    {
      serverVars := ServerVarsFor(serverVars, req, now);
    }

    /** The entries of the new `$_SERVER`, assigned in the order the source writes them. */
    static method ServerVarsFor(previous: ServerVars, req: Request, now: int) returns (vars: ServerVars)
      ensures vars == ServerArray(previous, req, now)
    {
      vars := HeaderVars(BaseVars(previous, req), req.headers);
      if HasHeader(req, "x-requested-with") {
        vars := vars["HTTP_X_REQUESTED_WITH" := FirstValue(GetHeader(req, "x-requested-with"))];
      }
      assert vars == AfterAjax(previous, req);
      vars := vars["SERVER_NAME" := Str(ServerName(req))];
      vars := vars["SERVER_PORT" := Int(req.uri.port.GetOr(DefaultPort))];
      vars := vars["SCRIPT_NAME" := Str(req.uri.path)]["PHP_SELF" := Str(req.uri.path)];
      vars := vars["REQUEST_TIME" := Int(now)];
      assert vars == AfterServerInfo(previous, req, now);
      if HasHeader(req, "content-type") {
        vars := vars["CONTENT_TYPE" := FirstValue(GetHeader(req, "content-type"))];
      }
      if HasHeader(req, "content-length") {
        vars := vars["CONTENT_LENGTH" := FirstValue(GetHeader(req, "content-length"))];
      }
    }

    /**
     * Lines 104-116 of populateServerArray: only a POST reads its body, by the
     * first content type that matches; `ok` is false when multipart parsing throws.
     */
    method ReadPostBody(req: Request, parseStr: string -> PhpArray,
                        jsonDecode: string -> Option<PhpArray>) returns (ok: bool)
      modifies this
      ensures BodyRead(BodyKindOf(serverVars), req.body, parseStr, jsonDecode, old(postVars), old(files), old(tempFiles),
                       ok, postVars, files, tempFiles)
      ensures serverVars == old(serverVars) && getVars == old(getVars) && requestVars == old(requestVars)
      ensures options == old(options) && basedir == old(basedir) && httpInstance == old(httpInstance)
    {
      ok := true;
      if "REQUEST_METHOD" in serverVars && serverVars["REQUEST_METHOD"] == Str("POST") {
        var contentType := ContentTypeVar(serverVars);
        if ContainsIgnoreCase(contentType, "multipart/form-data") {
          ok := ParseMultipartData(req);
        } else if ContainsIgnoreCase(contentType, "application/x-www-form-urlencoded") {
          postVars := parseStr(req.body);
        } else if ContainsIgnoreCase(contentType, "application/json") {
          postVars := jsonDecode(req.body).GetOr([]);
        }
      } else {
        postVars := [];
      }
    }

    /**
     * One request: a fresh facade, the Date header, the globals, then the
     * route. `ok` is false when populating the globals threw, and then no
     * route is taken.
     */
    method Handle(req: Request, response: Response, date: string, now: int, info: UriInfo,
                  parseStr: string -> PhpArray, jsonDecode: string -> Option<PhpArray>,
                  mimeOf: string -> string, readFile: string -> string, forward: string -> string)
      returns (ok: bool)
      modifies this, response
      ensures httpInstance != null && fresh(httpInstance)
      ensures httpInstance.response == response && httpInstance.request == req
      ensures httpInstance.headers == HeaderArray(req.headers) && httpInstance.responseCode == 200
      ensures httpInstance.Valid()
      ensures serverVars == ServerArray(old(serverVars), req, now)
      ensures BodyRead(BodyKindOf(serverVars), req.body, parseStr, jsonDecode, old(postVars), old(files), old(tempFiles),
                       ok, postVars, files, tempFiles)
      ensures ok ==> requestVars == Merge(parseStr(req.uri.query), postVars)
      ensures !ok ==> requestVars == old(requestVars)
      ensures !ok ==>
        && getVars == parseStr(req.uri.query)
        && response.status == old(response.status)
        && response.headers == old(response.headers)["date" := ResponseHeader("Date", date)]
        && response.body == old(response.body)
      ensures ok ==> Routed(old(response.status), old(response.headers)["date" := ResponseHeader("Date", date)],
                            old(response.body), response, parseStr(req.uri.query), info, mimeOf, readFile, forward)
      ensures options == old(options) && basedir == old(basedir)
    {
      OpenRequest(req, response, date);
      ok := PopulateServerArray(req, now, parseStr, jsonDecode);
      if ok {
        Route(req, response, info, mimeOf, readFile, forward);
      }
    }

    /** Lines 209-212 of handle: the facade, the Date header and the cleared controller entry. */
    method OpenRequest(req: Request, response: Response, date: string)
      modifies this, response
      ensures httpInstance != null && fresh(httpInstance)
      ensures httpInstance.response == response && httpInstance.request == req
      ensures httpInstance.headers == HeaderArray(req.headers) && httpInstance.responseCode == 200
      ensures httpInstance.Valid()
      ensures response.headers == old(response.headers)["date" := ResponseHeader("Date", date)]
      ensures response.status == old(response.status) && response.body == old(response.body)
      ensures getVars == Set(old(getVars), StrKey("c"), Str(""))
      ensures serverVars == old(serverVars) && postVars == old(postVars) && requestVars == old(requestVars)
      ensures files == old(files) && tempFiles == old(tempFiles)
      ensures options == old(options) && basedir == old(basedir)
    {
      ResponseHeaderKeys();
      httpInstance := new SwowHttp(response, req);
      response.SetHeader("Date", date);
      getVars := Set(getVars, StrKey("c"), Str(""));
    }

    /**
     * What routing leaves behind, from the response status, headers and body
     * and the `$_GET` array before it: the whole new state of both.
     */
    predicate Routed(status0: int, headers0: map<string, ResponseHeader>, body0: string, response: Response,
                     query: PhpArray, info: UriInfo,
                     mimeOf: string -> string, readFile: string -> string, forward: string -> string)
      reads this, response
    {
      && (info.isAction ==>
        && getVars == Set(query, StrKey("c"), Str(info.uri))
        && response.status == status0
        && response.headers == headers0
        && response.body == body0 + forward(info.uri))
      && (!info.isAction && info.file ==>
        var path := basedir + "/" + info.uri;
        && getVars == query
        && response.status == status0
        && response.headers == headers0["content-type" := ResponseHeader("Content-Type", mimeOf(path) + Utf8Suffix)]
        && response.body == body0 + readFile(path))
      && (!info.isAction && !info.file ==>
        && getVars == query
        && response.status == NotFoundStatus
        && response.headers == headers0["content-type" := ResponseHeader("Content-Type", PlainText)]
        && response.body == body0 + info.uri + " not found!")
    }

    /**
     * The route: an action sets `$_GET['c']` to the uri and appends what the
     * framework's dispatcher prints for it; otherwise a static file gets its
     * MIME type and contents with the status untouched; anything else is a
     * plain-text 404. No other header is touched.
     */
    method Route(req: Request, response: Response, info: UriInfo,
                 mimeOf: string -> string, readFile: string -> string, forward: string -> string)
      requires httpInstance != null && httpInstance.Valid()
      modifies this, response
      ensures Routed(old(response.status), old(response.headers), old(response.body), response, old(getVars),
                     info, mimeOf, readFile, forward)
      ensures serverVars == old(serverVars) && postVars == old(postVars) && requestVars == old(requestVars)
      ensures files == old(files) && tempFiles == old(tempFiles)
      ensures httpInstance == old(httpInstance) && options == old(options) && basedir == old(basedir)
    {
      ResponseHeaderKeys();
      if info.isAction {
        getVars := Set(getVars, StrKey("c"), Str(info.uri));
      } else if info.file {
        var path := basedir + "/" + info.uri;
        response.SetHeader("Content-Type", mimeOf(path) + Utf8Suffix);
        response.Write(readFile(path));
        return;
      } else {
        response.SetStatus(NotFoundStatus);
        response.SetHeader("Content-Type", PlainText);
        response.Write(info.uri + " not found!");
        return;
      }
      var _ := httpInstance.SetDatas(req.body);
      response.Write(forward(info.uri));
    }
  }
}
