/**
 * What `populateServerArray` computes, as functions of the request: the new
 * `$_SERVER` array and which branch fills `$_POST`. The server class proves
 * its in-place updates against these.
 */
module Environment {
  import opened Wrappers
  import opened PhpStrings
  import opened PhpArrays
  import opened Psr7

  /** `$_SERVER`: every key is a string, so key order aside it is a map. */
  type ServerVars = map<string, Value>

  const FallbackHost := "127.0.0.1"
  const DefaultPort := 80

  /** The `$_SERVER` key under which a request header is published. */
  function HeaderKey(name: string): (k: string)
    ensures |k| == |name| + 5 && k[..5] == "HTTP_"
    ensures forall i :: 5 <= i < |k| ==> k[i] != '-' && !('a' <= k[i] <= 'z')
    ensures forall i :: 0 <= i < |name| && name[i] != '-' ==> k[i + 5] == UpperChar(name[i])
    ensures forall i :: 0 <= i < |name| && name[i] == '-' ==> k[i + 5] == '_'
  {
    "HTTP_" + ToUpper(ReplaceChar(name, '-', '_'))
  }

  /** A header's key does not depend on the case in which its name was sent. */
  lemma HeaderKeyIgnoresCase(a: string, b: string)
    requires SameName(a, b)
    ensures HeaderKey(a) == HeaderKey(b)
  {
    var ua, ub := ToUpper(ReplaceChar(a, '-', '_')), ToUpper(ReplaceChar(b, '-', '_'));
    assert |a| == |b| by {
      assert |ToLower(a)| == |ToLower(b)|;
    }
    forall i | 0 <= i < |a|
      ensures ua[i] == ub[i]
    {
      assert LowerChar(a[i]) == LowerChar(b[i]) by {
        assert ToLower(a)[i] == ToLower(b)[i];
      }
      SameLowerSameKeyChar(a[i], b[i]);
    }
    assert ua == ub;
  }

  lemma SameLowerSameKeyChar(x: char, y: char)
    requires LowerChar(x) == LowerChar(y)
    ensures UpperChar(if x == '-' then '_' else x) == UpperChar(if y == '-' then '_' else y)
  {
  }

  function HeaderEntryKey(h: Header): string {
    HeaderKey(h.name)
  }

  /** All of a header's values, joined with ", ". */
  function HeaderEntryValue(h: Header): Value {
    Str(Implode(", ", h.values))
  }

  /** `$request->getHeader($name)[0]`: null when the list is empty. */
  function FirstValue(values: seq<string>): (v: Value)
    ensures values == [] <==> v == Null
    ensures values != [] ==> v == Str(values[0])
  {
    if |values| > 0 then Str(values[0]) else Null
  }

  /** `$old[$k]` when building the new array: null when it was never set. */
  function Carried(previous: ServerVars, k: string): Value {
    if k in previous then previous[k] else Null
  }

  /** The array `$_SERVER` is reset to, with the request line entries. */
  function BaseVars(previous: ServerVars, req: Request): ServerVars {
    map[
      "REMOTE_ADDR" := Carried(previous, "REMOTE_ADDR"),
      "REMOTE_PORT" := Carried(previous, "REMOTE_PORT"),
      "REQUEST_METHOD" := Str(req.verb),
      "REQUEST_URI" := Str(req.uri.path),
      "QUERY_STRING" := Str(req.uri.query),
      "SERVER_PROTOCOL" := Str("HTTP/" + req.protocolVersion)
    ]
  }

  /** The entries every request gets, whatever its headers. */
  const FixedKeys: set<string> := {
    "REMOTE_ADDR", "REMOTE_PORT", "REQUEST_METHOD", "REQUEST_URI", "QUERY_STRING",
    "SERVER_PROTOCOL", "SERVER_NAME", "SERVER_PORT", "SCRIPT_NAME", "PHP_SELF", "REQUEST_TIME"
  }

  /** `$_SERVER` after the header loop. */
  function AfterHeaders(previous: ServerVars, req: Request): ServerVars {
    AssignAll(BaseVars(previous, req), req.headers, HeaderEntryKey, HeaderEntryValue)
  }

  /** `$_SERVER` after the X-Requested-With entry. */
  function AfterAjax(previous: ServerVars, req: Request): ServerVars {
    var e := AfterHeaders(previous, req);
    if HasHeader(req, "x-requested-with")
    then e["HTTP_X_REQUESTED_WITH" := FirstValue(GetHeader(req, "x-requested-with"))]
    else e
  }

  /** The host name: the first Host value, or the fallback host. */
  function ServerName(req: Request): string {
    var hosts := GetHeader(req, "host");
    if |hosts| > 0 then hosts[0] else FallbackHost
  }

  /** `$_SERVER` after the host, port, script and time entries. */
  function AfterServerInfo(previous: ServerVars, req: Request, now: int): ServerVars {
    AfterAjax(previous, req)
      ["SERVER_NAME" := Str(ServerName(req))]
      ["SERVER_PORT" := Int(req.uri.port.GetOr(DefaultPort))]
      ["SCRIPT_NAME" := Str(req.uri.path)]
      ["PHP_SELF" := Str(req.uri.path)]
      ["REQUEST_TIME" := Int(now)]
  }

  /** `$_SERVER` after the content entries, which is its final value. */
  function ServerArray(previous: ServerVars, req: Request, now: int): ServerVars {
    var e := AfterServerInfo(previous, req, now);
    var e' := if HasHeader(req, "content-type")
              then e["CONTENT_TYPE" := FirstValue(GetHeader(req, "content-type"))]
              else e;
    if HasHeader(req, "content-length")
    then e'["CONTENT_LENGTH" := FirstValue(GetHeader(req, "content-length"))]
    else e'
  }

  /** Two strings differ when some character does. */
  lemma DifferAt(a: string, b: string, i: nat)
    requires i < |a| && i < |b| && a[i] != b[i]
    ensures a != b
  {
  }

  /** The names of the fixed entries are pairwise distinct. */
  lemma FixedNamesDistinct()
    ensures "REMOTE_ADDR" != "REMOTE_PORT" && "REMOTE_ADDR" != "REQUEST_URI" && "REMOTE_PORT" != "REQUEST_URI"
    ensures "SERVER_NAME" != "SERVER_PORT" && "SERVER_NAME" != "SCRIPT_NAME" && "SERVER_PORT" != "SCRIPT_NAME"
    ensures "REMOTE_ADDR" != "SERVER_NAME" && "REMOTE_ADDR" != "SERVER_PORT" && "REMOTE_ADDR" != "SCRIPT_NAME"
    ensures "REMOTE_PORT" != "SERVER_NAME" && "REMOTE_PORT" != "SERVER_PORT" && "REMOTE_PORT" != "SCRIPT_NAME"
    ensures "REQUEST_URI" != "SERVER_NAME" && "REQUEST_URI" != "SERVER_PORT" && "REQUEST_URI" != "SCRIPT_NAME"
    ensures "QUERY_STRING" != "REQUEST_TIME" && "QUERY_STRING" != "CONTENT_TYPE" && "REQUEST_TIME" != "CONTENT_TYPE"
    ensures "REQUEST_METHOD" != "CONTENT_LENGTH"
  {
    DifferAt("REMOTE_ADDR", "REMOTE_PORT", 7);
    DifferAt("REMOTE_ADDR", "REQUEST_URI", 2);
    DifferAt("REMOTE_PORT", "REQUEST_URI", 2);
    DifferAt("SERVER_NAME", "SERVER_PORT", 7);
    DifferAt("SERVER_NAME", "SCRIPT_NAME", 1);
    DifferAt("SERVER_PORT", "SCRIPT_NAME", 1);
    var rs, ts := ["REMOTE_ADDR", "REMOTE_PORT", "REQUEST_URI"], ["SERVER_NAME", "SERVER_PORT", "SCRIPT_NAME"];
    forall i, j | 0 <= i < 3 && 0 <= j < 3 ensures rs[i] != ts[j] {
      DifferAt(rs[i], ts[j], 0);
    }
    DifferAt("QUERY_STRING", "REQUEST_TIME", 0);
    DifferAt("QUERY_STRING", "CONTENT_TYPE", 0);
    DifferAt("REQUEST_TIME", "CONTENT_TYPE", 0);
    DifferAt("REQUEST_METHOD", "CONTENT_LENGTH", 0);
  }

  /** A key with the HTTP_ prefix is none of the fixed or content entries. */
  lemma HttpKeyNotFixed(k: string)
    requires HasHttpPrefix(k)
    ensures k !in FixedKeys && k != "CONTENT_TYPE" && k != "CONTENT_LENGTH"
  {
    assert k[0] == 'H' by {
      assert k[..5][0] == "HTTP_"[0];
    }
    forall f | f in FixedKeys + {"CONTENT_TYPE", "CONTENT_LENGTH"} ensures k != f {
      DifferAt(k, f, 0);
    }
  }

  predicate IsHeaderKey(req: Request, k: string) {
    exists i :: 0 <= i < |req.headers| && HeaderKey(req.headers[i].name) == k
  }

  predicate HasHttpPrefix(k: string) {
    |k| >= 5 && k[..5] == "HTTP_"
  }

  /** After the header loop, a key holds the joined values of the last header with that key, or its reset value. */
  lemma {:induction false} AfterHeadersAt(previous: ServerVars, req: Request, k: string)
    ensures var e := AfterHeaders(previous, req);
      match LastWithKey(req.headers, HeaderEntryKey, k)
      case Some(j) => k in e && e[k] == HeaderEntryValue(req.headers[j])
      case None => !IsHeaderKey(req, k) && (k in e <==> k in BaseVars(previous, req)) &&
                   (k in e ==> e[k] == BaseVars(previous, req)[k])
  {
    AssignAllAt(BaseVars(previous, req), req.headers, HeaderEntryKey, HeaderEntryValue, k);
  }

  /** A key without the HTTP_ prefix is never a header key. */
  lemma NotHeaderKey(req: Request, k: string)
    requires k in FixedKeys || k == "CONTENT_TYPE" || k == "CONTENT_LENGTH"
    ensures LastWithKey(req.headers, HeaderEntryKey, k).None?
  {
    var r := LastWithKey(req.headers, HeaderEntryKey, k);
    if r.Some? {
      HttpKeyNotFixed(HeaderKey(req.headers[r.value].name));
    }
  }

  /**
   * The rebuilt `$_SERVER` holds the fixed entries, one entry per header key,
   * and the optional AJAX and content entries, and nothing of the previous
   * array but the remote address and port.
   */
  lemma {:induction false} ServerArrayKeys(previous: ServerVars, req: Request, now: int, k: string)
    ensures k in ServerArray(previous, req, now) <==>
      k in FixedKeys || IsHeaderKey(req, k)
      || (k == "HTTP_X_REQUESTED_WITH" && HasHeader(req, "x-requested-with"))
      || (k == "CONTENT_TYPE" && HasHeader(req, "content-type"))
      || (k == "CONTENT_LENGTH" && HasHeader(req, "content-length"))
  {
    AfterHeadersAt(previous, req, k);
    if LastWithKey(req.headers, HeaderEntryKey, k).Some? {
      var j := LastWithKey(req.headers, HeaderEntryKey, k).value;
      assert HeaderKey(req.headers[j].name) == k;
    }
  }

  /** The content entries are the last ones written: every other key reads as after the host entries. */
  lemma ServerArrayOther(previous: ServerVars, req: Request, now: int, k: string)
    requires k != "CONTENT_TYPE" && k != "CONTENT_LENGTH"
    ensures k in ServerArray(previous, req, now) <==> k in AfterServerInfo(previous, req, now)
    ensures k in ServerArray(previous, req, now) ==>
      ServerArray(previous, req, now)[k] == AfterServerInfo(previous, req, now)[k]
  {
  }

  /** The host entries come after the AJAX entry: every other key reads as after the AJAX entry. */
  lemma AfterServerInfoOther(previous: ServerVars, req: Request, now: int, k: string)
    requires k !in {"SERVER_NAME", "SERVER_PORT", "SCRIPT_NAME", "PHP_SELF", "REQUEST_TIME"}
    ensures k in AfterServerInfo(previous, req, now) <==> k in AfterAjax(previous, req)
    ensures k in AfterServerInfo(previous, req, now) ==>
      AfterServerInfo(previous, req, now)[k] == AfterAjax(previous, req)[k]
  {
  }

  /** The request-line entries and the carried remote address survive to the final array. */
  lemma ServerArrayRequestLine(previous: ServerVars, req: Request, now: int)
    ensures var s := ServerArray(previous, req, now);
      && "REMOTE_ADDR" in s && s["REMOTE_ADDR"] == Carried(previous, "REMOTE_ADDR")
      && "REMOTE_PORT" in s && s["REMOTE_PORT"] == Carried(previous, "REMOTE_PORT")
      && "REQUEST_METHOD" in s && s["REQUEST_METHOD"] == Str(req.verb)
      && "REQUEST_URI" in s && s["REQUEST_URI"] == Str(req.uri.path)
      && "QUERY_STRING" in s && s["QUERY_STRING"] == Str(req.uri.query)
      && "SERVER_PROTOCOL" in s && s["SERVER_PROTOCOL"] == Str("HTTP/" + req.protocolVersion)
  {
    var base := BaseVars(previous, req);
    FixedNamesDistinct();
    assert base["REMOTE_ADDR"] == Carried(previous, "REMOTE_ADDR");
    assert base["REMOTE_PORT"] == Carried(previous, "REMOTE_PORT");
    assert base["REQUEST_METHOD"] == Str(req.verb);
    assert base["REQUEST_URI"] == Str(req.uri.path);
    assert base["QUERY_STRING"] == Str(req.uri.query);
    assert base["SERVER_PROTOCOL"] == Str("HTTP/" + req.protocolVersion);
    BaseKeyKept(previous, req, now, "REMOTE_ADDR");
    BaseKeyKept(previous, req, now, "REMOTE_PORT");
    BaseKeyKept(previous, req, now, "REQUEST_METHOD");
    BaseKeyKept(previous, req, now, "REQUEST_URI");
    BaseKeyKept(previous, req, now, "QUERY_STRING");
    BaseKeyKept(previous, req, now, "SERVER_PROTOCOL");
  }

  /** An entry of the reset array is overwritten by nothing after it. */
  lemma BaseKeyKept(previous: ServerVars, req: Request, now: int, k: string)
    requires k in BaseVars(previous, req)
    ensures k in ServerArray(previous, req, now)
    ensures ServerArray(previous, req, now)[k] == BaseVars(previous, req)[k]
  {
    BaseKeyLater(k);
    NotHeaderKey(req, k);
    AfterHeadersAt(previous, req, k);
    AfterServerInfoOther(previous, req, now, k);
    ServerArrayOther(previous, req, now, k);
  }

  /** The keys of the reset array are fixed keys that no later assignment writes. */
  lemma BaseKeyLater(k: string)
    requires k in {"REMOTE_ADDR", "REMOTE_PORT", "REQUEST_METHOD", "REQUEST_URI", "QUERY_STRING", "SERVER_PROTOCOL"}
    ensures k in FixedKeys
    ensures k !in {"SERVER_NAME", "SERVER_PORT", "SCRIPT_NAME", "PHP_SELF", "REQUEST_TIME"}
    ensures k != "CONTENT_TYPE" && k != "CONTENT_LENGTH" && k != "HTTP_X_REQUESTED_WITH"
  {
    DifferAt("REMOTE_ADDR", "REQUEST_TIME", 2);
    DifferAt("REMOTE_PORT", "REQUEST_TIME", 2);
    DifferAt("REQUEST_METHOD", "REQUEST_TIME", 8);
    DifferAt("REQUEST_URI", "REQUEST_TIME", 8);
    DifferAt("SERVER_PROTOCOL", "SERVER_NAME", 7);
    DifferAt("SERVER_PROTOCOL", "SERVER_PORT", 8);
    DifferAt("SERVER_PROTOCOL", "SCRIPT_NAME", 1);
  }

  /** Host, port, script and time entries, with the fallback host and port 80 as defaults. */
  lemma ServerArrayServerInfo(previous: ServerVars, req: Request, now: int)
    ensures var s := ServerArray(previous, req, now);
      && "SERVER_NAME" in s
      && s["SERVER_NAME"] == Str(if |GetHeader(req, "host")| > 0 then GetHeader(req, "host")[0] else "127.0.0.1")
      && "SERVER_PORT" in s
      && s["SERVER_PORT"] == Int(if req.uri.port.Some? then req.uri.port.value else 80)
      && "SCRIPT_NAME" in s && s["SCRIPT_NAME"] == Str(req.uri.path)
      && "PHP_SELF" in s && s["PHP_SELF"] == Str(req.uri.path)
      && "REQUEST_TIME" in s && s["REQUEST_TIME"] == Int(now)
  {
    ServerInfoValues(AfterAjax(previous, req), Str(ServerName(req)), Int(req.uri.port.GetOr(DefaultPort)),
                     Str(req.uri.path), Int(now));
    ServerInfoKept(previous, req, now, "SERVER_NAME");
    ServerInfoKept(previous, req, now, "SERVER_PORT");
    ServerInfoKept(previous, req, now, "SCRIPT_NAME");
    ServerInfoKept(previous, req, now, "PHP_SELF");
    ServerInfoKept(previous, req, now, "REQUEST_TIME");
  }

  /** The five host, port, script and time assignments, made to any array, read back as written. */
  lemma ServerInfoValues(m: ServerVars, name: Value, port: Value, path: Value, time: Value)
    ensures var e := m["SERVER_NAME" := name]["SERVER_PORT" := port]["SCRIPT_NAME" := path]
                      ["PHP_SELF" := path]["REQUEST_TIME" := time];
      && e["SERVER_NAME"] == name && e["SERVER_PORT"] == port
      && e["SCRIPT_NAME"] == path && e["PHP_SELF"] == path && e["REQUEST_TIME"] == time
  {
    FixedNamesDistinct();
    DifferAt("PHP_SELF", "REQUEST_TIME", 0);
    DifferAt("SERVER_NAME", "REQUEST_TIME", 0);
    DifferAt("SERVER_PORT", "REQUEST_TIME", 0);
    DifferAt("SCRIPT_NAME", "REQUEST_TIME", 0);
    DifferAt("SERVER_NAME", "PHP_SELF", 0);
    DifferAt("SERVER_PORT", "PHP_SELF", 0);
    DifferAt("SCRIPT_NAME", "PHP_SELF", 0);
  }

  /** A host, port, script or time entry is not overwritten by the content entries. */
  lemma ServerInfoKept(previous: ServerVars, req: Request, now: int, k: string)
    requires k in {"SERVER_NAME", "SERVER_PORT", "SCRIPT_NAME", "PHP_SELF", "REQUEST_TIME"}
    ensures k in ServerArray(previous, req, now)
    ensures ServerArray(previous, req, now)[k] == AfterServerInfo(previous, req, now)[k]
  {
    DifferAt(k, "CONTENT_TYPE", 0);
    DifferAt(k, "CONTENT_LENGTH", 0);
    ServerArrayOther(previous, req, now, k);
  }

  /**
   * A header key holds all values of the last header with that key, joined
   * with ", ", except X-Requested-With, which holds only its first value.
   */
  lemma {:induction false} ServerArrayHeader(previous: ServerVars, req: Request, now: int, k: string)
    requires HasHttpPrefix(k)
    ensures var s := ServerArray(previous, req, now);
      if k == "HTTP_X_REQUESTED_WITH" && HasHeader(req, "x-requested-with") then
        k in s && s[k] == FirstValue(GetHeader(req, "x-requested-with"))
      else match LastWithKey(req.headers, HeaderEntryKey, k)
        case Some(j) => k in s && s[k] == Str(Implode(", ", req.headers[j].values))
        case None => k !in s
  {
    AfterHeadersAt(previous, req, k);
    HttpKeyNotFixed(k);
    AfterServerInfoOther(previous, req, now, k);
    ServerArrayOther(previous, req, now, k);
  }

  /** CONTENT_TYPE and CONTENT_LENGTH hold the first value of their header, and exist only with it. */
  lemma ServerArrayContent(previous: ServerVars, req: Request, now: int)
    ensures var s := ServerArray(previous, req, now);
      && ("CONTENT_TYPE" in s <==> HasHeader(req, "content-type"))
      && ("CONTENT_TYPE" in s ==> s["CONTENT_TYPE"] == FirstValue(GetHeader(req, "content-type")))
      && ("CONTENT_LENGTH" in s <==> HasHeader(req, "content-length"))
      && ("CONTENT_LENGTH" in s ==> s["CONTENT_LENGTH"] == FirstValue(GetHeader(req, "content-length")))
  {
    var e := AfterServerInfo(previous, req, now);
    NoContentBefore(previous, req, now, "CONTENT_TYPE");
    NoContentBefore(previous, req, now, "CONTENT_LENGTH");
    assert "CONTENT_TYPE" != "CONTENT_LENGTH";
  }

  /** Before the content entries, neither content key has been written. */
  lemma NoContentBefore(previous: ServerVars, req: Request, now: int, k: string)
    requires k == "CONTENT_TYPE" || k == "CONTENT_LENGTH"
    ensures k !in AfterServerInfo(previous, req, now)
  {
    ContentKeyLater(k);
    BaseVarsFixed(previous, req);
    NotHeaderKey(req, k);
    AfterHeadersAt(previous, req, k);
    AfterServerInfoOther(previous, req, now, k);
  }

  /** The content keys are neither fixed keys nor the AJAX key. */
  lemma ContentKeyLater(k: string)
    requires k == "CONTENT_TYPE" || k == "CONTENT_LENGTH"
    ensures k !in FixedKeys && k != "HTTP_X_REQUESTED_WITH"
    ensures k !in {"SERVER_NAME", "SERVER_PORT", "SCRIPT_NAME", "PHP_SELF", "REQUEST_TIME"}
  {
    forall f | f in FixedKeys + {"HTTP_X_REQUESTED_WITH"} ensures k != f {
      DifferAt(k, f, 0);
    }
  }

  /** The reset array holds fixed keys only. */
  lemma BaseVarsFixed(previous: ServerVars, req: Request)
    ensures BaseVars(previous, req).Keys <= FixedKeys
  {
  }

  /** Which branch of the POST handling a request takes. */
  datatype BodyKind = NotPost | MultipartForm | UrlEncodedForm | JsonBody | OtherBody

  /** $_SERVER['CONTENT_TYPE'] ?? '' */
  function ContentTypeVar(server: ServerVars): string {
    if "CONTENT_TYPE" in server && server["CONTENT_TYPE"].Str? then server["CONTENT_TYPE"].s else ""
  }

  /** The branch taken, read from `$_SERVER` as the source does. */
  function BodyKindOf(server: ServerVars): BodyKind {
    if !("REQUEST_METHOD" in server && server["REQUEST_METHOD"] == Str("POST")) then NotPost
    else
      var ct := ContentTypeVar(server);
      if ContainsIgnoreCase(ct, "multipart/form-data") then MultipartForm
      else if ContainsIgnoreCase(ct, "application/x-www-form-urlencoded") then UrlEncodedForm
      else if ContainsIgnoreCase(ct, "application/json") then JsonBody
      else OtherBody
  }

  /** The content type the branch is chosen on: the first Content-Type value, or "". */
  function RequestContentType(req: Request): string {
    var cts := GetHeader(req, "content-type");
    if |cts| > 0 then cts[0] else ""
  }

  /**
   * The branch in terms of the request: only an exact "POST" parses a body;
   * the content type is searched case-insensitively for multipart first,
   * then urlencoded, then JSON.
   */
  lemma BodyKindOfRequest(previous: ServerVars, req: Request, now: int)
    ensures var kind := BodyKindOf(ServerArray(previous, req, now));
      var ct := RequestContentType(req);
      && (kind == NotPost <==> req.verb != "POST")
      && (kind == MultipartForm <==> req.verb == "POST" && ContainsIgnoreCase(ct, "multipart/form-data"))
      && (kind == UrlEncodedForm <==> req.verb == "POST" && !ContainsIgnoreCase(ct, "multipart/form-data")
                                      && ContainsIgnoreCase(ct, "application/x-www-form-urlencoded"))
      && (kind == JsonBody <==> req.verb == "POST" && !ContainsIgnoreCase(ct, "multipart/form-data")
                                && !ContainsIgnoreCase(ct, "application/x-www-form-urlencoded")
                                && ContainsIgnoreCase(ct, "application/json"))
  {
    ServerArrayRequestLine(previous, req, now);
    ServerArrayContent(previous, req, now);
  }

  /**
   * Building `$_SERVER` twice from the same request and clock gives the same
   * array: the second build only rewrites what the first one wrote.
   */
  lemma ServerArrayIdempotent(previous: ServerVars, req: Request, now: int)
    ensures ServerArray(ServerArray(previous, req, now), req, now) == ServerArray(previous, req, now)
  {
    ServerArrayRequestLine(previous, req, now);
    assert BaseVars(ServerArray(previous, req, now), req) == BaseVars(previous, req);
  }

  /**
   * `$_POST` after the branch: cleared for a non-POST request, decoded for
   * urlencoded and JSON bodies (a failed JSON decode gives an empty array),
   * and left as it was for multipart and any other content type.
   */
  function PostAfter(kind: BodyKind, previous: PhpArray, body: string,
                     parseStr: string -> PhpArray, jsonDecode: string -> Option<PhpArray>): PhpArray
  {
    match kind
    case NotPost => []
    case UrlEncodedForm => parseStr(body)
    case JsonBody => jsonDecode(body).GetOr([])
    case MultipartForm => previous
    case OtherBody => previous
  }

  /** Reading the same body a second time leaves `$_POST` as the first read left it. */
  lemma PostAfterIdempotent(kind: BodyKind, previous: PhpArray, body: string,
                            parseStr: string -> PhpArray, jsonDecode: string -> Option<PhpArray>)
    ensures PostAfter(kind, PostAfter(kind, previous, body, parseStr, jsonDecode), body, parseStr, jsonDecode)
         == PostAfter(kind, previous, body, parseStr, jsonDecode)
  {
  }
}
