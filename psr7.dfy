/**
 * The parts of the Swow PSR-7 request and response objects that the shim
 * reads or writes. Header names are matched ASCII case-insensitively, as
 * PSR-7 requires.
 */
module Psr7 {
  import opened Wrappers
  import opened PhpStrings

  datatype Uri = Uri(path: string, query: string, port: Option<int>)

  /** One header as `getHeaders()` lists it: the name as received and its values in order. */
  datatype Header = Header(name: string, values: seq<string>)

  /** A received request: `verb` is the request method; `body` is the whole content of the body stream. */
  datatype Request = Request(
    verb: string,
    uri: Uri,
    protocolVersion: string,
    headers: seq<Header>,
    body: string)

  predicate SameName(a: string, b: string) {
    ToLower(a) == ToLower(b)
  }

  /** The first header whose name matches `name` regardless of case. */
  function HeaderIndex(hs: seq<Header>, name: string): (r: Option<nat>)
    ensures r.Some? ==> r.value < |hs| && SameName(hs[r.value].name, name)
    ensures r.Some? ==> forall j :: 0 <= j < r.value ==> !SameName(hs[j].name, name)
    ensures r.None? ==> forall j :: 0 <= j < |hs| ==> !SameName(hs[j].name, name)
    decreases |hs|
  {
    if |hs| == 0 then None
    else if SameName(hs[0].name, name) then Some(0)
    else match HeaderIndex(hs[1..], name)
      case Some(i) => Some(i + 1)
      case None => None
  }

  /** $request->hasHeader($name) */
  predicate HasHeader(req: Request, name: string) {
    HeaderIndex(req.headers, name).Some?
  }

  /** $request->getHeader($name): the values, or an empty list when the header is absent. */
  function GetHeader(req: Request, name: string): (r: seq<string>)
    ensures !HasHeader(req, name) ==> r == []
  {
    match HeaderIndex(req.headers, name)
    case Some(i) => req.headers[i].values
    case None => []
  }

  /** A response header line as last set: the name as given and its value. */
  datatype ResponseHeader = ResponseHeader(name: string, value: string)

  /** The response under construction: status, headers keyed by lower-cased name, and body. */
  class Response {
    var status: int
    var headers: map<string, ResponseHeader>
    var body: string

    /** new Response() */
    constructor ()
      ensures status == 200 && headers == map[] && body == ""
    {
      status := 200;
      headers := map[];
      body := "";
    }

    /** $response->setStatus($code) */
    method SetStatus(code: int)
      modifies this
      ensures status == code
      ensures headers == old(headers) && body == old(body)
    {
      status := code;
    }

    /** $response->setHeader($name, $value): replaces any header of that name, whatever its case. */
    method SetHeader(name: string, value: string)
      modifies this
      ensures headers == old(headers)[ToLower(name) := ResponseHeader(name, value)]
      ensures status == old(status) && body == old(body)
    {
      headers := headers[ToLower(name) := ResponseHeader(name, value)];
    }

    /** $response->getBody()->write($data) */
    method Write(data: string)
      modifies this
      ensures body == old(body) + data
      ensures status == old(status) && headers == old(headers)
    {
      body := body + data;
    }
  }
}
