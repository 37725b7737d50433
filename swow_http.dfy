/**
 * The HTTP facade the framework talks to while a request is handled: a copy
 * of the request headers it can overwrite, a response code, and forwarding
 * of headers and status to the Swow response.
 */
module SwowHttpAdapter {
  import opened Wrappers
  import opened PhpArrays
  import opened Psr7
  import opened PhpStrings

  /** An entry of the facade's header array: the request's value list, or a string set by `header`. */
  datatype HeaderValue = ValueList(values: seq<string>) | Single(value: string)

  function HeaderName(h: Header): string {
    h.name
  }

  function HeaderValues(h: Header): HeaderValue {
    ValueList(h.values)
  }

  /** `$request->getHeaders()` as an array: name to list of values. */
  function HeaderArray(hs: seq<Header>): map<string, HeaderValue> {
    AssignAll(map[], hs, HeaderName, HeaderValues)
  }

  /** The header array holds exactly the request's header names, each with its value list. */
  lemma HeaderArrayAt(hs: seq<Header>, name: string)
    ensures match LastWithKey(hs, HeaderName, name)
      case Some(j) => name in HeaderArray(hs) && HeaderArray(hs)[name] == ValueList(hs[j].values)
      case None => name !in HeaderArray(hs)
  {
    AssignAllAt(map[], hs, HeaderName, HeaderValues, name);
  }

  class SwowHttp {
    var headers: map<string, HeaderValue>
    var responseCode: int
    var datas: Option<string>
    const response: Response
    const request: Request

    /** `$datas` is never assigned, so it stays null for the life of the instance. */
    predicate Valid()
      reads this
    {
      datas == None
    }

    constructor (response: Response, request: Request)
      ensures this.response == response && this.request == request
      ensures headers == HeaderArray(request.headers)
      ensures responseCode == 200
      ensures Valid()
    {
      this.response := response;
      this.request := request;
      headers := HeaderArray(request.headers);
      responseCode := 200;
      datas := None;
    }

    method GetAllHeaders() returns (r: map<string, HeaderValue>)
      ensures r == headers
    {
      r := headers;
    }

    /** Returns the stored data and ignores its argument: nothing is stored. */
    method SetDatas(d: string) returns (r: Option<string>)
      requires Valid()
      ensures r == None
    {
      r := datas;
    }

    /**
     * Always overwrites the entry under `key` (`replace` is ignored), takes
     * the code only when it is non-zero, and forwards the header to the
     * response without touching its status.
     */
    method Header(key: string, value: string, replace: bool, code: int)
      requires Valid()
      modifies this, response
      ensures Valid()
      ensures headers == old(headers)[key := Single(value)]
      ensures responseCode == if code != 0 then code else old(responseCode)
      ensures response.headers == old(response.headers)[ToLower(key) := ResponseHeader(key, value)]
      ensures response.status == old(response.status) && response.body == old(response.body)
    {
      headers := headers[key := Single(value)];
      if code != 0 {
        responseCode := code;
      }
      response.SetHeader(key, value);
    }

    method GetResponseCode() returns (r: int)
      ensures r == responseCode
    {
      r := responseCode;
    }

    /**
     * A code sets both the facade's code and the response status and is
     * returned; `None` (PHP's null) returns false and changes nothing.
     */
    method SetResponseCode(code: Option<int>) returns (r: Value)
      requires Valid()
      modifies this, response
      ensures Valid()
      ensures headers == old(headers)
      ensures response.headers == old(response.headers) && response.body == old(response.body)
      ensures code.Some? ==> r == Int(code.value) && responseCode == code.value && response.status == code.value
      ensures code.None? ==> r == Bool(false) && responseCode == old(responseCode) && response.status == old(response.status)
    {
      if code.Some? {
        responseCode := code.value;
        response.SetStatus(code.value);
        r := Int(code.value);
      } else {
        r := Bool(false);
      }
    }

    method HeadersSent() returns (r: bool)
      ensures !r
    {
      r := false;
    }

    method GetInput() returns (r: Option<string>)
      requires Valid()
      ensures r == None
    {
      r := datas;
    }
  }
}
