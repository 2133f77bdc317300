/**
 * The slice of the hosting framework's request/response model the validator
 * touches: the two conditional request headers, and a response with a status
 * code, a header list and a body that can be cleared.
 */
module Http {

  import opened Crypto

  const StatusOK: int := 200
  const StatusNotModified: int := 304

  const LastModifiedName: string := "Last-Modified"
  const ETagName: string := "ETag"

  datatype Header = Header(name: string, value: string)

  /** The values of the request's `If-Modified-Since` and `If-None-Match` headers. */
  datatype Request = Request(ifModifiedSince: seq<string>, ifNoneMatch: seq<string>)

  /** The values of every header called `name`, in order. */
  function HeaderValues(headers: seq<Header>, name: string): (values: seq<string>)
    ensures |values| <= |headers|
    ensures forall v :: v in values ==> Header(name, v) in headers
    ensures forall v :: Header(name, v) in headers ==> v in values
    ensures (forall h :: h in headers ==> h.name != name) ==> values == []
    ensures headers != [] && headers[0].name == name ==>
              values == [headers[0].value] + HeaderValues(headers[1..], name)
    ensures headers != [] && headers[0].name != name ==> values == HeaderValues(headers[1..], name)
  {
    if headers == [] then []
    else
      var rest := HeaderValues(headers[1..], name);
      if headers[0].name == name then [headers[0].value] + rest else rest
  }

  class Response {
    var statusCode: int
    var headers: seq<Header>
    var body: seq<byte>

    /** A response nothing has been written to yet. */
    constructor ()
      ensures statusCode == StatusOK && headers == [] && body == []
    {
      statusCode := StatusOK;
      headers := [];
      body := [];
    }

    /** Resets the status to 200 and empties the headers and the body. */
    method Clear()
      modifies this
      ensures statusCode == StatusOK && headers == [] && body == []
    {
      statusCode := StatusOK;
      headers := [];
      body := [];
    }

    /** Appends one header; the status and the body stay as they are. */
    method AddHeader(name: string, value: string)
      modifies this
      ensures headers == old(headers) + [Header(name, value)]
      ensures statusCode == old(statusCode) && body == old(body)
    {
      headers := headers + [Header(name, value)];
    }
  }
}
