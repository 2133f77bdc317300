/**
 * The cache decision: `Http304` checks the request's validators and either
 * turns the response into an empty 304 or appends fresh `Last-Modified` and
 * `ETag` headers to it.
 */
module Caching {

  import opened Wrappers
  import opened Crypto
  import opened ETagCodec
  import opened Validator
  import opened Http

  /** The two headers appended when the client's copy is not valid. */
  function FreshValidators(p: Primitives, epoch: string, ip: string, salt: string, value: string): (hs: seq<Header>)
    requires p.WellFormed()
    ensures HeaderValues(hs, LastModifiedName) == [epoch]
    ensures HeaderValues(hs, ETagName) == [IssueETag(p, ip, salt, value)]
  {
    [Header(LastModifiedName, epoch), Header(ETagName, IssueETag(p, ip, salt, value))]
  }

  /**
   * Draws a salt: five characters, each picked from the alphabet by an
   * arbitrary index below its length.
   */
  method DrawSalt() returns (salt: string)
    ensures IsSalt(salt)
  {
    var sb: string := [];
    for i := 0 to SaltLen
      invariant |sb| == i
      invariant forall j :: 0 <= j < |sb| ==> sb[j] in CharList
    {
      var k :| 0 <= k < |CharList|;
      sb := sb + [CharList[k]];
    }
    salt := sb;
  }

  class Http304 {
    const request: Request
    const response: Response
    const remoteAddress: Option<string>
    /** The server epoch, the text every issued `Last-Modified` carries. */
    const lastModified: string
    const crypto: Primitives

    ghost predicate Valid() {
      crypto.WellFormed()
    }

    constructor (request: Request, response: Response, remoteAddress: Option<string>,
                 lastModified: string, crypto: Primitives)
      requires crypto.WellFormed()
      ensures Valid()
      ensures this.request == request && this.response == response
      ensures this.remoteAddress == remoteAddress && this.lastModified == lastModified
      ensures this.crypto == crypto
    {
      this.request := request;
      this.response := response;
      this.remoteAddress := remoteAddress;
      this.lastModified := lastModified;
      this.crypto := crypto;
    }

    /** The address text this request's digests use. */
    function Address(withIP: bool): (ip: string)
      ensures !withIP || remoteAddress.None? ==> ip == ""
      ensures ip != "" ==> remoteAddress == Some(ip)
      ensures withIP && remoteAddress.Some? ==> ip == remoteAddress.value
    {
      ClientAddress(withIP, remoteAddress)
    }

    /**
     * When `isSet`, clears the response and sets status 304; otherwise leaves
     * it alone. Returns `isSet` either way.
     */
    method Set(isSet: bool := true) returns (r: bool)
      modifies response
      ensures r == isSet
      ensures isSet ==> response.statusCode == StatusNotModified && response.headers == [] && response.body == []
      ensures !isSet ==> unchanged(response)
    {
      if isSet {
        response.Clear();
        response.statusCode := StatusNotModified;
      }
      r := isSet;
    }

    /** Whether the client's cached copy, as the request describes it, is still valid. */
    method IsValid(withIP: bool := false, value: string := "") returns (valid: bool)
      requires Valid()
      ensures valid == Verify(crypto, Address(withIP), value, lastModified,
                              request.ifModifiedSince, request.ifNoneMatch)
    {
      var ip := Address(withIP);
      var clientLastModified, clientETag := request.ifModifiedSince, request.ifNoneMatch;
      if |clientETag| == 1 && |clientLastModified| == 1 && |clientETag[0]| == WireLen
         && clientLastModified[0] == lastModified
      {
        var body := clientETag[0][1..1 + BodyLen];
        var clientDigest := body[..HeadLen] + body[HeadLen + SaltLen..];
        var clientSalt := body[HeadLen..HeadLen + SaltLen];
        var computed := HashText(crypto, ip + clientSalt + value)[..DigestLen];
        valid := clientDigest == computed;
      } else {
        valid := false;
      }
    }

    /** `IsValid` without binding to the client address. */
    method IsValidWithoutIP(value: string := "") returns (valid: bool)
      requires Valid()
      ensures valid == Verify(crypto, "", value, lastModified,
                              request.ifModifiedSince, request.ifNoneMatch)
    {
      valid := IsValid(false, value);
    }

    /**
     * Checks the client's validators; if they hold, turns the response into an
     * empty 304, otherwise appends a `Last-Modified` and a freshly salted `ETag`
     * header and leaves the status alone. Returns whether 304 was set.
     */
    method TrySet(withIP: bool := false, value: string := "") returns (isSet: bool)
      requires Valid()
      modifies response
      ensures isSet == Verify(crypto, Address(withIP), value, lastModified,
                              request.ifModifiedSince, request.ifNoneMatch)
      ensures isSet ==> response.statusCode == StatusNotModified && response.headers == [] && response.body == []
      ensures !isSet ==> response.statusCode == old(response.statusCode) && response.body == old(response.body)
      ensures !isSet ==> exists salt :: (IsSalt(salt) && response.headers ==
                old(response.headers) + FreshValidators(crypto, lastModified, Address(withIP), salt, value))
    {
      var isValid := IsValid(withIP, value);
      if !isValid {
        var ip := Address(withIP);
        var salt := DrawSalt();
        var hash := HashText(crypto, ip + salt + value);
        response.AddHeader(LastModifiedName, lastModified);
        response.AddHeader(ETagName, [Quote] + hash[..HeadLen] + salt + hash[HeadLen..DigestLen] + [Quote]);
        assert response.headers == old(response.headers) + FreshValidators(crypto, lastModified, ip, salt, value);
      }
      isSet := Set(isValid);
    }

    /** `TrySet` without binding to the client address. */
    method TrySetWithoutIP(value: string := "") returns (isSet: bool)
      requires Valid()
      modifies response
      ensures isSet == Verify(crypto, "", value, lastModified,
                              request.ifModifiedSince, request.ifNoneMatch)
      ensures isSet ==> response.statusCode == StatusNotModified && response.headers == [] && response.body == []
      ensures !isSet ==> response.statusCode == old(response.statusCode) && response.body == old(response.body)
      ensures !isSet ==> exists salt :: (IsSalt(salt) && response.headers ==
                old(response.headers) + FreshValidators(crypto, lastModified, "", salt, value))
    {
      isSet := TrySet(false, value);
    }
  }

  /**
   * A client that stores the validators of a first response and sends them
   * back on its next request: the second request is answered 304 exactly when
   * the first one was not.
   */
  method Revalidate(crypto: Primitives, remoteAddress: Option<string>, epoch: string,
                    withIP: bool, value: string, request: Request)
    returns (first: bool, second: bool)
    requires crypto.WellFormed()
    ensures first == Verify(crypto, ClientAddress(withIP, remoteAddress), value, epoch,
                            request.ifModifiedSince, request.ifNoneMatch)
    ensures second == !first
  {
    var response := new Response();
    var server := new Http304(request, response, remoteAddress, epoch, crypto);
    first := server.TrySet(withIP, value);
    var stored := response.headers;
    var echo := Request(HeaderValues(stored, LastModifiedName), HeaderValues(stored, ETagName));
    var nextResponse := new Response();
    var next := new Http304(echo, nextResponse, remoteAddress, epoch, crypto);
    second := next.IsValid(withIP, value);
    if !first {
      var ip := ClientAddress(withIP, remoteAddress);
      ghost var salt :| IsSalt(salt) && stored == FreshValidators(crypto, epoch, ip, salt, value);
      var tag := IssueETag(crypto, ip, salt, value);
      assert stored == [Header(LastModifiedName, epoch), Header(ETagName, tag)];
      assert stored[1..] == [Header(ETagName, tag)] && stored[1..][1..] == [];
      assert HeaderValues(stored, LastModifiedName) == [epoch];
      assert HeaderValues(stored, ETagName) == [tag];
      IssuedETagVerifies(crypto, ip, salt, value, epoch);
    }
  }
}
