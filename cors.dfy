/**
 * The `enableCORS` middleware (cmd/api/middleware.go:232-268), following the
 * CORS protocol of section 3.2 of the WHATWG Fetch Standard: a request whose
 * `Origin` is one of the trusted origins is answered with that origin in
 * `Access-Control-Allow-Origin`, and a preflight request from such an origin
 * is answered directly with 200 OK.
 */
module Cors {
  import opened HttpHeader

  const Vary: string := "Vary"
  const OriginHeader: string := "Origin"
  const RequestMethodHeader: string := "Access-Control-Request-Method"
  const AllowOriginHeader: string := "Access-Control-Allow-Origin"
  const AllowMethodsHeader: string := "Access-Control-Allow-Methods"
  const AllowHeadersHeader: string := "Access-Control-Allow-Headers"
  const AllowedMethods: string := "OPTIONS, PUT, PATCH, DELETE"
  const AllowedHeaders: string := "Authorization, Content-Type"
  const MethodOptions: string := "OPTIONS"
  const StatusOK: int := 200

  datatype Request = Request(verb: string, header: Header)

  /**
   * Next: `next` handles the request with these response headers.
   * Preflight: the middleware writes these headers with status 200 and stops.
   */
  datatype Outcome = Next(header: Header) | Preflight(header: Header, status: int)

  /** A CORS request from a trusted origin: the `Origin` header is set and listed. */
  predicate FromTrustedOrigin(req: Request, trusted: seq<string>)
  {
    Get(req.header, OriginHeader) != "" && Get(req.header, OriginHeader) in trusted
  }

  /** A preflight request: OPTIONS carrying an `Access-Control-Request-Method`. */
  predicate IsPreflight(req: Request)
  {
    req.verb == MethodOptions && Get(req.header, RequestMethodHeader) != ""
  }

  /**
   * What the middleware does to the response headers `resp` and whether `next`
   * runs, stated without the search loop.
   */
  function CorsResponse(req: Request, trusted: seq<string>, resp: Header): (out: Outcome)
    ensures Values(out.header, Vary) == Values(resp, Vary) + [OriginHeader]
    ensures FromTrustedOrigin(req, trusted) ==>
      Values(out.header, AllowOriginHeader) == [Get(req.header, OriginHeader)]
    ensures !FromTrustedOrigin(req, trusted) ==> out == Next(Add(resp, Vary, OriginHeader))
    ensures out.Preflight? <==> FromTrustedOrigin(req, trusted) && IsPreflight(req)
    ensures out.Preflight? ==>
      && out.status == StatusOK
      && Values(out.header, AllowMethodsHeader) == [AllowedMethods]
      && Values(out.header, AllowHeadersHeader) == [AllowedHeaders]
    ensures out.Next? ==>
      && Values(out.header, AllowMethodsHeader) == Values(resp, AllowMethodsHeader)
      && Values(out.header, AllowHeadersHeader) == Values(resp, AllowHeadersHeader)
    ensures forall k :: k != Vary && k != AllowOriginHeader && k != AllowMethodsHeader && k != AllowHeadersHeader ==>
      Values(out.header, k) == Values(resp, k)
  {
    var varied := Add(resp, Vary, OriginHeader);
    if !FromTrustedOrigin(req, trusted) then Next(varied)
    else
      var allowed := Set(varied, AllowOriginHeader, Get(req.header, OriginHeader));
      if IsPreflight(req) then
        Preflight(Set(Set(allowed, AllowMethodsHeader, AllowedMethods), AllowHeadersHeader, AllowedHeaders), StatusOK)
      else Next(allowed)
  }

  /** The middleware as written: a search through the trusted origins with an early return or break. */
  method EnableCors(req: Request, trusted: seq<string>, resp: Header) returns (out: Outcome)
    ensures out == CorsResponse(req, trusted, resp)
  {
    var header := Add(resp, Vary, OriginHeader);
    var origin := Get(req.header, OriginHeader);
    if origin != "" {
      var i := 0;
      while i < |trusted|
        invariant 0 <= i <= |trusted|
        invariant forall j :: 0 <= j < i ==> trusted[j] != origin
        invariant header == Add(resp, Vary, OriginHeader)
      {
        if origin == trusted[i] {
          header := Set(header, AllowOriginHeader, origin);
          if req.verb == MethodOptions && Get(req.header, RequestMethodHeader) != "" {
            header := Set(header, AllowMethodsHeader, AllowedMethods);
            header := Set(header, AllowHeadersHeader, AllowedHeaders);
            return Preflight(header, StatusOK);
          }
          break;
        }
        i := i + 1;
      }
    }
    return Next(header);
  }
}
