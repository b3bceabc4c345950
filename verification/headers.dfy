/** The headers of an outgoing request. The client builds a separate
    signing request whose headers get `Host` set to the base URL's host
    name and then the SigV4 headers; every one of those headers is then
    copied onto the request actually sent, on top of whatever headers it
    already carried. Header names are compared exactly, as object keys. */
module Headers {
  import opened Types

  type HeaderMap = map<string, string>

  const HostHeader: string := "Host"

  /** A missing header object counts as an empty one. */
  function OrEmpty(h: Option<HeaderMap>): HeaderMap {
    if h.Some? then h.value else map[]
  }

  /** The signing request's headers after `Host` is set to `hostname` and
      the signer has added `added` (`Authorization`, `X-Amz-Date`, and the
      session token when there is one; the signature computation itself
      is not modelled). The signer never writes `Host`. */
  function SigningHeaders(own: Option<HeaderMap>, hostname: string, added: HeaderMap): (h: HeaderMap)
    requires HostHeader !in added
    ensures HostHeader in h && h[HostHeader] == hostname
    ensures forall k :: k in added ==> k in h && h[k] == added[k]
    ensures forall k :: k in OrEmpty(own) && k != HostHeader && k !in added ==> k in h && h[k] == OrEmpty(own)[k]
    ensures forall k :: k in h ==> k in OrEmpty(own) || k == HostHeader || k in added
  {
    OrEmpty(own)[HostHeader := hostname] + added
  }

  /** Copies every signing header onto the request's headers, one key at a
      time, overwriting a header of the same name and keeping all others:
      the result is the request's headers overridden by the signing ones. */
  method CopyHeaders(req: Option<HeaderMap>, signing: HeaderMap) returns (h: HeaderMap)
    ensures h.Keys == OrEmpty(req).Keys + signing.Keys
    ensures forall k :: k in signing ==> h[k] == signing[k]
    ensures forall k :: k in OrEmpty(req) && k !in signing ==> h[k] == OrEmpty(req)[k]
    ensures h == OrEmpty(req) + signing
  {
    h := OrEmpty(req);
    var todo := signing.Keys;
    while todo != {}
      invariant todo <= signing.Keys
      invariant h.Keys == OrEmpty(req).Keys + (signing.Keys - todo)
      invariant forall k :: k in signing && k !in todo ==> h[k] == signing[k]
      invariant forall k :: k in OrEmpty(req) && (k !in signing || k in todo) ==> h[k] == OrEmpty(req)[k]
      decreases todo
    {
      var k :| k in todo;
      h := h[k := signing[k]];
      todo := todo - {k};
    }
  }

  /** The headers a request is sent with: `Host` is the base URL's host
      name, every signer header has the signer's value, and every other
      header the request already had is unchanged. */
  method OutgoingHeaders(req: Option<HeaderMap>, signingOwn: Option<HeaderMap>, hostname: string, added: HeaderMap)
    returns (h: HeaderMap)
    requires HostHeader !in added
    ensures HostHeader in h && h[HostHeader] == hostname
    ensures forall k :: k in added ==> k in h && h[k] == added[k]
    ensures forall k :: k in OrEmpty(req) ==> k in h
    ensures forall k :: k in OrEmpty(req) && k !in OrEmpty(signingOwn) && k != HostHeader && k !in added ==> h[k] == OrEmpty(req)[k]
  {
    var signing := SigningHeaders(signingOwn, hostname, added);
    h := CopyHeaders(req, signing);
  }
}
