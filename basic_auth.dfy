/** The basic-credential middleware of lib/basic-auth-middleware.js: it takes
    the text after "Basic " in the Authorization header, base64-decodes it,
    splits it on every ':' and attaches `{username, password}` to the request,
    rejecting with 401 in a fixed order. */
module BasicAuth {
  import opened Common
  import opened Http
  import opened Text
  import Encoding

  const Scheme := "Basic "
  const Colon := ':'

  const MsgHeaderRequired := "Authorization header required!"
  const MsgCredentialsRequired := "Username and Password required!"
  const MsgUsernameRequired := "Username required!"
  const MsgPasswordRequired := "Password required!"

  function Unauthorized(message: string): Error {
    Http(401, message)
  }

  /** What one run of the middleware leaves behind: the `req.auth` it
      attached (if it got that far) and how it called `next`. */
  datatype Outcome = Outcome(auth: Option<Credentials>, signal: Signal)

  /** The second piece of the header split on "Basic ": the text between
      the first and the second occurrence of the scheme, or undefined when
      there is none, which happens exactly when "Basic " occurs nowhere in
      the header. */
  function Payload(header: string): (r: Option<string>)
    ensures r.None? <==> Free(header, Scheme)
  {
    SplitManyIffOccurs(header, Scheme);
    var pieces := Split(header, Scheme);
    if |pieces| > 1 then Some(pieces[1]) else None
  }

  /** A Node buffer built from base64 and read back as text. Well-formed base64 is
      decoded as section 4 of RFC 4648 says; `lenient` stands for what Node
      makes of anything else. Decoded bytes become one character each,
      below 256. */
  function DecodeText(payload: string, lenient: string -> string): (text: string)
    ensures Encoding.Decode(payload).Some? ==> |text| == |Encoding.Decode(payload).value|
    ensures Encoding.Decode(payload).Some? ==> forall i :: 0 <= i < |text| ==> text[i] < 256 as char
  {
    match Encoding.Decode(payload)
    case Some(bs) => Encoding.BytesText(bs)
    case None => lenient(payload)
  }

  lemma ColonIffOccurs(s: string)
    ensures Colon in s <==> !Free(s, [Colon])
  {
    if Colon in s {
      var i :| 0 <= i < |s| && s[i] == Colon;
      assert s[i..i + 1] == [Colon];
      assert OccursAt(s, [Colon], i);
    } else {
      CharFree(s, Colon);
    }
  }

  /** The decoded text split on ':', its first piece the username and its
      second the password: neither field can hold a colon, and the password
      is undefined exactly when there is no colon at all. */
  function ParseCredentials(text: string): (c: Credentials)
    ensures Colon !in c.username
    ensures c.password.Some? ==> Colon !in c.password.value
    ensures c.password.Some? <==> Colon in text
  {
    var pieces := Split(text, [Colon]);
    SplitOnCharPieces(text, Colon);
    SplitManyIffOccurs(text, [Colon]);
    ColonIffOccurs(text);
    Credentials(pieces[0], if |pieces| > 1 then Some(pieces[1]) else None)
  }

  /** The four rejections, in the order the middleware checks them. `req.auth`
      is attached once the payload is decoded, before the username and
      password checks, so a request rejected by those still carries it. */
  function Authenticate(header: Option<string>, lenient: string -> string): (r: Outcome)
    ensures r.auth.None? <==> !Truthy(header) || !Truthy(Payload(header.value))
    ensures !Truthy(header) ==> r.signal == Reject(Unauthorized(MsgHeaderRequired))
    ensures Truthy(header) && !Truthy(Payload(header.value)) ==>
              r.signal == Reject(Unauthorized(MsgCredentialsRequired))
    ensures r.auth.Some? && r.auth.value.username == [] ==>
              r.signal == Reject(Unauthorized(MsgUsernameRequired))
    ensures r.auth.Some? && r.auth.value.username != [] && !Truthy(r.auth.value.password) ==>
              r.signal == Reject(Unauthorized(MsgPasswordRequired))
    ensures r.signal.Proceed? <==>
              r.auth.Some? && r.auth.value.username != [] && Truthy(r.auth.value.password)
    ensures r.auth.Some? ==> Colon !in r.auth.value.username
    ensures r.auth.Some? && r.auth.value.password.Some? ==> Colon !in r.auth.value.password.value
  {
    if !Truthy(header) then Outcome(None, Reject(Unauthorized(MsgHeaderRequired)))
    else
      var payload := Payload(header.value);
      if !Truthy(payload) then Outcome(None, Reject(Unauthorized(MsgCredentialsRequired)))
      else
        var auth := ParseCredentials(DecodeText(payload.value, lenient));
        if auth.username == [] then Outcome(Some(auth), Reject(Unauthorized(MsgUsernameRequired)))
        else if !Truthy(auth.password) then Outcome(Some(auth), Reject(Unauthorized(MsgPasswordRequired)))
        else Outcome(Some(auth), Proceed)
  }

  /** The middleware itself: it writes `req.auth` in place and signals through
      its result what it passes to `next`. */
  method Middleware(req: Request, lenient: string -> string) returns (signal: Signal)
    modifies req
    ensures var r := Authenticate(old(req.authorization), lenient);
            signal == r.signal && req.auth == (if r.auth.Some? then r.auth else old(req.auth))
    ensures req.authorization == old(req.authorization) && req.body == old(req.body)
  {
    var authHeader := req.authorization;
    if !Truthy(authHeader) {
      return Reject(Unauthorized(MsgHeaderRequired));
    }
    var base64string := Payload(authHeader.value);
    if !Truthy(base64string) {
      return Reject(Unauthorized(MsgCredentialsRequired));
    }
    var utf8string := DecodeText(base64string.value, lenient);
    req.auth := Some(ParseCredentials(utf8string));
    if req.auth.value.username == [] {
      return Reject(Unauthorized(MsgUsernameRequired));
    }
    if !Truthy(req.auth.value.password) {
      return Reject(Unauthorized(MsgPasswordRequired));
    }
    return Proceed;
  }

  // ---------------------------------------------------------------------------
  // Where the payload comes from

  /** The payload is the text from just after the first "Basic " up to the
      next one (or the end): the scheme need not open the header. */
  lemma PayloadBetween(header: string, i: nat, j: nat)
    requires FirstOccurrence(header, Scheme, i)
    requires i + |Scheme| <= j <= |header|
    requires forall k: nat :: i + |Scheme| <= k < j ==> !OccursAt(header, Scheme, k)
    requires j == |header| || OccursAt(header, Scheme, j)
    ensures Payload(header) == Some(header[i + |Scheme|..j])
  {
    SplitAtFirst(header, Scheme, i);
    var start := i + |Scheme|;
    var t := header[start..];
    forall k: nat | k < j - start
      ensures !OccursAt(t, Scheme, k)
    {
      OccursDrop(header, Scheme, start, k);
    }
    if j < |header| {
      OccursDrop(header, Scheme, start, j - start);
    }
    SplitHead(t, Scheme, j - start);
    assert t[..j - start] == header[start..j];
  }

  /** A header that never mentions "Basic " is rejected for missing
      credentials and attaches nothing. */
  lemma NoSchemeRejected(header: string, lenient: string -> string)
    requires header != [] && Free(header, Scheme)
    ensures Authenticate(Some(header), lenient) ==
              Outcome(None, Reject(Unauthorized(MsgCredentialsRequired)))
  {
  }

  // ---------------------------------------------------------------------------
  // How the decoded text is split

  /** The username is the text before the first colon and the password the
      text between the first and the second; whatever follows a second colon
      is dropped (section 2 of RFC 7617 lets the password hold colons). */
  lemma ParseColonSeparated(u: string, p: string, rest: seq<string>)
    requires Colon !in u && Colon !in p
    requires forall k :: 0 <= k < |rest| ==> Colon !in rest[k]
    ensures ParseCredentials(Join([u, p] + rest, [Colon])) == Credentials(u, Some(p))
  {
    var pieces := [u, p] + rest;
    forall k | 0 <= k < |pieces|
      ensures Colon !in pieces[k]
    {
      if k >= 2 {
        assert pieces[k] == rest[k - 2];
      }
    }
    SplitJoinOnChar(pieces, Colon);
  }

  // ---------------------------------------------------------------------------
  // The round trip with a client that encodes its credentials

  lemma NoSpaceNoScheme(s: string)
    requires forall i :: 0 <= i < |s| ==> s[i] != ' '
    ensures Free(s, Scheme)
  {
    forall i: nat | i < |s|
      ensures !OccursAt(s, Scheme, i)
    {
      if i + |Scheme| <= |s| {
        assert s[i..i + |Scheme|][5] == s[i + 5];
      }
    }
  }

  /** The text of an encoded credential pair: `base64(text)` after any
      prefix whose first "Basic " is the one that introduces the payload. */
  function EncodedHeader(prefix: string, text: string): string
    requires Encoding.IsAscii(text)
  {
    prefix + Scheme + Encoding.Encode(Encoding.AsciiBytes(text))
  }

  lemma EncodedPayload(prefix: string, text: string)
    requires Encoding.IsAscii(text) && text != []
    requires FirstOccurrence(prefix + Scheme, Scheme, |prefix|)
    ensures Payload(EncodedHeader(prefix, text)) == Some(Encoding.Encode(Encoding.AsciiBytes(text)))
  {
    var e := Encoding.Encode(Encoding.AsciiBytes(text));
    var h := EncodedHeader(prefix, text);
    var lead := prefix + Scheme;
    assert h == lead + e;
    forall k: nat | k < |prefix|
      ensures !OccursAt(h, Scheme, k)
    {
      assert !OccursAt(lead, Scheme, k);
      assert h[k..k + |Scheme|] == lead[k..k + |Scheme|];
    }
    assert h[|prefix|..|prefix| + |Scheme|] == Scheme;
    assert FirstOccurrence(h, Scheme, |prefix|);
    SplitAtFirst(h, Scheme, |prefix|);
    assert h[|prefix| + |Scheme|..] == e;
    NoSpaceNoScheme(e);
    SplitFree(e, Scheme);
  }

  lemma EncodedText(text: string, lenient: string -> string)
    requires Encoding.IsAscii(text)
    ensures DecodeText(Encoding.Encode(Encoding.AsciiBytes(text)), lenient) == text
  {
    Encoding.DecodeEncode(Encoding.AsciiBytes(text));
    Encoding.AsciiRoundTrip(text);
  }

  /** A non-empty username and password without colons, sent the way a
      client sends them (`"Basic " + base64(u + ":" + p)`), come out as
      `req.auth == {u, p}` and `next()` is called without an error. This
      holds even when other text precedes the scheme. */
  lemma RoundTrip(prefix: string, u: string, p: string, lenient: string -> string)
    requires u != [] && p != [] && Colon !in u && Colon !in p
    requires Encoding.IsAscii(u) && Encoding.IsAscii(p)
    requires FirstOccurrence(prefix + Scheme, Scheme, |prefix|)
    ensures Authenticate(Some(EncodedHeader(prefix, u + [Colon] + p)), lenient) ==
              Outcome(Some(Credentials(u, Some(p))), Proceed)
  {
    var text := u + [Colon] + p;
    assert Join([u, p], [Colon]) == text;
    EncodedPayload(prefix, text);
    EncodedText(text, lenient);
    var none: seq<string> := [];
    assert [u, p] + none == [u, p];
    ParseColonSeparated(u, p, none);
  }

  /** The text a client encodes is ASCII when the username and password are. */
  lemma CredentialsAscii(u: string, p: string)
    requires Encoding.IsAscii(u) && Encoding.IsAscii(p)
    ensures Encoding.IsAscii(u + [Colon] + p)
  {
  }

  /** The round trip for a header that starts with the scheme, as clients
      send it. */
  lemma RoundTripBare(u: string, p: string, lenient: string -> string)
    requires u != [] && p != [] && Colon !in u && Colon !in p
    requires Encoding.IsAscii(u) && Encoding.IsAscii(p)
    ensures Authenticate(Some(EncodedHeader([], u + [Colon] + p)), lenient) ==
              Outcome(Some(Credentials(u, Some(p))), Proceed)
  {
    assert FirstOccurrence([] + Scheme, Scheme, 0);
    RoundTrip([], u, p, lenient);
  }

  /** A password that itself contains a colon is cut at that colon: the
      client's `u:p:rest` logs in as `u` with password `p`. */
  lemma ColonTruncatesPassword(u: string, p: string, rest: string, lenient: string -> string)
    requires u != [] && p != [] && Colon !in u && Colon !in p && Colon !in rest
    requires Encoding.IsAscii(u) && Encoding.IsAscii(p) && Encoding.IsAscii(rest)
    ensures Authenticate(Some(EncodedHeader([], u + [Colon] + p + [Colon] + rest)), lenient) ==
              Outcome(Some(Credentials(u, Some(p))), Proceed)
  {
    var text := u + [Colon] + p + [Colon] + rest;
    assert Join([p, rest], [Colon]) == p + [Colon] + rest;
    assert Join([u, p] + [rest], [Colon]) == text;
    assert FirstOccurrence([] + Scheme, Scheme, 0);
    EncodedPayload([], text);
    EncodedText(text, lenient);
    ParseColonSeparated(u, p, [rest]);
  }

  /** With both fields empty the username check fires first. */
  lemma UsernameCheckedFirst(lenient: string -> string)
    ensures Authenticate(Some(EncodedHeader([], [Colon])), lenient) ==
              Outcome(Some(Credentials([], Some([]))), Reject(Unauthorized(MsgUsernameRequired)))
  {
    assert FirstOccurrence([] + Scheme, Scheme, 0);
    assert Join([[], []], [Colon]) == [Colon];
    EncodedPayload([], [Colon]);
    EncodedText([Colon], lenient);
    var none: seq<string> := [];
    assert [[], []] + none == [[], []];
    ParseColonSeparated([], [], none);
  }
}
