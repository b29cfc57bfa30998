/** The webhook sender of internal/infrastructure/sender/webhook_sender.go:
    the client timeout, the request it builds, the decision it takes on the
    reply, and the version-4 UUID it synthesizes when the reply carries no
    usable message identifier. The HTTP exchange and the JSON codec are not
    modelled: the reply arrives already classified, and the 16 random bytes
    of `crypto/rand` arrive as an argument. */
module Webhook {
  import opened Wrappers
  import opened Bytes
  import opened Config
  import opened Entity

  /** `NewWebhookSender`: the client timeout is the configured number of
      seconds when that is positive, and 10 seconds when it is not. A
      positive setting too large for a `time.Duration` gives the wrapped
      product, whatever its sign. */
  function ClientTimeout(cfg: Config): (d: int64)
    ensures cfg.webhookTimeoutSeconds <= 0 ==> d == 10 * Second
    ensures 0 < cfg.webhookTimeoutSeconds <= MaxDurationSeconds ==> d == cfg.webhookTimeoutSeconds * Second
  {
    if cfg.webhookTimeoutSeconds > 0 then Seconds(cfg.webhookTimeoutSeconds) else 10 * Second
  }

  datatype Header = Header(name: Bytes, value: Bytes)

  /** The JSON payload `{"to": ..., "content": ...}` before encoding. */
  datatype Payload = Payload(to: Bytes, content: Bytes)

  datatype Request = Request(headers: seq<Header>, payload: Payload)

  const ContentTypeName: Bytes := Ascii("Content-Type")
  const JsonType: Bytes := Ascii("application/json")
  const AuthKeyName: Bytes := Ascii("x-ins-auth-key")

  /** The POST request `Send` issues for a message: a JSON content type,
      the `x-ins-auth-key` header exactly when an auth key is configured,
      and the message's destination and content as payload. */
  function BuildRequest(cfg: Config, m: Message): (req: Request)
    ensures req.payload == Payload(m.to, m.content)
    ensures Header(ContentTypeName, JsonType) in req.headers
    ensures (exists i | 0 <= i < |req.headers| :: req.headers[i].name == AuthKeyName) <==> cfg.webhookAuthKey != []
    ensures forall i | 0 <= i < |req.headers| && req.headers[i].name == AuthKeyName ::
              req.headers[i].value == cfg.webhookAuthKey
  {
    assert ContentTypeName != AuthKeyName by {
      assert |ContentTypeName| == 12 && |AuthKeyName| == 14;
    }
    var base := [Header(ContentTypeName, JsonType)];
    if cfg.webhookAuthKey != [] then
      var headers := base + [Header(AuthKeyName, cfg.webhookAuthKey)];
      assert headers[1].name == AuthKeyName;
      Request(headers, Payload(m.to, m.content))
    else
      Request(base, Payload(m.to, m.content))
  }

  /** The decoded JSON reply body. */
  datatype WebhookResp = WebhookResp(message: Bytes, messageId: Bytes)

  /** What came back for the request: it could not be built (malformed
      URL), the round trip failed (network error, client timeout or the
      caller's deadline), or a status with a body that did or did not
      decode as JSON. */
  datatype Reply =
    | RequestInvalid
    | TransportFailed
    | Response(status: int, body: Option<WebhookResp>)

  datatype SendError =
    | RequestFailed
    | TransportError
    | BadStatus(status: int)
    | DecodeFailed(status: int)
    | UuidFailed

  const UuidPlaceholder: Bytes := Ascii("{{uuid}}")

  /** A message identifier that does not identify anything: empty, or the
      template placeholder an echo server sends back unexpanded. */
  predicate IsPlaceholder(id: Bytes) {
    id == [] || id == UuidPlaceholder
  }

  /** `Send`'s decision on the reply. A status outside [200, 300) or an
      undecodable body is an error; a placeholder identifier is replaced by
      a UUID made from `random` (None: the random source failed); any other
      identifier is returned verbatim. */
  function Send(reply: Reply, random: Option<Bytes>): (r: Result<Bytes, SendError>)
    requires random.Some? ==> |random.value| == 16
    ensures r.Success? <==>
              && reply.Response? && 200 <= reply.status < 300 && reply.body.Some?
              && (!IsPlaceholder(reply.body.value.messageId) || random.Some?)
    ensures reply.Response? && !(200 <= reply.status < 300) ==> r == Failure(BadStatus(reply.status))
    ensures r.Success? ==> |r.value| > 0
    ensures r.Success? && !IsPlaceholder(reply.body.value.messageId) ==> r.value == reply.body.value.messageId
    ensures r.Success? && IsPlaceholder(reply.body.value.messageId) ==> r.value == Uuid(random.value) && IsUuidV4(r.value)
  {
    match reply
    case RequestInvalid => Failure(RequestFailed)
    case TransportFailed => Failure(TransportError)
    case Response(status, body) =>
      if status < 200 || status >= 300 then Failure(BadStatus(status))
      else
        match body
        case None => Failure(DecodeFailed(status))
        case Some(resp) =>
          if IsPlaceholder(resp.messageId) then
            match random
            case None => Failure(UuidFailed)
            case Some(bytes) => Success(Uuid(bytes))
          else Success(resp.messageId)
  }

  // ---------------------------------------------------------------------
  // generateUUID: RFC 4122 version-4 layout in lower-case hex.

  /** "0123456789abcdef", as `hex.EncodeToString` writes digits. */
  const HexDigits: Bytes := [0x30, 0x31, 0x32, 0x33, 0x34, 0x35, 0x36, 0x37,
                             0x38, 0x39, 0x61, 0x62, 0x63, 0x64, 0x65, 0x66]
  const Hyphen: byte := 0x2D

  /** A lower-case hexadecimal digit. */
  predicate IsHexDigit(c: byte) {
    (0x30 <= c <= 0x39) || (0x61 <= c <= 0x66)
  }

  function HexByte(b: byte): (r: Bytes)
    ensures |r| == 2 && IsHexDigit(r[0]) && IsHexDigit(r[1])
  {
    assert forall k | 0 <= k < 16 :: IsHexDigit(HexDigits[k]);
    [HexDigits[(b >> 4) as int], HexDigits[(b & 0x0F) as int]]
  }

  /** `hex.EncodeToString`: two lower-case digits per byte, high nibble first. */
  function HexEncode(bs: Bytes): (r: Bytes)
    ensures |r| == 2 * |bs|
    ensures forall i | 0 <= i < |r| :: IsHexDigit(r[i])
  {
    if bs == [] then [] else HexByte(bs[0]) + HexEncode(bs[1..])
  }

  /** RFC 4122 section 4.1.3: the high nibble of byte 6 is the version, 4. */
  function SetVersion(b: byte): (r: byte)
    ensures r >> 4 == 4 && r & 0x0F == b & 0x0F
  {
    (b & 0x0F) | 0x40
  }

  /** RFC 4122 section 4.1.1: the two high bits of byte 8 are 1 0. */
  function SetVariant(b: byte): (r: byte)
    ensures r >> 6 == 2 && r & 0x3F == b & 0x3F
  {
    (b & 0x3F) | 0x80
  }

  /** The 16 random bytes with only bytes 6 and 8 masked. */
  function StampVersion(raw: Bytes): (b: Bytes)
    requires |raw| == 16
    ensures |b| == 16
    ensures forall i | 0 <= i < 16 && i != 6 && i != 8 :: b[i] == raw[i]
    ensures b[6] == SetVersion(raw[6]) && b[8] == SetVariant(raw[8])
  {
    raw[6 := SetVersion(raw[6])][8 := SetVariant(raw[8])]
  }

  predicate IsHyphenPosition(i: int) {
    i == 8 || i == 13 || i == 18 || i == 23
  }

  /** The textual layout of a version-4 UUID: 36 characters, hyphens at
      8, 13, 18 and 23 and lower-case hex digits elsewhere, the version
      digit '4' at 14 and one of '8', '9', 'a', 'b' at 19. */
  predicate IsUuidV4(u: Bytes) {
    && |u| == 36
    && (forall i | 0 <= i < 36 && IsHyphenPosition(i) :: u[i] == Hyphen)
    && (forall i | 0 <= i < 36 && !IsHyphenPosition(i) :: IsHexDigit(u[i]))
    && u[14] == HexDigits[4]
    && (u[19] == HexDigits[8] || u[19] == HexDigits[9] || u[19] == HexDigits[10] || u[19] == HexDigits[11])
  }

  /** `generateUUID` on the given random bytes. */
  function Uuid(raw: Bytes): (u: Bytes)
    requires |raw| == 16
    ensures IsUuidV4(u)
  {
    var b := StampVersion(raw);
    var u := HexEncode(b[0..4]) + [Hyphen] + HexEncode(b[4..6]) + [Hyphen] + HexEncode(b[6..8])
             + [Hyphen] + HexEncode(b[8..10]) + [Hyphen] + HexEncode(b[10..16]);
    UuidLayout(b, u);
    u
  }

  lemma UuidLayout(b: Bytes, u: Bytes)
    requires |b| == 16 && b[6] >> 4 == 4 && b[8] >> 6 == 2
    requires u == HexEncode(b[0..4]) + [Hyphen] + HexEncode(b[4..6]) + [Hyphen] + HexEncode(b[6..8])
                  + [Hyphen] + HexEncode(b[8..10]) + [Hyphen] + HexEncode(b[10..16])
    ensures IsUuidV4(u)
  {
  }

  // Reading the identifier back: the inverse of the hex encoding.

  /** The value of a lower-case hex digit: its position in `HexDigits`. */
  function HexValue(c: byte): (v: byte)
    requires IsHexDigit(c)
    ensures v < 16 && HexDigits[v as int] == c
  {
    if c <= 0x39 then c - 0x30 else c - 0x61 + 10
  }

  predicate AllHex(s: Bytes) {
    forall i | 0 <= i < |s| :: IsHexDigit(s[i])
  }

  /** `hex.DecodeString` on lower-case digits. */
  function HexDecode(s: Bytes): (r: Bytes)
    requires |s| % 2 == 0 && AllHex(s)
    ensures |r| == |s| / 2
  {
    if s == [] then [] else [(HexValue(s[0]) << 4) | HexValue(s[1])] + HexDecode(s[2..])
  }

  lemma HexByteRoundTrip(b: byte)
    ensures (HexValue(HexByte(b)[0]) << 4) | HexValue(HexByte(b)[1]) == b
  {
  }

  /** Decoding the hex encoding of any bytes gives them back. */
  lemma {:induction false} HexRoundTrip(bs: Bytes)
    ensures AllHex(HexEncode(bs))
    ensures HexDecode(HexEncode(bs)) == bs
  {
    if bs != [] {
      HexRoundTrip(bs[1..]);
      HexByteRoundTrip(bs[0]);
      var e := HexEncode(bs);
      assert e[2..] == HexEncode(bs[1..]);
      assert e[0] == HexByte(bs[0])[0] && e[1] == HexByte(bs[0])[1];
    }
  }

  lemma {:induction false} HexEncodeAppend(a: Bytes, b: Bytes)
    ensures HexEncode(a + b) == HexEncode(a) + HexEncode(b)
  {
    if a == [] {
      assert a + b == b;
    } else {
      assert (a + b)[0] == a[0];
      assert (a + b)[1..] == a[1..] + b;
      HexEncodeAppend(a[1..], b);
      calc {
        HexEncode(a + b);
        HexByte(a[0]) + HexEncode(a[1..] + b);
        HexByte(a[0]) + (HexEncode(a[1..]) + HexEncode(b));
        (HexByte(a[0]) + HexEncode(a[1..])) + HexEncode(b);
      }
    }
  }

  /** The 32 hex digits of a UUID, hyphens removed. */
  function UuidDigits(u: Bytes): (d: Bytes)
    requires IsUuidV4(u)
    ensures |d| == 32 && AllHex(d)
  {
    var d := u[0..8] + u[9..13] + u[14..18] + u[19..23] + u[24..36];
    assert forall i | 0 <= i < 32 :: IsHexDigit(d[i]) by {
      forall i | 0 <= i < 32
        ensures IsHexDigit(d[i])
      {
        if i < 8 { assert d[i] == u[i]; }
        else if i < 12 { assert d[i] == u[i + 1]; }
        else if i < 16 { assert d[i] == u[i + 2]; }
        else if i < 20 { assert d[i] == u[i + 3]; }
        else { assert d[i] == u[i + 4]; }
      }
    }
    d
  }

  lemma GroupSlices(p0: Bytes, p1: Bytes, p2: Bytes, p3: Bytes, p4: Bytes, u: Bytes)
    requires |p0| == 8 && |p1| == 4 && |p2| == 4 && |p3| == 4 && |p4| == 12
    requires u == p0 + [Hyphen] + p1 + [Hyphen] + p2 + [Hyphen] + p3 + [Hyphen] + p4
    ensures u[0..8] + u[9..13] + u[14..18] + u[19..23] + u[24..36] == p0 + p1 + p2 + p3 + p4
  {
    assert u[0..8] == p0;
    assert u[9..13] == p1;
    assert u[14..18] == p2;
    assert u[19..23] == p3;
    assert u[24..36] == p4;
  }

  /** The 32 hex digits of `Uuid(raw)` decode to the 16 random bytes with
      only bytes 6 and 8 changed, and those only in their version and
      variant bits. */
  lemma UuidRoundTrip(raw: Bytes)
    requires |raw| == 16
    ensures HexDecode(UuidDigits(Uuid(raw))) == StampVersion(raw)
    ensures forall i | 0 <= i < 16 && i != 6 && i != 8 :: HexDecode(UuidDigits(Uuid(raw)))[i] == raw[i]
    ensures HexDecode(UuidDigits(Uuid(raw)))[6] & 0x0F == raw[6] & 0x0F
    ensures HexDecode(UuidDigits(Uuid(raw)))[8] & 0x3F == raw[8] & 0x3F
  {
    var b := StampVersion(raw);
    var u := Uuid(raw);
    GroupSlices(HexEncode(b[0..4]), HexEncode(b[4..6]), HexEncode(b[6..8]), HexEncode(b[8..10]), HexEncode(b[10..16]), u);
    assert b == b[0..4] + b[4..6] + b[6..8] + b[8..10] + b[10..16];
    HexEncodeAppend(b[0..4], b[4..6]);
    HexEncodeAppend(b[0..4] + b[4..6], b[6..8]);
    HexEncodeAppend(b[0..4] + b[4..6] + b[6..8], b[8..10]);
    HexEncodeAppend(b[0..4] + b[4..6] + b[6..8] + b[8..10], b[10..16]);
    assert UuidDigits(u) == HexEncode(b);
    HexRoundTrip(b);
  }
}
