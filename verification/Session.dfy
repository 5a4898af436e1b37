/** The signed session cookie. */
module Session {
  import opened Base64
  import opened Results

  datatype Payload = Payload(username: string, role: string, exp: int, nonce: string)

  datatype SessionError = BadMac | Expired | Malformed

  const DOT: Byte := 46

  /** HMAC-SHA256 and the JSON codec of the payload, about which nothing is assumed here. */
  datatype Crypto = Crypto(
    hmac: (Bytes, Bytes) -> Bytes, marshal: Payload -> Bytes, unmarshal: Bytes -> Option<Payload>)

  function Sign(c: Crypto, secret: Bytes, p: Payload): Bytes {
    var b := Encode(c.marshal(p));
    b + [DOT] + Encode(c.hmac(secret, b))
  }

  /** The position of the first dot, or the length: where `strings.SplitN(cookie, ".", 2)` cuts. */
  function FirstDot(s: Bytes): (i: nat)
    ensures i <= |s|
    ensures i < |s| ==> s[i] == DOT
    ensures forall j :: 0 <= j < i ==> s[j] != DOT
  {
    if s == [] || s[0] == DOT then 0 else FirstDot(s[1..]) + 1
  }

  function Verify(c: Crypto, secret: Bytes, cookie: Bytes, now: int): Result<Payload, SessionError> {
    var i := FirstDot(cookie);
    if i == |cookie| then Err(Malformed)
    else
      var text, got := cookie[..i], Decode(cookie[i + 1..]);
      if got.None? then Err(Malformed)
      else if c.hmac(secret, text) != got.value then Err(BadMac)
      else
        var body := Decode(text);
        if body.None? then Err(Malformed)
        else
          var p := c.unmarshal(body.value);
          if p.None? then Err(Malformed) else if now > p.value.exp then Err(Expired) else Ok(p.value)
  }

  lemma CutAtDot(text: Bytes, mac: Bytes)
    requires DOT !in text
    ensures var cookie := text + [DOT] + mac;
            FirstDot(cookie) == |text| < |cookie| && cookie[..|text|] == text && cookie[|text| + 1..] == mac
  {
    var cookie := text + [DOT] + mac;
    assert cookie[|text|] == DOT;
    assert forall j :: 0 <= j < |text| ==> cookie[j] == text[j] && text[j] in text;
  }

  lemma SignedParts(c: Crypto, secret: Bytes, p: Payload)
    ensures var b, cookie := Encode(c.marshal(p)), Sign(c, secret, p);
            && FirstDot(cookie) == |b| < |cookie| && cookie[..|b|] == b
            && cookie[|b| + 1..] == Encode(c.hmac(secret, b))
  {
    var b := Encode(c.marshal(p));
    assert DOT !in b by {
      assert AllSymbols(b) && !IsSymbol(DOT);
    }
    CutAtDot(b, Encode(c.hmac(secret, b)));
  }

  /** A signed cookie verifies to its payload until it expires. */
  lemma VerifySigned(c: Crypto, secret: Bytes, p: Payload, now: int)
    requires c.unmarshal(c.marshal(p)) == Some(p)
    ensures Verify(c, secret, Sign(c, secret, p), now) == if now <= p.exp then Ok(p) else Err(Expired)
  {
    SignedParts(c, secret, p);
    DecodeEncoded(c.marshal(p));
    DecodeEncoded(c.hmac(secret, Encode(c.marshal(p))));
  }

  /** Another secret accepts the cookie only if it gives the same MAC. */
  lemma OtherSecret(c: Crypto, secret: Bytes, other: Bytes, p: Payload, now: int)
    requires c.unmarshal(c.marshal(p)) == Some(p)
    ensures var b := Encode(c.marshal(p));
            Verify(c, other, Sign(c, secret, p), now) == Err(BadMac) <==> c.hmac(other, b) != c.hmac(secret, b)
  {
    SignedParts(c, secret, p);
    DecodeEncoded(c.marshal(p));
    DecodeEncoded(c.hmac(secret, Encode(c.marshal(p))));
  }

  /** A cookie with this body text and MAC text is one that `Verify` accepts for `p`. */
  ghost predicate Authentic(c: Crypto, secret: Bytes, text: Bytes, mac: Bytes, p: Payload, now: int) {
    && DOT !in text && Decode(mac) == Some(c.hmac(secret, text))
    && Decode(text).Some? && c.unmarshal(Decode(text).value) == Some(p) && now <= p.exp
  }

  lemma AcceptsAuthentic(c: Crypto, secret: Bytes, text: Bytes, mac: Bytes, p: Payload, now: int)
    requires Authentic(c, secret, text, mac, p, now)
    ensures Verify(c, secret, text + [DOT] + mac, now) == Ok(p)
  {
    CutAtDot(text, mac);
  }

  /** `Verify` accepts exactly the cookies whose MAC was computed over their text with the secret. */
  lemma AcceptsExactlyAuthentic(c: Crypto, secret: Bytes, cookie: Bytes, p: Payload, now: int)
    ensures Verify(c, secret, cookie, now) == Ok(p) <==>
            exists text, mac :: cookie == text + [DOT] + mac && Authentic(c, secret, text, mac, p, now)
  {
    if Verify(c, secret, cookie, now) == Ok(p) {
      var i := FirstDot(cookie);
      var text, mac := cookie[..i], cookie[i + 1..];
      assert cookie == text + [DOT] + mac;
      assert Authentic(c, secret, text, mac, p, now);
    }
    if text, mac :| cookie == text + [DOT] + mac && Authentic(c, secret, text, mac, p, now) {
      AcceptsAuthentic(c, secret, text, mac, p, now);
    }
  }

  /** Which error which cookie gets: without a dot, and with its first dot between `text` and `mac`. */
  lemma ErrorsAreExact(c: Crypto, secret: Bytes, cookie: Bytes, text: Bytes, mac: Bytes, now: int)
    requires DOT !in text
    ensures DOT !in cookie ==> Verify(c, secret, cookie, now) == Err(Malformed)
    ensures var r, got, body := Verify(c, secret, text + [DOT] + mac, now), Decode(mac), Decode(text);
            var genuine := got == Some(c.hmac(secret, text));
            var payload := if body.Some? then c.unmarshal(body.value) else None;
            && (r == Err(BadMac) <==> got.Some? && !genuine)
            && (r == Err(Malformed) <==> got == None || (genuine && payload == None))
            && (r == Err(Expired) <==> genuine && payload.Some? && now > payload.value.exp)
            && (r.Ok? <==> genuine && payload.Some? && now <= payload.value.exp)
  {
    CutAtDot(text, mac);
    assert FirstDot(cookie) < |cookie| ==> DOT in cookie;
  }

  /**
   * Beside the signed cookie, exactly those with the same text are accepted whose MAC part differs in
   * line breaks and spare bits only.
   */
  lemma AcceptedVariants(c: Crypto, secret: Bytes, p: Payload, mac: Bytes, now: int)
    requires c.unmarshal(c.marshal(p)) == Some(p)
    ensures var b := Encode(c.marshal(p)); var r := Verify(c, secret, b + [DOT] + mac, now);
            && (r == Verify(c, secret, Sign(c, secret, p), now) <==> Canonical(mac) == Some(Encode(c.hmac(secret, b))))
            && (r.Ok? ==> r.value == p && now <= p.exp)
  {
    var b := Encode(c.marshal(p));
    assert DOT !in b by {
      assert AllSymbols(b) && !IsSymbol(DOT);
    }
    CutAtDot(b, mac);
    VerifySigned(c, secret, p, now);
    DecodeEncoded(c.marshal(p));
    DecodesIff(mac, c.hmac(secret, b));
  }
}
