/** The message `generateAtTime` authenticates, `rnd.id.ts`, does not say
    where the nonce ends and the identifier begins: both are raw bytes and
    either may itself hold a `.`. Anyone holding a valid token whose nonce
    or identifier holds a `.` can move the bytes on one side of that `.`
    across the boundary and keep the hash field: the result is a valid
    token for an identifier that was never issued. The identifier is the
    caller's choice, so an identifier `a.b` yields a token for `b`.

    The corrected message authenticates the base64 encodings of the nonce
    and the identifier instead of their raw bytes. Encodings hold no `.`, so
    the message determines the nonce, the identifier and the time it was
    built from. */
module MacFraming {
  import opened GoTypes
  import opened Wrappers
  import Strings
  import Base64Url
  import Decimal
  import GoTime
  import opened Token
  import TokenProperties

  // ---------------------------------------------------------------- as written

  /** Moving the bytes after a `.` of the nonce into the identifier leaves
      the authenticated message unchanged. */
  lemma MacInputAmbiguous(rnd: seq<byte>, k: int, id: seq<byte>, ts: seq<byte>)
    requires 0 <= k < |rnd| && rnd[k] == Dot
    ensures MacInput(rnd[..k], rnd[k + 1..] + [Dot] + id, ts) == MacInput(rnd, id, ts)
  {
    assert rnd == rnd[..k] + [Dot] + rnd[k + 1..];
  }

  /** The splice forgery against the code as written: from the token for
      nonce `rnd` and identifier `id`, keeping its hash and time fields, one
      builds without the secret a token that `Valid` accepts for the
      identifier `rnd[k+1..] + "." + id`. */
  lemma SpliceForgery(tk: TokenHmacSha, mac: Hmac, rnd: seq<byte>, k: int, id: seq<byte>,
                      nanos: int64, d: int64, now: int)
    requires 0 <= k < |rnd| && rnd[k] == Dot
    requires now - nanos <= d
    ensures var f := Fields(tk, mac, rnd, id, nanos);
            var forgedId := rnd[k + 1..] + [Dot] + id;
            var forged := f[0] + [Dot] + Base64Url.Encode(rnd[..k]) + [Dot]
                          + Base64Url.Encode(forgedId) + [Dot] + f[3];
            Valid(tk, mac, forged, d, now) == Verdict(true, forgedId, GoTime.Unix(nanos))
  {
    var forgedId := rnd[k + 1..] + [Dot] + id;
    MacInputAmbiguous(rnd, k, id, Decimal.FormatInt(nanos));
    assert Fields(tk, mac, rnd[..k], forgedId, nanos)[0] == Fields(tk, mac, rnd, id, nanos)[0];
    TokenProperties.RoundTrip(tk, mac, rnd[..k], forgedId, nanos, d, now);
  }

  /** Moving the bytes before a `.` of the identifier into the nonce leaves
      the authenticated message unchanged. */
  lemma MacInputAmbiguousId(rnd: seq<byte>, id: seq<byte>, k: int, ts: seq<byte>)
    requires 0 <= k < |id| && id[k] == Dot
    ensures MacInput(rnd + [Dot] + id[..k], id[k + 1..], ts) == MacInput(rnd, id, ts)
  {
    assert id == id[..k] + [Dot] + id[k + 1..];
  }

  /** The same forgery from the identifier's side, where the caller chooses
      the bytes: from the token for identifier `id` holding a `.` at `k`,
      keeping its hash and time fields, one builds without the secret a
      token that `Valid` accepts for the identifier `id[k+1..]`. */
  lemma IdentifierSpliceForgery(tk: TokenHmacSha, mac: Hmac, rnd: seq<byte>, id: seq<byte>, k: int,
                                nanos: int64, d: int64, now: int)
    requires 0 <= k < |id| && id[k] == Dot
    requires now - nanos <= d
    ensures var f := Fields(tk, mac, rnd, id, nanos);
            var forged := f[0] + [Dot] + Base64Url.Encode(rnd + [Dot] + id[..k]) + [Dot]
                          + Base64Url.Encode(id[k + 1..]) + [Dot] + f[3];
            Valid(tk, mac, forged, d, now) == Verdict(true, id[k + 1..], GoTime.Unix(nanos))
  {
    var forgedRnd := rnd + [Dot] + id[..k];
    MacInputAmbiguousId(rnd, id, k, Decimal.FormatInt(nanos));
    assert Fields(tk, mac, forgedRnd, id[k + 1..], nanos)[0] == Fields(tk, mac, rnd, id, nanos)[0];
    TokenProperties.RoundTrip(tk, mac, forgedRnd, id[k + 1..], nanos, d, now);
  }

  /** The smallest instance: nonce `00 2E 01` and identifier `07` yield a
      valid token for identifier `01 2E 07`. */
  lemma SpliceExample(tk: TokenHmacSha, mac: Hmac, nanos: int64)
    ensures var f := Fields(tk, mac, [0, Dot, 1], [7], nanos);
            var forged := f[0] + [Dot] + Base64Url.Encode([0]) + [Dot]
                          + Base64Url.Encode([1, Dot, 7]) + [Dot] + f[3];
            Valid(tk, mac, forged, 0, nanos) == Verdict(true, [1, Dot, 7], GoTime.Unix(nanos))
  {
    var rnd: seq<byte> := [0, Dot, 1];
    assert rnd[..1] == [0] && rnd[2..] + [Dot] + [7] == [1, Dot, 7];
    SpliceForgery(tk, mac, rnd, 1, [7], nanos, 0, nanos);
  }

  /** From the identifier's side: a token for identifier `a.b` with nonce
      `rnd` yields a valid token for identifier `b`, with nonce `rnd.a`. */
  lemma IdentifierSpliceExample(tk: TokenHmacSha, mac: Hmac, rnd: seq<byte>, nanos: int64)
    ensures var f := Fields(tk, mac, rnd, [97, Dot, 98], nanos);
            var forged := f[0] + [Dot] + Base64Url.Encode(rnd + [Dot] + [97]) + [Dot]
                          + Base64Url.Encode([98]) + [Dot] + f[3];
            Valid(tk, mac, forged, 0, nanos) == Verdict(true, [98], GoTime.Unix(nanos))
  {
    var id: seq<byte> := [97, Dot, 98];
    assert id[..1] == [97] && id[2..] == [98];
    IdentifierSpliceForgery(tk, mac, rnd, id, 1, nanos, 0, nanos);
  }

  // ---------------------------------------------------------------- corrected

  /** The corrected message: the encoded nonce, the encoded identifier and
      the decimal time, joined by `.`. */
  function FramedMacInput(rnd: seq<byte>, id: seq<byte>, nanos: int64): seq<byte> {
    Base64Url.Encode(rnd) + [Dot] + Base64Url.Encode(id) + [Dot] + Decimal.FormatInt(nanos)
  }

  /** Decimal text never holds a `.`. */
  lemma FormatAvoidsDot(n: int64)
    ensures Dot !in Decimal.FormatInt(n)
  {
    if n < 0 {
      assert Decimal.FormatInt(n) == [Decimal.Minus] + Decimal.Digits(-(n as int));
    }
  }

  /** The corrected message splits back into the three parts it joins. */
  lemma FramedMacInputSplit(rnd: seq<byte>, id: seq<byte>, nanos: int64)
    ensures Strings.Split(FramedMacInput(rnd, id, nanos), Dot)
            == [Base64Url.Encode(rnd), Base64Url.Encode(id), Decimal.FormatInt(nanos)]
  {
    var a, b, c := Base64Url.Encode(rnd), Base64Url.Encode(id), Decimal.FormatInt(nanos);
    Base64Url.EncodeAvoids(rnd, Dot);
    Base64Url.EncodeAvoids(id, Dot);
    FormatAvoidsDot(nanos);
    assert a + [Dot] + b + [Dot] + c == a + [Dot] + (b + [Dot] + c);
    Strings.SplitAfterField(a, b + [Dot] + c, Dot);
    Strings.SplitAfterField(b, c, Dot);
    Strings.SplitSingleField(c, Dot);
  }

  /** The corrected message determines the nonce, the identifier and the
      time: two different triples are never authenticated by the same
      message, so no hash can be moved from one to another. */
  lemma FramedMacInputInjective(rnd1: seq<byte>, id1: seq<byte>, nanos1: int64,
                                rnd2: seq<byte>, id2: seq<byte>, nanos2: int64)
    requires FramedMacInput(rnd1, id1, nanos1) == FramedMacInput(rnd2, id2, nanos2)
    ensures rnd1 == rnd2 && id1 == id2 && nanos1 == nanos2
  {
    FramedMacInputSplit(rnd1, id1, nanos1);
    FramedMacInputSplit(rnd2, id2, nanos2);
    Base64Url.EncodeInjective(rnd1, rnd2);
    Base64Url.EncodeInjective(id1, id2);
    Decimal.ParseOfFormat(nanos1);
    Decimal.ParseOfFormat(nanos2);
  }
}
