/** What `Valid` promises about the tokens `GenerateAtTime` makes, and how
    each of its gates answers. */
module TokenProperties {
  import opened GoTypes
  import opened Wrappers
  import Strings
  import Base64Url
  import Decimal
  import GoTime
  import opened Token

  // ---------------------------------------------------------------- gates

  /** Gate 1: a token without exactly three `.` does not split into four
      fields, and is rejected with an empty identifier and the zero time. */
  lemma SegmentCount(tk: TokenHmacSha, mac: Hmac, token: seq<byte>, d: int64, now: int)
    requires multiset(token)[Dot] != 3
    ensures Valid(tk, mac, token, d, now) == Rejected
  {
    Strings.SplitCount(token, Dot);
  }

  /** Gate 2: if field 1, 2 or 3 is not valid padded base64, the token is
      rejected with an empty identifier and the zero time. */
  lemma DecodeFailure(tk: TokenHmacSha, mac: Hmac, token: seq<byte>, d: int64, now: int)
    requires var f := Strings.Split(token, Dot);
             |f| == 4 &&
             (Base64Url.Decode(f[1]).None? || Base64Url.Decode(f[2]).None? || Base64Url.Decode(f[3]).None?)
    ensures Valid(tk, mac, token, d, now) == Rejected
  {
  }

  /** Field 0 is never decoded: the first gates see only fields 1 to 3, so
      replacing the hash field by anything else without a `.` leaves what
      they extract unchanged. */
  lemma HashFieldNotDecoded(hash: seq<byte>, other: seq<byte>, rest: seq<byte>)
    requires Dot !in hash && Dot !in other
    ensures ParseToken(hash + [Dot] + rest) == ParseToken(other + [Dot] + rest)
  {
    Strings.SplitAfterField(hash, rest, Dot);
    Strings.SplitAfterField(other, rest, Dot);
  }

  /** Gate 3: if the decoded field 3 is not a decimal `int64`, the token is
      rejected with an empty identifier and the zero time. */
  lemma BadTimestamp(tk: TokenHmacSha, mac: Hmac, token: seq<byte>, ts: seq<byte>, d: int64, now: int)
    requires var f := Strings.Split(token, Dot);
             |f| == 4 && Base64Url.Decode(f[3]) == Some(ts)
    requires Decimal.ParseInt(ts).None?
    ensures Valid(tk, mac, token, d, now) == Rejected
  {
  }

  /** Gate 4: a token that takes apart but is not the token rebuilt from its
      parts is refused, yet the decoded identifier and issue time are still
      reported. */
  lemma AuthenticationFailure(tk: TokenHmacSha, mac: Hmac, token: seq<byte>, p: Parts, d: int64, now: int)
    ensures ParseToken(token) == Some(p) && token != GenerateAtTime(tk, mac, p.rnd, p.id, p.nanos)
            ==> Valid(tk, mac, token, d, now) == Verdict(false, p.id, GoTime.Unix(p.nanos))
  {
  }

  // ---------------------------------------------------------------- shape

  /** A generated token holds exactly three `.`, and the four fields
      between them are the encoded HMAC of `rnd.id.ts`, the encoded nonce,
      the encoded identifier and the encoded decimal time, none holding a
      `.`. */
  lemma OutputShape(tk: TokenHmacSha, mac: Hmac, rnd: seq<byte>, id: seq<byte>, nanos: int64)
    ensures var token := GenerateAtTime(tk, mac, rnd, id, nanos);
            var f := Strings.Split(token, Dot);
            var ts := Decimal.FormatInt(nanos);
            && multiset(token)[Dot] == 3
            && f == [Base64Url.Encode(mac(tk.secret, rnd + [Dot] + id + [Dot] + ts)),
                     Base64Url.Encode(rnd), Base64Url.Encode(id), Base64Url.Encode(ts)]
            && forall i :: 0 <= i < |f| ==> Dot !in f[i]
  {
    Strings.SplitCount(GenerateAtTime(tk, mac, rnd, id, nanos), Dot);
  }

  // ---------------------------------------------------------------- round trip

  /** A generated token is valid for as long as its age does not exceed the
      allowed duration, and reports the identifier and issue time it was
      generated with. */
  lemma RoundTrip(tk: TokenHmacSha, mac: Hmac, rnd: seq<byte>, id: seq<byte>, nanos: int64, d: int64, now: int)
    requires now - nanos <= d
    ensures Valid(tk, mac, GenerateAtTime(tk, mac, rnd, id, nanos), d, now)
            == Verdict(true, id, GoTime.Unix(nanos))
  {
    ParseGenerated(tk, mac, rnd, id, nanos);
  }

  /** Gate 5, the expiry boundary: an authentic token is valid exactly when
      its age is at most `d` (an age equal to `d` is still valid), and an
      expired one still reports its identifier and issue time. */
  lemma ExpiryBoundary(tk: TokenHmacSha, mac: Hmac, rnd: seq<byte>, id: seq<byte>, nanos: int64, d: int64, now: int)
    requires now - nanos <= MaxInt64 || d < MaxInt64
    ensures Valid(tk, mac, GenerateAtTime(tk, mac, rnd, id, nanos), d, now)
            == Verdict(now - nanos <= d, id, GoTime.Unix(nanos))
  {
    ParseGenerated(tk, mac, rnd, id, nanos);
    GoTime.SubExceeds(now, nanos, d);
  }

  /** Because `Time.Sub` saturates, a token checked against the largest
      duration never expires, however far the clock has moved. */
  lemma LargestDurationNeverExpires(tk: TokenHmacSha, mac: Hmac, rnd: seq<byte>, id: seq<byte>, nanos: int64, now: int)
    ensures Valid(tk, mac, GenerateAtTime(tk, mac, rnd, id, nanos), MaxInt64, now).valid
  {
    ParseGenerated(tk, mac, rnd, id, nanos);
    GoTime.SubAtMostMax(now, nanos);
  }

  // ---------------------------------------------------------------- acceptance

  /** Canonical acceptance: an accepted token is exactly what
      `GenerateAtTime` makes from its decoded parts, so its hash field is
      the encoding of the HMAC recomputed under the service's secret. */
  lemma AcceptedIsGenerated(tk: TokenHmacSha, mac: Hmac, token: seq<byte>, d: int64, now: int)
    ensures Valid(tk, mac, token, d, now).valid ==>
              && ParseToken(token).Some?
              && var p := ParseToken(token).value;
                 && token == GenerateAtTime(tk, mac, p.rnd, p.id, p.nanos)
                 && Base64Url.Decode(Strings.Split(token, Dot)[0])
                    == Some(mac(tk.secret, MacInput(p.rnd, p.id, Decimal.FormatInt(p.nanos))))
  {
    if Valid(tk, mac, token, d, now).valid {
      var p := ParseToken(token).value;
      Base64Url.DecodeOfEncode(mac(tk.secret, MacInput(p.rnd, p.id, Decimal.FormatInt(p.nanos))));
    }
  }

  /** `Valid` accepts exactly the tokens `GenerateAtTime` can make under the
      service's secret, within the allowed age, and reports the identifier
      and issue time they were made with. */
  lemma ValidIff(tk: TokenHmacSha, mac: Hmac, token: seq<byte>, d: int64, now: int, id: seq<byte>, nanos: int64)
    ensures Valid(tk, mac, token, d, now) == Verdict(true, id, GoTime.Unix(nanos))
            <==> (exists rnd :: token == GenerateAtTime(tk, mac, rnd, id, nanos))
                 && GoTime.Sub(now, nanos) <= d
  {
    if exists rnd :: token == GenerateAtTime(tk, mac, rnd, id, nanos) {
      var rnd :| token == GenerateAtTime(tk, mac, rnd, id, nanos);
      ParseGenerated(tk, mac, rnd, id, nanos);
    }
    if Valid(tk, mac, token, d, now) == Verdict(true, id, GoTime.Unix(nanos)) {
      var p := ParseToken(token).value;
      assert token == GenerateAtTime(tk, mac, p.rnd, id, nanos);
    }
  }

  /** Accepted tokens are written canonically: no field carries non-zero
      dropped base64 bits, and the timestamp is written as `FormatInt`
      writes it. A token that differs from a genuine one only in such
      spellings (a timestamp `+123` or `0123`, a field ending `QR==` for
      `QQ==`) decodes to the same parts but is refused. */
  lemma AcceptedIsCanonical(tk: TokenHmacSha, mac: Hmac, token: seq<byte>, d: int64, now: int)
    ensures Valid(tk, mac, token, d, now).valid ==>
            var f := Strings.Split(token, Dot);
            && |f| == 4
            && Base64Url.ZeroPadBits(f[0]) && Base64Url.ZeroPadBits(f[1])
            && Base64Url.ZeroPadBits(f[2]) && Base64Url.ZeroPadBits(f[3])
            && Base64Url.Decode(f[3]).Some? && Decimal.Canonical(Base64Url.Decode(f[3]).value)
  {
    if Valid(tk, mac, token, d, now).valid {
      var p := ParseToken(token).value;
      var ts := Decimal.FormatInt(p.nanos);
      var f := Strings.Split(token, Dot);
      assert f == Fields(tk, mac, p.rnd, p.id, p.nanos);
      var h := mac(tk.secret, MacInput(p.rnd, p.id, ts));
      Base64Url.DecodeOfEncode(h);
      Base64Url.EncodeOfDecode(f[0], h);
      Base64Url.DecodeOfEncode(p.rnd);
      Base64Url.EncodeOfDecode(f[1], p.rnd);
      Base64Url.DecodeOfEncode(p.id);
      Base64Url.EncodeOfDecode(f[2], p.id);
      Base64Url.DecodeOfEncode(ts);
      Base64Url.EncodeOfDecode(f[3], ts);
      Decimal.FormatCanonical(p.nanos);
    }
  }

  // ---------------------------------------------------------------- tampering

  /** A token generated under another secret whose HMAC differs from this
      service's is refused, whatever its age, with its decoded identifier
      and issue time. */
  lemma WrongSecret(tk: TokenHmacSha, other: TokenHmacSha, mac: Hmac, rnd: seq<byte>, id: seq<byte>,
                    nanos: int64, d: int64, now: int)
    requires var m := MacInput(rnd, id, Decimal.FormatInt(nanos));
             mac(other.secret, m) != mac(tk.secret, m)
    ensures Valid(tk, mac, GenerateAtTime(other, mac, rnd, id, nanos), d, now)
            == Verdict(false, id, GoTime.Unix(nanos))
  {
    var m := MacInput(rnd, id, Decimal.FormatInt(nanos));
    var token := GenerateAtTime(other, mac, rnd, id, nanos);
    ParseGenerated(other, mac, rnd, id, nanos);
    if token == GenerateAtTime(tk, mac, rnd, id, nanos) {
      assert Fields(other, mac, rnd, id, nanos)[0] == Fields(tk, mac, rnd, id, nanos)[0];
      Base64Url.EncodeInjective(mac(other.secret, m), mac(tk.secret, m));
    }
  }

  /** A generated token is its hash field, a `.`, and the other three
      fields. */
  lemma GeneratedTail(tk: TokenHmacSha, mac: Hmac, rnd: seq<byte>, id: seq<byte>, nanos: int64)
    ensures var f := Fields(tk, mac, rnd, id, nanos);
            && Dot !in f[0]
            && GenerateAtTime(tk, mac, rnd, id, nanos) == f[0] + [Dot] + (f[1] + [Dot] + f[2] + [Dot] + f[3])
  {
    Base64Url.EncodeAvoids(mac(tk.secret, MacInput(rnd, id, Decimal.FormatInt(nanos))), Dot);
  }

  /** Two tokens whose first fields differ are different tokens. */
  lemma FirstFieldDiffers(a: seq<byte>, b: seq<byte>, rest: seq<byte>)
    requires Dot !in a && Dot !in b && a != b
    ensures a + [Dot] + rest != b + [Dot] + rest
  {
    Strings.SplitAfterField(a, rest, Dot);
    Strings.SplitAfterField(b, rest, Dot);
    assert Strings.Split(a + [Dot] + rest, Dot)[0] == a;
    assert Strings.Split(b + [Dot] + rest, Dot)[0] == b;
  }

  /** Replacing the hash field of a generated token by anything else without
      a `.` makes it invalid, and the decoded identifier and issue time are
      still reported. */
  lemma ForgedHash(tk: TokenHmacSha, mac: Hmac, rnd: seq<byte>, id: seq<byte>, nanos: int64,
                   forged: seq<byte>, d: int64, now: int)
    requires Dot !in forged
    requires forged != Fields(tk, mac, rnd, id, nanos)[0]
    ensures var f := Fields(tk, mac, rnd, id, nanos);
            Valid(tk, mac, forged + [Dot] + (f[1] + [Dot] + f[2] + [Dot] + f[3]), d, now)
            == Verdict(false, id, GoTime.Unix(nanos))
  {
    var f := Fields(tk, mac, rnd, id, nanos);
    var rest := f[1] + [Dot] + f[2] + [Dot] + f[3];
    GeneratedTail(tk, mac, rnd, id, nanos);
    ParseGenerated(tk, mac, rnd, id, nanos);
    HashFieldNotDecoded(f[0], forged, rest);
    FirstFieldDiffers(forged, f[0], rest);
    AuthenticationFailure(tk, mac, forged + [Dot] + rest, Parts(rnd, id, nanos), d, now);
  }
}
