/** The scenarios of `token_test.go`, and the lenient spellings the
    validator decodes but refuses, as lemmas about concrete inputs. */
module TokenExamples {
  import opened GoTypes
  import opened Wrappers
  import Strings
  import Base64Url
  import Decimal
  import GoTime
  import opened Token
  import TokenProperties

  /** Four fields without `.`, joined by `.`, split back into themselves. */
  lemma SplitFour(a: seq<byte>, b: seq<byte>, c: seq<byte>, d: seq<byte>)
    requires Dot !in a && Dot !in b && Dot !in c && Dot !in d
    ensures Strings.Split(a + [Dot] + b + [Dot] + c + [Dot] + d, Dot) == [a, b, c, d]
  {
    JoinFour(a, b, c, d);
    Strings.SplitOfJoin([a, b, c, d], Dot);
  }

  /** A token with no `.` at all, such as `badData`, is one field, not four. */
  lemma InvalidEncode(tk: TokenHmacSha, mac: Hmac, d: int64, now: int)
    ensures Valid(tk, mac, Ascii("badData"), d, now) == Rejected
  {
    var token := Ascii("badData");
    assert token == [98, 97, 100, 68, 97, 116, 97];
    Strings.SplitSingleField(token, Dot);
  }

  /** The base64 of some bytes, here of `badstring`, never holds a `.`, so
      it too is a single field. */
  lemma InvalidFormatEncode(tk: TokenHmacSha, mac: Hmac, raw: seq<byte>, d: int64, now: int)
    ensures Valid(tk, mac, Base64Url.Encode(raw), d, now) == Rejected
  {
    Base64Url.EncodeAvoids(raw, Dot);
    TokenProperties.SegmentCount(tk, mac, Base64Url.Encode(raw), d, now);
  }

  /** The raw identifier `12345678` is eight base64 symbols, so as a field
      it decodes (to six bytes). */
  lemma RawIdentifierDecodes()
    ensures Base64Url.Decode(Ascii("12345678")).Some?
    ensures |Base64Url.Decode(Ascii("12345678")).value| == 6
  {
    assert Ascii("12345678") == [49, 50, 51, 52, 53, 54, 55, 56];
  }

  /** The token `hash.rnd.12345678.ts` with `ts` the base64 of `badtime`
      passes the decoding gate, whatever the hash and nonce fields encode
      (the raw identifier field decodes too), and is rejected at the
      timestamp gate with an empty identifier and the zero time. */
  lemma InvalidTimestamp(tk: TokenHmacSha, mac: Hmac, hash: seq<byte>, rnd: seq<byte>, d: int64, now: int)
    ensures var token := Base64Url.Encode(hash) + [Dot] + Base64Url.Encode(rnd) + [Dot]
                         + Ascii("12345678") + [Dot] + Base64Url.Encode(Ascii("badtime"));
            var f := Strings.Split(token, Dot);
            && |f| == 4
            && Base64Url.Decode(f[1]).Some? && Base64Url.Decode(f[2]).Some?
            && Base64Url.Decode(f[3]) == Some(Ascii("badtime"))
            && Decimal.ParseInt(Ascii("badtime")) == None
            && Valid(tk, mac, token, d, now) == Rejected
  {
    var f0, f1, f2 := Base64Url.Encode(hash), Base64Url.Encode(rnd), Ascii("12345678");
    var ts := Ascii("badtime");
    var f3 := Base64Url.Encode(ts);
    assert f2 == [49, 50, 51, 52, 53, 54, 55, 56];
    assert ts == [98, 97, 100, 116, 105, 109, 101];
    Base64Url.EncodeAvoids(hash, Dot);
    Base64Url.EncodeAvoids(rnd, Dot);
    Base64Url.EncodeAvoids(ts, Dot);
    SplitFour(f0, f1, f2, f3);
    Base64Url.DecodeOfEncode(ts);
    Base64Url.DecodeOfEncode(rnd);
    RawIdentifierDecodes();
    assert Decimal.ParseInt(ts) == None;
    TokenProperties.BadTimestamp(tk, mac, f0 + [Dot] + f1 + [Dot] + f2 + [Dot] + f3, ts, d, now);
  }

  /** A token checked a tenth of a second after it was issued (anything
      over 50 ms and up to one second) is valid for ten minutes and for one
      second, and expired for 50 ms, with its identifier and issue time
      reported each time. */
  lemma ValidAndNotExpired(tk: TokenHmacSha, mac: Hmac, rnd: seq<byte>, id: seq<byte>, nanos: int64, now: int)
    requires 50_000_000 < now - nanos <= 1_000_000_000
    ensures var token := GenerateAtTime(tk, mac, rnd, id, nanos);
            && Valid(tk, mac, token, 600_000_000_000, now) == Verdict(true, id, GoTime.Unix(nanos))
            && Valid(tk, mac, token, 1_000_000_000, now) == Verdict(true, id, GoTime.Unix(nanos))
            && Valid(tk, mac, token, 50_000_000, now) == Verdict(false, id, GoTime.Unix(nanos))
  {
    TokenProperties.ExpiryBoundary(tk, mac, rnd, id, nanos, 600_000_000_000, now);
    TokenProperties.ExpiryBoundary(tk, mac, rnd, id, nanos, 1_000_000_000, now);
    TokenProperties.ExpiryBoundary(tk, mac, rnd, id, nanos, 50_000_000, now);
  }

  /** `ParseInt` takes a sign and leading zeros: `+123` and `0123` both
      read as 123, yet `FormatInt` writes `123`, so a token whose timestamp
      field encodes either spelling fails the whole-token comparison. */
  lemma LenientTimestamp()
    ensures Decimal.ParseInt(Ascii("+123")) == Some(123)
    ensures Decimal.ParseInt(Ascii("0123")) == Some(123)
    ensures Decimal.FormatInt(123) == Ascii("123")
    ensures !Decimal.Canonical(Ascii("+123")) && !Decimal.Canonical(Ascii("0123"))
  {
    assert Ascii("+123") == [43, 49, 50, 51];
    assert Ascii("0123") == [48, 49, 50, 51];
    assert Ascii("123") == [49, 50, 51];
    assert [43, 49, 50, 51][1..] == [49, 50, 51];
    assert Decimal.ValueOf([49]) == 1 by { assert [49][..0] == []; }
    assert Decimal.ValueOf([49, 50]) == 12 by { assert [49, 50][..1] == [49]; }
    assert Decimal.ValueOf([49, 50, 51]) == 123 by { assert [49, 50, 51][..2] == [49, 50]; }
    assert Decimal.ValueOf([48]) == 0 by { assert [48][..0] == []; }
    assert Decimal.ValueOf([48, 49]) == 1 by { assert [48, 49][..1] == [48]; }
    assert Decimal.ValueOf([48, 49, 50]) == 12 by { assert [48, 49, 50][..2] == [48, 49]; }
    assert Decimal.ValueOf([48, 49, 50, 51]) == 123 by { assert [48, 49, 50, 51][..3] == [48, 49, 50]; }
  }

  /** Go's padded base64 decoder ignores the bits a final quantum drops:
      `QR==` decodes to `A` as `QQ==` does, but `A` encodes to `QQ==`. */
  lemma LenientBase64()
    ensures Base64Url.Decode(Ascii("QR==")) == Some([65])
    ensures Base64Url.Encode([65]) == Ascii("QQ==")
    ensures !Base64Url.ZeroPadBits(Ascii("QR=="))
  {
    assert Ascii("QR==") == [81, 82, 61, 61];
    assert Ascii("QQ==") == [81, 81, 61, 61];
  }
}
