/** The token scheme of `token.go`: a token is four `.`-separated fields
    `<hash>.<rnd>.<id>.<ts>`, each padded URL-safe base64, where `rnd` is a
    nonce, `ts` the issue time in decimal nanoseconds since the epoch, and
    `hash` the HMAC of `rnd.id.ts` under the service's secret.

    The effectful collaborators are parameters: the HMAC primitive (`mac`),
    the nonce (`rnd`) and the clock (`now`). */
module Token {
  import opened GoTypes
  import opened Wrappers
  import Strings
  import Base64Url
  import Decimal
  import GoTime

  /** The separator `.`, both between the token's fields and inside the
      HMAC input. */
  const Dot: byte := 46

  /** A SHA-512/256 digest. */
  type Digest = s: seq<byte> | |s| == 32 witness seq(32, _ => 0)

  /** HMAC over SHA-512/256: key, message, digest. Deterministic, and
      otherwise unknown to the model. */
  type Hmac = (seq<byte>, seq<byte>) -> Digest

  /** `TokenHmacSha`: the service holds only its secret. */
  datatype TokenHmacSha = TokenHmacSha(secret: seq<byte>)

  /** What a well-formed token carries besides its hash. */
  datatype Parts = Parts(rnd: seq<byte>, id: seq<byte>, nanos: int64)

  /** The `(valid, id, issue)` triple `Valid` returns. */
  datatype Verdict = Verdict(valid: bool, id: seq<byte>, issue: GoTime.Time)

  /** The answer to a token that cannot be taken apart. */
  const Rejected: Verdict := Verdict(false, [], GoTime.Zero)

  /** The message the hash authenticates: `rnd.id.ts`. */
  function MacInput(rnd: seq<byte>, id: seq<byte>, ts: seq<byte>): seq<byte> {
    rnd + [Dot] + id + [Dot] + ts
  }

  /** The four fields a token is made of. */
  function Fields(tk: TokenHmacSha, mac: Hmac, rnd: seq<byte>, id: seq<byte>, nanos: int64): seq<seq<byte>> {
    var ts := Decimal.FormatInt(nanos);
    [ Base64Url.Encode(mac(tk.secret, MacInput(rnd, id, ts))),
      Base64Url.Encode(rnd),
      Base64Url.Encode(id),
      Base64Url.Encode(ts) ]
  }

  lemma JoinFour(a: seq<byte>, b: seq<byte>, c: seq<byte>, d: seq<byte>)
    ensures Strings.Join([a, b, c, d], Dot) == a + [Dot] + b + [Dot] + c + [Dot] + d
  {
    assert [c, d][1..] == [d];
    assert Strings.Join([c, d], Dot) == c + [Dot] + d;
    assert [b, c, d][1..] == [c, d];
    assert Strings.Join([b, c, d], Dot) == b + [Dot] + (c + [Dot] + d);
    assert [a, b, c, d][1..] == [b, c, d];
    assert Strings.Join([a, b, c, d], Dot) == a + [Dot] + (b + [Dot] + (c + [Dot] + d));
  }

  /** `generateAtTime`: the token for nonce `rnd`, identifier `id` and
      issue time `nanos`. Split on `.`, it gives back exactly its four
      encoded fields, however many `.` the nonce or the identifier holds. */
  function GenerateAtTime(tk: TokenHmacSha, mac: Hmac, rnd: seq<byte>, id: seq<byte>, nanos: int64): (token: seq<byte>)
    ensures Strings.Split(token, Dot) == Fields(tk, mac, rnd, id, nanos)
  {
    var f := Fields(tk, mac, rnd, id, nanos);
    var token := f[0] + [Dot] + f[1] + [Dot] + f[2] + [Dot] + f[3];
    Base64Url.EncodeAvoids(mac(tk.secret, MacInput(rnd, id, Decimal.FormatInt(nanos))), Dot);
    Base64Url.EncodeAvoids(rnd, Dot);
    Base64Url.EncodeAvoids(id, Dot);
    Base64Url.EncodeAvoids(Decimal.FormatInt(nanos), Dot);
    JoinFour(f[0], f[1], f[2], f[3]);
    assert f == [f[0], f[1], f[2], f[3]];
    Strings.SplitOfJoin(f, Dot);
    token
  }

  /** `Generate`, with the nonce drawn by `generateRandom(32)` and the clock
      reading `time.Now().UnixNano()` passed in. The token carries both,
      and the identifier, where the validator finds them. */
  function Generate(tk: TokenHmacSha, mac: Hmac, nonce: seq<byte>, id: seq<byte>, now: int64): (token: seq<byte>)
    ensures ParseToken(token) == Some(Parts(nonce, id, now))
  {
    ParseGenerated(tk, mac, nonce, id, now);
    GenerateAtTime(tk, mac, nonce, id, now)
  }

  /** The first gates of `Valid`: exactly four fields, fields 1 to 3 valid
      base64, and the decoded field 3 a decimal `int64`. Field 0 is not
      looked at. */
  function ParseToken(token: seq<byte>): Option<Parts> {
    var fields := Strings.Split(token, Dot);
    if |fields| != 4 then None
    else
      var rnd :- Base64Url.Decode(fields[1]);
      var id :- Base64Url.Decode(fields[2]);
      var ts :- Base64Url.Decode(fields[3]);
      var nanos :- Decimal.ParseInt(ts);
      Some(Parts(rnd, id, nanos))
  }

  /** `Valid(token, d)` at clock reading `now`: a token that cannot be taken
      apart is `Rejected`; otherwise the token is rebuilt from its decoded
      parts and compared whole with the one presented, then its age is
      compared with `d`. Both of those failures still report the decoded
      identifier and issue time. */
  function Valid(tk: TokenHmacSha, mac: Hmac, token: seq<byte>, d: int64, now: int): Verdict {
    match ParseToken(token)
    case None => Rejected
    case Some(p) =>
      var issue := GoTime.Unix(p.nanos);
      if token != GenerateAtTime(tk, mac, p.rnd, p.id, p.nanos) then Verdict(false, p.id, issue)
      else if GoTime.Sub(now, p.nanos) > d then Verdict(false, p.id, issue)
      else Verdict(true, p.id, issue)
  }

  /** The validator takes a generated token apart into exactly the nonce,
      identifier and issue time it was generated from. */
  lemma ParseGenerated(tk: TokenHmacSha, mac: Hmac, rnd: seq<byte>, id: seq<byte>, nanos: int64)
    ensures ParseToken(GenerateAtTime(tk, mac, rnd, id, nanos)) == Some(Parts(rnd, id, nanos))
  {
    Base64Url.DecodeOfEncode(rnd);
    Base64Url.DecodeOfEncode(id);
    Base64Url.DecodeOfEncode(Decimal.FormatInt(nanos));
    Decimal.ParseOfFormat(nanos);
  }
}
