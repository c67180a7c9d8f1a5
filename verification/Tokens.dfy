/**
 Tokens: issuing, opening, validating, rotating and revoking them.

 The authenticated cipher is a parameter: `seal` and `open` are what the kernel computes under the
 server's key, and `Works` is what any such cipher guarantees. Initialization vectors and the
 clock are inputs; a missing vector stands for an encryption that failed.
 */
module Tokens {
  import opened Text
  import opened TokenPayload
  import Base64Url

  const IV_SIZE: nat := 12
  const TAG_SIZE: nat := 16
  const MAX_TOKEN_SIZE: nat := 4096

  datatype Aead = Aead(seal: (string, string) -> string, open: (string, string) -> Option<string>)

  predicate IsIv(iv: string) {
    |iv| == IV_SIZE && IsBytes(iv)
  }

  /** Opening undoes sealing, and sealing adds a tag of fixed size. */
  ghost predicate Works(a: Aead) {
    forall iv, plain :: IsIv(iv) && IsBytes(plain) ==>
      var sealed := a.seal(iv, plain);
      IsBytes(sealed) && |sealed| == |plain| + TAG_SIZE && a.open(iv, sealed) == Some(plain)
  }

  datatype Config = Config(aead: Aead, accessSeconds: int, refreshSeconds: int)

  /** Identifiers are byte strings short enough for their length fields, and timestamps 64-bit numbers. */
  predicate Storable(p: Payload) {
    && IsBytes(p.server) && IsBytes(p.user) && FIXED_SIZE + |p.server| + |p.user| < TWO32
    && IsInt64(p.creation) && IsInt64(p.expiry)
  }

  // ---------------------------------------------------------------- one token

  function Ciphertext(a: Aead, iv: string, p: Payload): string {
    iv + a.seal(iv, Serialize(p))
  }

  function EncryptToken(a: Aead, iv: Option<string>, p: Payload): Option<string> {
    if iv.None? then None else Some(Base64Url.Encode(Ciphertext(a, iv.value, p)))
  }

  function OpenCiphertext(a: Aead, c: string): Decoded {
    if |c| <= IV_SIZE + TAG_SIZE then Rejected
    else
      match a.open(c[..IV_SIZE], c[IV_SIZE..])
      case None => Rejected
      case Some(plain) => Deserialize(plain)
  }

  function OpenToken(a: Aead, token: string): Decoded {
    match Base64Url.Decode(token)
    case None => Rejected
    case Some(c) => OpenCiphertext(a, c)
  }

  lemma SerializedIsBytes(p: Payload)
    requires IsBytes(p.server) && IsBytes(p.user)
    ensures IsBytes(Serialize(p))
  {
  }

  /** An issued token opens to the payload it was issued for. */
  lemma OpenEncrypted(a: Aead, iv: string, p: Payload)
    requires Works(a) && IsIv(iv) && Storable(p)
    ensures var c := Ciphertext(a, iv, p);
            var token := EncryptToken(a, Some(iv), p).value;
            && Base64Url.Decode(token) == Some(c)
            && |c| == IV_SIZE + TAG_SIZE + FIXED_SIZE + |p.server| + |p.user|
            && OpenCiphertext(a, c) == Decoded(p) && OpenToken(a, token) == Decoded(p)
  {
    hide Serialize, Deserialize, Base64Url.Encode, Base64Url.Decode;
    SerializedIsBytes(p);
    var plain := Serialize(p);
    var sealed := a.seal(iv, plain);
    var c := iv + sealed;
    assert c[..IV_SIZE] == iv && c[IV_SIZE..] == sealed;
    DeserializeSerialize(p);
    Base64Url.DecodeEncode(c);
  }

  lemma TokenSize(a: Aead, iv: string, p: Payload)
    requires Works(a) && IsIv(iv) && Storable(p)
    ensures |EncryptToken(a, Some(iv), p).value| <= MAX_TOKEN_SIZE <==> |p.server| + |p.user| <= 3019
  {
    hide Serialize, Base64Url.Encode;
    OpenEncrypted(a, iv, p);
    var c := Ciphertext(a, iv, p);
    Base64Url.EncodeLength(c);
    var n := |c|;
    assert n == 53 + |p.server| + |p.user|;
    assert Base64Url.EncodedLength(n) <= 4096 <==> n <= 3072;
  }

  // ---------------------------------------------------------------- validation

  function Validate(a: Aead, revoked: set<string>, kind: TokenType, token: string, server: string, now: int)
    : Option<string>
  {
    if token in revoked || |token| > MAX_TOKEN_SIZE then None
    else Verdict(OpenToken(a, token), kind, server, now)
  }

  /** What is asked of the contents of a token. */
  function Verdict(d: Decoded, kind: TokenType, server: string, now: int): Option<string> {
    match d
    case Decoded(p) => if p.kind == kind && p.server == server && p.expiry > now then Some(p.user) else None
    case _ => None
  }

  /**
   The exact acceptance condition of every spelling of an issued token, that is, of every string
   that decodes to its ciphertext: that very string is not revoked, it is not too long, and server,
   type and time are right.
   */
  lemma SpellingAccepted(a: Aead, iv: string, p: Payload, token: string, revoked: set<string>, kind: TokenType,
                         server: string, now: int)
    requires Works(a) && IsIv(iv) && Storable(p)
    requires Base64Url.Decode(token) == Some(Ciphertext(a, iv, p))
    ensures var r := Validate(a, revoked, kind, token, server, now);
            && (r.Some? <==> token !in revoked && |token| <= MAX_TOKEN_SIZE
                             && kind == p.kind && server == p.server && now < p.expiry)
            && (r.Some? ==> r.value == p.user)
  {
    hide Ciphertext, OpenCiphertext, EncryptToken, Base64Url.Decode, Storable;
    OpenEncrypted(a, iv, p);
  }

  /**
   The exact acceptance condition of an issued token: it validates for its own server and type,
   before its expiry, while it is not revoked, if and only if server and user identifier together
   have at most 3019 bytes; and it never validates as anyone else's.
   */
  lemma AcceptedExactly(a: Aead, iv: string, p: Payload, revoked: set<string>, kind: TokenType, server: string, now: int)
    requires Works(a) && IsIv(iv) && Storable(p)
    ensures var token := EncryptToken(a, Some(iv), p).value;
            var r := Validate(a, revoked, kind, token, server, now);
            && (r.Some? <==> token !in revoked && |p.server| + |p.user| <= 3019
                             && kind == p.kind && server == p.server && now < p.expiry)
            && (r.Some? ==> r.value == p.user)
  {
    hide EncryptToken, OpenToken;
    OpenEncrypted(a, iv, p);
    TokenSize(a, iv, p);
  }

  function Letters(n: nat): (s: string)
    ensures |s| == n && IsBytes(s)
  {
    seq(n, i => 'a')
  }

  /** For example a user identifier of 3020 letters: its token is never accepted, as any type, for any server, at any time. */
  lemma LongIdentifierNeverAccepted(a: Aead, iv: string, revoked: set<string>, kind: TokenType, server: string, now: int)
    requires Works(a) && IsIv(iv)
    ensures var p := Payload("", Letters(3020), Access, 0, 300);
            Validate(a, revoked, kind, EncryptToken(a, Some(iv), p).value, server, now) == None
  {
    hide EncryptToken, Validate, Works;
    AcceptedExactly(a, iv, Payload("", Letters(3020), Access, 0, 300), revoked, kind, server, now);
  }

  // ---------------------------------------------------------------- token pairs

  /** The vectors drawn for an access and a refresh token. */
  datatype Ivs = Ivs(access: Option<string>, refresh: Option<string>)

  predicate IvsOk(ivs: Ivs) {
    (ivs.access.Some? ==> IsIv(ivs.access.value)) && (ivs.refresh.Some? ==> IsIv(ivs.refresh.value))
  }

  datatype Pair = Pair(access: string, refresh: string)

  function AccessPayload(cfg: Config, server: string, user: string, now: int): Payload {
    Payload(server, user, Access, now, now + cfg.accessSeconds)
  }

  function RefreshPayload(cfg: Config, server: string, user: string, now: int): Payload {
    Payload(server, user, Refresh, now, now + cfg.refreshSeconds)
  }

  function Generate(cfg: Config, server: string, user: string, now: int, ivs: Ivs): Option<Pair> {
    var access := EncryptToken(cfg.aead, ivs.access, AccessPayload(cfg, server, user, now));
    var refresh := EncryptToken(cfg.aead, ivs.refresh, RefreshPayload(cfg, server, user, now));
    if access.Some? && refresh.Some? then Some(Pair(access.value, refresh.value)) else None
  }

  /** The new pair of a refresh, when the presented token validates and encryption succeeds. */
  function Rotate(cfg: Config, revoked: set<string>, token: string, server: string, now: int, ivs: Ivs): Option<Pair> {
    match Validate(cfg.aead, revoked, Refresh, token, server, now)
    case None => None
    case Some(user) => Generate(cfg, server, user, now, ivs)
  }

  /** What both tokens of a pair say. */
  ghost predicate Carries(cfg: Config, pair: Pair, server: string, user: string) {
    && OpenToken(cfg.aead, pair.access).Decoded? && OpenToken(cfg.aead, pair.refresh).Decoded?
    && var a, r := OpenToken(cfg.aead, pair.access).payload, OpenToken(cfg.aead, pair.refresh).payload;
       a.kind == Access && a.server == server && a.user == user && r.kind == Refresh && r.server == server && r.user == user
  }

  /** Timestamps computed from `now` stay within 64 bits, and the identifiers can be stored. */
  predicate InRange(cfg: Config, server: string, user: string, now: int) {
    Storable(AccessPayload(cfg, server, user, now)) && Storable(RefreshPayload(cfg, server, user, now))
  }

  lemma GenerateCarries(cfg: Config, server: string, user: string, now: int, ivs: Ivs)
    requires Works(cfg.aead) && IvsOk(ivs) && InRange(cfg, server, user, now)
    ensures Generate(cfg, server, user, now, ivs).Some? <==> ivs.access.Some? && ivs.refresh.Some?
    ensures Generate(cfg, server, user, now, ivs).Some? ==>
              Carries(cfg, Generate(cfg, server, user, now, ivs).value, server, user)
  {
    hide OpenToken, Serialize;
    if ivs.access.Some? && ivs.refresh.Some? {
      OpenEncrypted(cfg.aead, ivs.access.value, AccessPayload(cfg, server, user, now));
      OpenEncrypted(cfg.aead, ivs.refresh.value, RefreshPayload(cfg, server, user, now));
    }
  }

  /** A refresh that succeeds was asked for by the server the token names, and keeps server and user. */
  lemma RotateCarries(cfg: Config, pair: Pair, revoked: set<string>, asked: string, now: int, ivs: Ivs, server: string, user: string)
    requires Works(cfg.aead) && IvsOk(ivs) && InRange(cfg, server, user, now)
    requires Carries(cfg, pair, server, user)
    ensures Rotate(cfg, revoked, pair.refresh, asked, now, ivs).Some? ==>
              asked == server && Carries(cfg, Rotate(cfg, revoked, pair.refresh, asked, now, ivs).value, server, user)
  {
    hide OpenToken, Generate, InRange, IvsOk;
    GenerateCarries(cfg, server, user, now, ivs);
  }

  datatype Link = Link(revoked: set<string>, server: string, now: int, ivs: Ivs)

  /** Each pair comes from presenting the refresh token of the one before. */
  ghost predicate IsChain(cfg: Config, pairs: seq<Pair>, links: seq<Link>) {
    && |pairs| == |links| + 1
    && forall k :: 0 <= k < |links| ==>
         var l := links[k];
         Rotate(cfg, l.revoked, pairs[k].refresh, l.server, l.now, l.ivs) == Some(pairs[k + 1])
  }

  /**
   Along a rotation chain of any length, whatever is revoked in between and whatever server name is
   presented, every token carries the server and the user of the pair the chain started from.
   */
  lemma {:induction false} ChainKeepsIdentity(cfg: Config, pairs: seq<Pair>, links: seq<Link>, server: string, user: string, k: nat)
    requires Works(cfg.aead) && IsChain(cfg, pairs, links) && Carries(cfg, pairs[0], server, user)
    requires forall i :: 0 <= i < |links| ==> IvsOk(links[i].ivs) && InRange(cfg, server, user, links[i].now)
    requires k < |pairs|
    ensures Carries(cfg, pairs[k], server, user)
  {
    hide Carries, Rotate, InRange, IvsOk;
    if k > 0 {
      ChainKeepsIdentity(cfg, pairs, links, server, user, k - 1);
      var l := links[k - 1];
      assert Rotate(cfg, l.revoked, pairs[k - 1].refresh, l.server, l.now, l.ivs) == Some(pairs[k - 1 + 1]);
      RotateCarries(cfg, pairs[k - 1], l.revoked, l.server, l.now, l.ivs, server, user);
    }
  }

  // ---------------------------------------------------------------- how long a pair lives

  /** What can be issued: identifiers short enough for their length fields, and times within 64 bits. */
  predicate CanIssue(cfg: Config, server: string, user: string, now: int) {
    && IsBytes(server) && IsBytes(user) && 25 + |server| + |user| < 0x1_0000_0000
    && IsInt64(now) && IsInt64(now + cfg.accessSeconds) && IsInt64(now + cfg.refreshSeconds)
  }

  /** Whatever is revoked, each token of the pair is good for the configured number of seconds, for its server and as its type. */
  ghost predicate LivesFrom(cfg: Config, pair: Pair, server: string, user: string, now: int) {
    forall revoked: set<string>, kind: TokenType, asked: string, t: int ::
      && Validate(cfg.aead, revoked, kind, pair.access, asked, t) ==
         (if pair.access !in revoked && |server| + |user| <= 3019
             && kind == Access && asked == server && t < now + cfg.accessSeconds then Some(user) else None)
      && Validate(cfg.aead, revoked, kind, pair.refresh, asked, t) ==
         (if pair.refresh !in revoked && |server| + |user| <= 3019
             && kind == Refresh && asked == server && t < now + cfg.refreshSeconds then Some(user) else None)
  }

  /**
   The tokens of a generated pair say when they were issued and when they expire, counted from the
   clock at that moment, and are accepted until then.
   */
  lemma GeneratedLifetime(cfg: Config, server: string, user: string, now: int, accessIv: string, refreshIv: string)
    requires Works(cfg.aead) && CanIssue(cfg, server, user, now)
    requires |accessIv| == 12 && IsBytes(accessIv) && |refreshIv| == 12 && IsBytes(refreshIv)
    ensures var pair := Generate(cfg, server, user, now, Ivs(Some(accessIv), Some(refreshIv)));
            && pair.Some?
            && OpenToken(cfg.aead, pair.value.access) == Decoded(Payload(server, user, Access, now, now + cfg.accessSeconds))
            && OpenToken(cfg.aead, pair.value.refresh) == Decoded(Payload(server, user, Refresh, now, now + cfg.refreshSeconds))
            && LivesFrom(cfg, pair.value, server, user, now)
  {
    var a := Payload(server, user, Access, now, now + cfg.accessSeconds);
    var r := Payload(server, user, Refresh, now, now + cfg.refreshSeconds);
    assert AccessPayload(cfg, server, user, now) == a && RefreshPayload(cfg, server, user, now) == r;
    hide OpenToken, EncryptToken, Validate, Ciphertext, OpenCiphertext;
    OpenEncrypted(cfg.aead, accessIv, a);
    OpenEncrypted(cfg.aead, refreshIv, r);
    var pair := Pair(EncryptToken(cfg.aead, Some(accessIv), a).value, EncryptToken(cfg.aead, Some(refreshIv), r).value);
    assert EncryptToken(cfg.aead, Some(accessIv), a).Some? && EncryptToken(cfg.aead, Some(refreshIv), r).Some? by {
      Encrypts(cfg.aead, accessIv, a);
      Encrypts(cfg.aead, refreshIv, r);
    }
    TokenLives(cfg, accessIv, a, pair.access);
    TokenLives(cfg, refreshIv, r, pair.refresh);
  }

  lemma Encrypts(a: Aead, iv: string, p: Payload)
    ensures EncryptToken(a, Some(iv), p).Some?
  {
  }

  lemma TokenLives(cfg: Config, iv: string, p: Payload, token: string)
    requires Works(cfg.aead) && IsIv(iv) && Storable(p) && EncryptToken(cfg.aead, Some(iv), p) == Some(token)
    ensures forall revoked: set<string>, kind: TokenType, asked: string, t: int ::
              Validate(cfg.aead, revoked, kind, token, asked, t) ==
              if token !in revoked && |p.server| + |p.user| <= 3019 && kind == p.kind && asked == p.server && t < p.expiry
              then Some(p.user) else None
  {
    hide EncryptToken, Validate, Works, IsIv, Storable;
    forall revoked: set<string>, kind: TokenType, asked: string, t: int
      ensures Validate(cfg.aead, revoked, kind, token, asked, t) ==
              if token !in revoked && |p.server| + |p.user| <= 3019 && kind == p.kind && asked == p.server && t < p.expiry
              then Some(p.user) else None
    {
      AcceptedExactly(cfg.aead, iv, p, revoked, kind, asked, t);
    }
  }

  /**
   A refresh with an issued refresh token succeeds while that token lives, for its own server only, and
   the new pair's lifetimes are counted from the moment of the refresh.
   */
  lemma RefreshedLifetime(cfg: Config, server: string, user: string, issued: int, first: Ivs, revoked: set<string>,
                          asked: string, now: int, accessIv: string, refreshIv: string)
    requires Works(cfg.aead) && CanIssue(cfg, server, user, issued) && CanIssue(cfg, server, user, now)
    requires |server| + |user| <= 3019
    requires first.access.Some? && |first.access.value| == 12 && IsBytes(first.access.value)
    requires first.refresh.Some? && |first.refresh.value| == 12 && IsBytes(first.refresh.value)
    requires |accessIv| == 12 && IsBytes(accessIv) && |refreshIv| == 12 && IsBytes(refreshIv)
    ensures Generate(cfg, server, user, issued, first).Some?
    ensures var before, pair := Generate(cfg, server, user, issued, first).value,
                  Rotate(cfg, revoked, Generate(cfg, server, user, issued, first).value.refresh, asked, now,
                         Ivs(Some(accessIv), Some(refreshIv)));
            && (pair.Some? <==> before.refresh !in revoked && asked == server && now < issued + cfg.refreshSeconds)
            && (pair.Some? ==> LivesFrom(cfg, pair.value, server, user, now))
  {
    GeneratedLifetime(cfg, server, user, issued, first.access.value, first.refresh.value);
    GeneratedLifetime(cfg, server, user, now, accessIv, refreshIv);
    assert first == Ivs(Some(first.access.value), Some(first.refresh.value));
    var r := Payload(server, user, Refresh, issued, issued + cfg.refreshSeconds);
    assert RefreshPayload(cfg, server, user, issued) == r;
    AcceptedExactly(cfg.aead, first.refresh.value, r, revoked, Refresh, asked, now);
    hide LivesFrom, OpenToken, EncryptToken, Validate, Works;
  }
}
