/**
 The token engine: two lifetimes, the cipher, and the set of revoked tokens it updates in place.
 */
module TokenEngine {
  import opened Text
  import opened TokenPayload
  import opened Tokens
  import Base64Url

  class Engine {
    var cfg: Config
    var initialized: bool
    var revoked: set<string>

    constructor (aead: Aead)
      ensures cfg == Config(aead, 300, 86400) && !initialized && revoked == {}
    {
      cfg := Config(aead, 300, 86400);
      initialized := false;
      revoked := {};
    }

    /**
     The lifetimes are set in any case, and the cipher becomes what the key set-up leaves: `aead`, which
     works only if the key was accepted. The engine is usable once any key was accepted.
     */
    method Initialize(aead: Aead, keyAccepted: bool, accessSeconds: int, refreshSeconds: int) returns (ok: bool)
      modifies this`initialized, this`cfg
      ensures ok == keyAccepted && initialized == (old(initialized) || keyAccepted)
      ensures cfg == Config(aead, accessSeconds, refreshSeconds)
    {
      cfg := cfg.(accessSeconds := accessSeconds, refreshSeconds := refreshSeconds);
      cfg := cfg.(aead := aead);
      ok := keyAccepted;
      if ok {
        initialized := true;
      }
    }

    method EncryptPayload(p: Payload, iv: Option<string>) returns (token: Option<string>)
      ensures token == EncryptToken(cfg.aead, iv, p)
    {
      var serialized := SerializePayload(p);
      if iv.None? {
        return None;
      }
      var ciphertext := iv.value + cfg.aead.seal(iv.value, serialized);
      var encoded := Base64Url.Base64UrlEncode(ciphertext);
      token := Some(encoded);
    }

    method DecryptToken(token: string) returns (result: Decoded)
      ensures result == OpenToken(cfg.aead, token)
    {
      var ok, ciphertext := Base64Url.Base64UrlDecode(token);
      if !ok || |ciphertext| <= IV_SIZE + TAG_SIZE {
        return Rejected;
      }
      match cfg.aead.open(ciphertext[..IV_SIZE], ciphertext[IV_SIZE..]) {
        case None => result := Rejected;
        case Some(plain) => result := DeserializePayload(plain);
      }
    }

    method GenerateTokenPair(server: string, user: string, now: int, ivs: Ivs) returns (pair: Option<Pair>)
      ensures pair == if initialized then Generate(cfg, server, user, now, ivs) else None
    {
      if !initialized {
        return None;
      }
      var access := EncryptPayload(AccessPayload(cfg, server, user, now), ivs.access);
      if access.None? {
        return None;
      }
      var refresh := EncryptPayload(RefreshPayload(cfg, server, user, now), ivs.refresh);
      if refresh.None? {
        return None;
      }
      pair := Some(Pair(access.value, refresh.value));
    }

    method ValidateToken(kind: TokenType, token: string, server: string, now: int) returns (user: Option<string>)
      ensures user == if initialized then Validate(cfg.aead, revoked, kind, token, server, now) else None
    {
      user := None;
      if initialized && token !in revoked {
        if |token| <= MAX_TOKEN_SIZE {
          var content := DecryptToken(token);
          if content.Decoded? {
            var p := content.payload;
            if p.kind == kind && p.server == server && p.expiry > now {
              user := Some(p.user);
            }
          }
        }
      }
    }

    method RevokeToken(token: string)
      modifies this`revoked
      ensures revoked == old(revoked) + {token}
    {
      revoked := revoked + {token};
    }

    /** The presented token is spent even when no new pair can be encrypted. */
    method RefreshTokenPair(token: string, server: string, now: int, ivs: Ivs) returns (pair: Option<Pair>)
      modifies this`revoked
      ensures pair == if initialized then Rotate(cfg, old(revoked), token, server, now, ivs) else None
      ensures var accepted := initialized && Validate(cfg.aead, old(revoked), Refresh, token, server, now).Some?;
              revoked == if accepted then old(revoked) + {token} else old(revoked)
    {
      pair := None;
      var user := ValidateToken(Refresh, token, server, now);
      if user.Some? {
        RevokeToken(token);
        pair := GenerateTokenPair(server, user.value, now, ivs);
      }
    }
  }
}
