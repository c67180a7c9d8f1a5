/**
 Runs of the token engine: what holds over every sequence of logins, refreshes, revocations and
 presented tokens.
 */
module TokenRuns {
  import opened Text
  import opened TokenPayload
  import opened Tokens
  import Base64Url

  /** A token the engine handed out, with the bytes it encrypted to and what it stands for. */
  datatype Issued = Issued(ciphertext: string, payload: Payload)

  /** The engine keeps only `revoked`; what was issued, and to whom, is the history of the run. */
  datatype State = State(revoked: set<string>, issued: seq<Issued>, logins: set<(string, string)>)

  const Start := State({}, [], {})

  /**
   A login generates a pair for a user and a server name; both come from the answer of whichever
   backend was asked to authenticate the user. The other events present or revoke token strings.
   */
  datatype Event =
    | Login(server: string, user: string, now: int, ivs: Ivs)
    | RefreshPair(token: string, server: string, now: int, ivs: Ivs)
    | Revoke(token: string)
    | Present(kind: TokenType, token: string, server: string, now: int)

  function IssuedPair(cfg: Config, server: string, user: string, now: int, ivs: Ivs): seq<Issued> {
    if ivs.access.None? || ivs.refresh.None? then []
    else
      var a, r := AccessPayload(cfg, server, user, now), RefreshPayload(cfg, server, user, now);
      [Issued(Ciphertext(cfg.aead, ivs.access.value, a), a), Issued(Ciphertext(cfg.aead, ivs.refresh.value, r), r)]
  }

  /** The user a presented token is accepted for, by a validation or by a refresh. */
  function AcceptedFor(cfg: Config, s: State, e: Event): Option<string> {
    match e
    case RefreshPair(token, server, now, _) => Validate(cfg.aead, s.revoked, Refresh, token, server, now)
    case Present(kind, token, server, now) => Validate(cfg.aead, s.revoked, kind, token, server, now)
    case _ => None
  }

  function Next(cfg: Config, s: State, e: Event): State {
    match e
    case Login(server, user, now, ivs) =>
      s.(issued := s.issued + IssuedPair(cfg, server, user, now, ivs), logins := s.logins + {(server, user)})
    case RefreshPair(token, server, now, ivs) =>
      match AcceptedFor(cfg, s, e) {
        case None => s
        case Some(user) =>
          s.(revoked := s.revoked + {token}, issued := s.issued + IssuedPair(cfg, server, user, now, ivs))
      }
    case Revoke(token) => s.(revoked := s.revoked + {token})
    case Present(_, _, _, _) => s
  }

  function Run(cfg: Config, s: State, events: seq<Event>): State {
    if events == [] then s else Next(cfg, Run(cfg, s, events[..|events| - 1]), events[|events| - 1])
  }

  // ---------------------------------------------------------------- revocation

  /** The revoked set only grows. */
  lemma {:induction false} RevokedGrows(cfg: Config, s: State, events: seq<Event>, i: nat)
    requires i <= |events|
    ensures Run(cfg, s, events[..i]).revoked <= Run(cfg, s, events).revoked
    decreases |events|
  {
    hide Validate, IssuedPair;
    if i == |events| {
      assert events[..i] == events;
    } else {
      var n := |events| - 1;
      RevokedGrows(cfg, s, events[..n], i);
      assert events[..n][..i] == events[..i];
    }
  }

  /** A token string is used for at most one successful refresh in any run, whoever presents it. */
  lemma RefreshAtMostOnce(cfg: Config, s: State, events: seq<Event>, i: nat, j: nat)
    requires i < j < |events|
    requires events[i].RefreshPair? && events[j].RefreshPair? && events[i].token == events[j].token
    ensures AcceptedFor(cfg, Run(cfg, s, events[..i]), events[i]).Some? ==>
              AcceptedFor(cfg, Run(cfg, s, events[..j]), events[j]).None?
  {
    hide IssuedPair;
    assert events[..i + 1][..i] == events[..i] && events[..i + 1][i] == events[i];
    assert AcceptedFor(cfg, Run(cfg, s, events[..i]), events[i]).Some? ==>
             events[i].token in Run(cfg, s, events[..i + 1]).revoked;
    RevokedGrows(cfg, s, events[..j], i + 1);
    assert events[..j][..i + 1] == events[..i + 1];
  }

  /** A revoked token string is never accepted again. */
  lemma RevokedStaysOut(cfg: Config, s: State, events: seq<Event>, i: nat, j: nat)
    requires i < j < |events| && events[i].Revoke?
    requires (events[j].RefreshPair? || events[j].Present?) && events[j].token == events[i].token
    ensures AcceptedFor(cfg, Run(cfg, s, events[..j]), events[j]).None?
  {
    hide IssuedPair;
    assert events[..i + 1][..i] == events[..i] && events[..i + 1][i] == events[i];
    assert events[i].token in Run(cfg, s, events[..i + 1]).revoked;
    RevokedGrows(cfg, s, events[..j], i + 1);
    assert events[..j][..i + 1] == events[..i + 1];
  }

  /** The event puts this string into the revoked set. */
  predicate Spends(cfg: Config, s: State, e: Event, token: string) {
    match e
    case Revoke(t) => t == token
    case RefreshPair(t, _, _, _) => t == token && AcceptedFor(cfg, s, e).Some?
    case _ => false
  }

  /** Some event of the run puts this string into the revoked set. */
  predicate Spent(cfg: Config, s: State, events: seq<Event>, token: string) {
    exists i :: 0 <= i < |events| && Spends(cfg, Run(cfg, s, events[..i]), events[i], token)
  }

  lemma SpentStep(cfg: Config, s: State, events: seq<Event>, token: string)
    requires events != []
    ensures var n := |events| - 1;
            Spent(cfg, s, events, token) <==>
              Spent(cfg, s, events[..n], token) || Spends(cfg, Run(cfg, s, events[..n]), events[n], token)
  {
    hide Spends, Run;
    var n := |events| - 1;
    var init := events[..n];
    assert forall i :: 0 <= i < n ==> init[..i] == events[..i] && init[i] == events[i];
  }

  lemma RevokedStep(cfg: Config, s: State, e: Event, token: string)
    ensures token in Next(cfg, s, e).revoked <==> token in s.revoked || Spends(cfg, s, e, token)
  {
    hide Validate, IssuedPair;
  }

  /** The revoked set holds exactly the strings that were revoked, or presented in a successful refresh. */
  lemma {:induction false} RevokedExactly(cfg: Config, s: State, events: seq<Event>, token: string)
    ensures token in Run(cfg, s, events).revoked <==> token in s.revoked || Spent(cfg, s, events, token)
    decreases |events|
  {
    hide Next, Spends;
    if events == [] {
      assert !Spent(cfg, s, events, token);
    } else {
      var n := |events| - 1;
      RevokedExactly(cfg, s, events[..n], token);
      SpentStep(cfg, s, events, token);
      RevokedStep(cfg, Run(cfg, s, events[..n]), events[n], token);
    }
  }

  /**
   Revocation is of strings, not of tokens. When a refresh was accepted, presenting the same
   ciphertext again later is accepted if and only if it is spelled as a string that is not revoked and
   not too long, for the same server and before the token's expiry.
   */
  lemma RespelledRefresh(cfg: Config, s: State, events: seq<Event>, i: nat, j: nat)
    requires i < j < |events| && events[i].RefreshPair? && events[j].RefreshPair?
    requires Base64Url.Decode(events[i].token) == Base64Url.Decode(events[j].token)
    ensures AcceptedFor(cfg, Run(cfg, s, events[..i]), events[i]).Some? ==>
              var p := OpenToken(cfg.aead, events[i].token).payload;
              (AcceptedFor(cfg, Run(cfg, s, events[..j]), events[j]).Some? <==>
                 && events[j].token !in Run(cfg, s, events[..j]).revoked && |events[j].token| <= MAX_TOKEN_SIZE
                 && events[j].server == events[i].server && events[j].now < p.expiry)
  {
    hide Run, Base64Url.Decode, OpenCiphertext;
  }

  /**
   What a presented string is accepted for, over every run: the history matters only through that very
   string, and the contents may be read off any other spelling of it.
   */
  lemma AcceptedBySpelling(cfg: Config, s: State, events: seq<Event>, j: nat, token: string)
    requires j < |events| && (events[j].RefreshPair? || events[j].Present?)
    requires Base64Url.Decode(token) == Base64Url.Decode(events[j].token)
    ensures var t := events[j].token;
            var kind := if events[j].RefreshPair? then Refresh else events[j].kind;
            AcceptedFor(cfg, Run(cfg, s, events[..j]), events[j]) ==
              if t in s.revoked || Spent(cfg, s, events[..j], t) || |t| > MAX_TOKEN_SIZE then None
              else Verdict(OpenToken(cfg.aead, token), kind, events[j].server, events[j].now)
  {
    RevokedExactly(cfg, s, events[..j], events[j].token);
    hide Run, Spent, Base64Url.Decode, OpenCiphertext, Verdict;
  }

  /** Vectors with which a pair can be issued, and identifiers with room for one more character in the token. */
  ghost predicate Issuable(cfg: Config, server: string, user: string, now: int, ivs: Ivs) {
    && Works(cfg.aead) && IvsOk(ivs) && ivs.access.Some? && ivs.refresh.Some? && InRange(cfg, server, user, now)
    && |server| + |user| <= 3018 && cfg.refreshSeconds > 0
  }

  /** The refresh token of a login, as issued. */
  function RefreshTokenOf(cfg: Config, server: string, user: string, now: int, ivs: Ivs): string
    requires ivs.access.Some? && ivs.refresh.Some?
  {
    Generate(cfg, server, user, now, ivs).value.refresh
  }

  /** With an `=` appended it is a second string with the same contents. */
  lemma PaddedToken(cfg: Config, server: string, user: string, now: int, ivs: Ivs, revoked: set<string>)
    requires Issuable(cfg, server, user, now, ivs)
    ensures var t := RefreshTokenOf(cfg, server, user, now, ivs);
            && (t !in revoked ==> Validate(cfg.aead, revoked, Refresh, t, server, now) == Some(user))
            && (t + "=" !in revoked ==> Validate(cfg.aead, revoked, Refresh, t + "=", server, now) == Some(user))
  {
    var iv, p := ivs.refresh.value, RefreshPayload(cfg, server, user, now);
    var c := Ciphertext(cfg.aead, iv, p);
    var t := RefreshTokenOf(cfg, server, user, now, ivs);
    OpenEncrypted(cfg.aead, iv, p);
    Base64Url.EncodeLength(c);
    Base64Url.PaddingIsIgnored(t, "");
    assert t + "=" + "" == t + "=";
    hide Ciphertext, Base64Url.Decode, Base64Url.Encode, Validate, OpenToken, OpenCiphertext, Works;
    assert |t| <= 4095 by {
      assert |c| == 53 + |server| + |user| <= 3071;
    }
    SpellingAccepted(cfg.aead, iv, p, t, revoked, Refresh, server, now);
    SpellingAccepted(cfg.aead, iv, p, t + "=", revoked, Refresh, server, now);
  }

  /**
   So "one refresh per token" holds of strings only: after a login its refresh token is accepted as
   issued, and then once more with an `=` appended.
   */
  lemma RefreshedTwice(cfg: Config, server: string, user: string, now: int, ivs: Ivs, more: Ivs)
    requires Issuable(cfg, server, user, now, ivs)
    ensures var t := RefreshTokenOf(cfg, server, user, now, ivs);
            var first, second := RefreshPair(t, server, now, more), RefreshPair(t + "=", server, now, more);
            var s := Next(cfg, Start, Login(server, user, now, ivs));
            && AcceptedFor(cfg, s, first) == Some(user)
            && AcceptedFor(cfg, Next(cfg, s, first), second) == Some(user)
  {
    PaddedToken(cfg, server, user, now, ivs, {});
    var t := RefreshTokenOf(cfg, server, user, now, ivs);
    assert |t + "="| != |t|;
    PaddedToken(cfg, server, user, now, ivs, {t});
    hide RefreshTokenOf, Validate, IssuedPair, Issuable;
  }

  /** And a revoked refresh token is refused as issued, but accepted with an `=` appended. */
  lemma RevokedYetAccepted(cfg: Config, server: string, user: string, now: int, ivs: Ivs)
    requires Issuable(cfg, server, user, now, ivs)
    ensures var t := RefreshTokenOf(cfg, server, user, now, ivs);
            var s := Next(cfg, Next(cfg, Start, Login(server, user, now, ivs)), Revoke(t));
            && AcceptedFor(cfg, s, Present(Refresh, t, server, now)) == None
            && AcceptedFor(cfg, s, Present(Refresh, t + "=", server, now)) == Some(user)
  {
    var t := RefreshTokenOf(cfg, server, user, now, ivs);
    assert |t + "="| != |t|;
    PaddedToken(cfg, server, user, now, ivs, {t});
    hide RefreshTokenOf, OpenToken, IssuedPair, Issuable;
  }

  // ---------------------------------------------------------------- where identities come from

  predicate WasIssued(s: State, ciphertext: string) {
    exists i :: 0 <= i < |s.issued| && s.issued[i].ciphertext == ciphertext
  }

  /** The cipher opens the presented token, whatever it finds inside. */
  predicate CipherOpens(a: Aead, token: string) {
    match Base64Url.Decode(token)
    case None => false
    case Some(c) => |c| > IV_SIZE + TAG_SIZE && a.open(c[..IV_SIZE], c[IV_SIZE..]).Some?
  }

  /**
   Ideal integrity, for one presented token: if the cipher opens it, the engine sealed it. Nothing
   is assumed of strings that no one presents.
   */
  predicate Unforged(cfg: Config, s: State, token: string) {
    CipherOpens(cfg.aead, token) ==> WasIssued(s, Base64Url.Decode(token).value)
  }

  /** What the environment provides: vectors of the right size, storable identifiers, unforged tokens. */
  predicate Fair(cfg: Config, s: State, e: Event) {
    match e
    case Login(server, user, now, ivs) => IvsOk(ivs) && InRange(cfg, server, user, now)
    case RefreshPair(token, server, now, ivs) =>
      && IvsOk(ivs) && Unforged(cfg, s, token)
      && (AcceptedFor(cfg, s, e).Some? ==> InRange(cfg, server, AcceptedFor(cfg, s, e).value, now))
    case Revoke(_) => true
    case Present(_, token, _, _) => Unforged(cfg, s, token)
  }

  ghost predicate FairRun(cfg: Config, s: State, events: seq<Event>) {
    forall i :: 0 <= i < |events| ==> Fair(cfg, Run(cfg, s, events[..i]), events[i])
  }

  function Lifetime(cfg: Config, kind: TokenType): int {
    if kind == Access then cfg.accessSeconds else cfg.refreshSeconds
  }

  /** A record is honest when its ciphertext opens to its payload, its identity logged in, and its lifetime is the configured one. */
  predicate Honest(cfg: Config, s: State, r: Issued) {
    && OpenCiphertext(cfg.aead, r.ciphertext) == Decoded(r.payload)
    && (r.payload.server, r.payload.user) in s.logins
    && r.payload.expiry == r.payload.creation + Lifetime(cfg, r.payload.kind)
  }

  predicate AllHonest(cfg: Config, s: State) {
    forall i :: 0 <= i < |s.issued| ==> Honest(cfg, s, s.issued[i])
  }

  lemma AcceptedOpens(a: Aead, revoked: set<string>, kind: TokenType, token: string, server: string, now: int)
    requires Validate(a, revoked, kind, token, server, now).Some?
    ensures CipherOpens(a, token)
  {
    hide Deserialize, Base64Url.Decode;
  }

  /** The record behind an accepted token. */
  lemma AcceptedWasIssued(cfg: Config, s: State, kind: TokenType, token: string, server: string, now: int) returns (i: nat)
    requires AllHonest(cfg, s) && Unforged(cfg, s, token)
    requires Validate(cfg.aead, s.revoked, kind, token, server, now).Some?
    ensures i < |s.issued|
    ensures var p := s.issued[i].payload;
            && p.kind == kind && p.server == server && p.expiry > now
            && Validate(cfg.aead, s.revoked, kind, token, server, now) == Some(p.user)
            && Base64Url.Decode(token) == Some(s.issued[i].ciphertext)
            && (server, p.user) in s.logins
            && p.expiry == p.creation + Lifetime(cfg, kind)
  {
    AcceptedOpens(cfg.aead, s.revoked, kind, token, server, now);
    hide OpenCiphertext, CipherOpens, Base64Url.Decode;
    var c := Base64Url.Decode(token).value;
    i :| 0 <= i < |s.issued| && s.issued[i].ciphertext == c;
    assert Honest(cfg, s, s.issued[i]);
  }

  lemma IssuedHonest(cfg: Config, s: State, server: string, user: string, now: int, ivs: Ivs)
    requires Works(cfg.aead) && IvsOk(ivs) && InRange(cfg, server, user, now)
    requires (server, user) in s.logins
    ensures forall i :: 0 <= i < |IssuedPair(cfg, server, user, now, ivs)| ==>
              Honest(cfg, s, IssuedPair(cfg, server, user, now, ivs)[i])
  {
    hide OpenCiphertext, OpenToken, Ciphertext, Storable;
    if ivs.access.Some? && ivs.refresh.Some? {
      OpenEncrypted(cfg.aead, ivs.access.value, AccessPayload(cfg, server, user, now));
      OpenEncrypted(cfg.aead, ivs.refresh.value, RefreshPayload(cfg, server, user, now));
    }
  }

  lemma StaysHonest(cfg: Config, s: State, s': State, added: seq<Issued>)
    requires AllHonest(cfg, s) && s.logins <= s'.logins && s'.issued == s.issued + added
    requires forall i :: 0 <= i < |added| ==> Honest(cfg, s', added[i])
    ensures AllHonest(cfg, s')
  {
    hide OpenCiphertext;
    forall i | 0 <= i < |s'.issued| ensures Honest(cfg, s', s'.issued[i]) {
      if i < |s.issued| {
        assert Honest(cfg, s, s.issued[i]);
      } else {
        assert s'.issued[i] == added[i - |s.issued|];
      }
    }
  }

  lemma NextHonest(cfg: Config, s: State, e: Event)
    requires Works(cfg.aead) && AllHonest(cfg, s) && Fair(cfg, s, e)
    ensures AllHonest(cfg, Next(cfg, s, e))
  {
    hide Honest, IssuedPair, Validate, Unforged, IvsOk, InRange;
    var s' := Next(cfg, s, e);
    match e
    case Login(server, user, now, ivs) =>
      IssuedHonest(cfg, s', server, user, now, ivs);
      StaysHonest(cfg, s, s', IssuedPair(cfg, server, user, now, ivs));
    case RefreshPair(token, server, now, ivs) =>
      var accepted := AcceptedFor(cfg, s, e);
      if accepted.Some? {
        var i := AcceptedWasIssued(cfg, s, Refresh, token, server, now);
        IssuedHonest(cfg, s', server, accepted.value, now, ivs);
        StaysHonest(cfg, s, s', IssuedPair(cfg, server, accepted.value, now, ivs));
      }
    case Revoke(_) => StaysHonest(cfg, s, s', []);
    case Present(_, _, _, _) =>
  }

  lemma {:induction false} RunHonest(cfg: Config, events: seq<Event>)
    requires Works(cfg.aead) && FairRun(cfg, Start, events)
    ensures AllHonest(cfg, Run(cfg, Start, events))
    decreases |events|
  {
    hide Honest, Fair, Next;
    if events != [] {
      var n := |events| - 1;
      var init := events[..n];
      forall i | 0 <= i < |init| ensures Fair(cfg, Run(cfg, Start, init[..i]), init[i]) {
        assert init[..i] == events[..i];
        assert Fair(cfg, Run(cfg, Start, events[..i]), events[i]);
      }
      RunHonest(cfg, init);
      assert Fair(cfg, Run(cfg, Start, events[..n]), events[n]);
      NextHonest(cfg, Run(cfg, Start, init), events[n]);
    }
  }

  /** The logins of a state are exactly the login events that led to it. */
  lemma {:induction false} LoginsAreEvents(cfg: Config, events: seq<Event>, server: string, user: string)
    ensures (server, user) in Run(cfg, Start, events).logins <==>
            exists i :: 0 <= i < |events| && events[i].Login? && events[i].server == server && events[i].user == user
    decreases |events|
  {
    hide Validate, IssuedPair;
    if events != [] {
      var n := |events| - 1;
      var init := events[..n];
      LoginsAreEvents(cfg, init, server, user);
      assert forall i :: 0 <= i < n ==> init[i] == events[i];
      if i :| 0 <= i < |events| && events[i].Login? && events[i].server == server && events[i].user == user {
        assert i == n || init[i] == events[i];
      }
    }
  }

  /**
   In every fair run, a token that is accepted decodes to the ciphertext of a record issued earlier in
   the run: for the user it is accepted as, for the server it is presented to, with the type it is
   accepted as, and not expired yet. And a pair was generated for that server and user by a login
   earlier in the run, through however many refreshes.
   */
  lemma AcceptedIdentityLoggedIn(cfg: Config, events: seq<Event>, j: nat) returns (i: nat, r: nat)
    requires Works(cfg.aead) && FairRun(cfg, Start, events) && j < |events|
    requires AcceptedFor(cfg, Run(cfg, Start, events[..j]), events[j]).Some?
    ensures var user := AcceptedFor(cfg, Run(cfg, Start, events[..j]), events[j]).value;
            && i < j && events[i].Login? && events[i].server == events[j].server && events[i].user == user
    ensures var s := Run(cfg, Start, events[..j]);
            var kind := if events[j].RefreshPair? then Refresh else events[j].kind;
            && r < |s.issued| && Base64Url.Decode(events[j].token) == Some(s.issued[r].ciphertext)
            && AcceptedFor(cfg, s, events[j]) == Some(s.issued[r].payload.user)
            && s.issued[r].payload.kind == kind && s.issued[r].payload.server == events[j].server
            && events[j].now < s.issued[r].payload.expiry == s.issued[r].payload.creation + Lifetime(cfg, kind)
  {
    hide Honest, Next, Validate, Unforged, IvsOk, InRange;
    var before := events[..j];
    forall k | 0 <= k < |before| ensures Fair(cfg, Run(cfg, Start, before[..k]), before[k]) {
      assert before[..k] == events[..k];
      assert Fair(cfg, Run(cfg, Start, events[..k]), events[k]);
    }
    RunHonest(cfg, before);
    var s := Run(cfg, Start, before);
    assert Fair(cfg, s, events[j]);
    var kind := if events[j].RefreshPair? then Refresh else events[j].kind;
    r := AcceptedWasIssued(cfg, s, kind, events[j].token, events[j].server, events[j].now);
    var user := AcceptedFor(cfg, s, events[j]).value;
    LoginsAreEvents(cfg, before, events[j].server, user);
    i :| 0 <= i < |before| && before[i].Login? && before[i].server == events[j].server && before[i].user == user;
  }

  /** In a fair run the decoder is given only what was issued: no presented token makes it read past its buffer. */
  lemma PresentedStaysInBounds(cfg: Config, events: seq<Event>, j: nat)
    requires Works(cfg.aead) && FairRun(cfg, Start, events) && j < |events|
    requires events[j].RefreshPair? || events[j].Present?
    ensures OpenToken(cfg.aead, events[j].token) != OutOfBounds
  {
    hide Honest, Next, Validate, IvsOk, InRange, Unforged;
    var before := events[..j];
    forall k | 0 <= k < |before| ensures Fair(cfg, Run(cfg, Start, before[..k]), before[k]) {
      assert before[..k] == events[..k];
      assert Fair(cfg, Run(cfg, Start, events[..k]), events[k]);
    }
    RunHonest(cfg, before);
    assert Fair(cfg, Run(cfg, Start, before), events[j]);
    InBounds(cfg, Run(cfg, Start, before), events[j].token);
  }

  lemma InBounds(cfg: Config, s: State, token: string)
    requires AllHonest(cfg, s) && Unforged(cfg, s, token)
    ensures OpenToken(cfg.aead, token) != OutOfBounds
  {
    hide Base64Url.Decode;
    if CipherOpens(cfg.aead, token) {
      var c := Base64Url.Decode(token).value;
      var i :| 0 <= i < |s.issued| && s.issued[i].ciphertext == c;
      assert Honest(cfg, s, s.issued[i]);
    }
  }
}
