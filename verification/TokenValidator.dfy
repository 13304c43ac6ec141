/**
  Validation of internal tokens with replay memory. Decoding a token and verifying its signature
  are outside the model: their outcome is a parameter. The claims are `aud`, `exp` and `jti` of
  sections 4.1.3, 4.1.4 and 4.1.7 of RFC 7519 and the repository's own. Times are in nanoseconds.
  A validation reads two clocks: the JWT library always the machine's, at `parsed`; the validator
  the machine's or a configured one, at `now`. Cleanups read the machine's.
 */
module TokenValidator {
  import opened Common

  const SECOND: int := 1_000_000_000
  const FORGET_SECONDS: nat := 5 * 60
  const FORGET_AFTER: int := FORGET_SECONDS * SECOND

  /** The claims as decoded; `exp` is in whole seconds. */
  datatype Claims = Claims(issuer: string, audience: string, exp: int, id: string, caller: string,
                           teamID: string, permissions: seq<string>, isSystem: bool)
  {
    function ExpiresAt(): int { exp * SECOND }
  }

  datatype Config = Config(target: string, allowedCallers: seq<string>, skew: int, replayDetection: bool)

  datatype Options = Options(requireTeamID: bool, requirePermissions: seq<string>, skipTarget: bool, skipCaller: bool)

  datatype TokenError =
    | TokenExpired | InvalidSignature | InvalidToken | InvalidTarget | InvalidCaller
    | TeamRequired | PermissionsMissing | ReplayAttack

  /** A token whose signature holds, or one that cannot be read or verified. */
  datatype Token = Signed(claims: Claims) | Unverified(error: TokenError)

  /** What the JWT library returns: besides verifying, it rejects a token from its expiry on, without tolerance. */
  function ParseWithClaims(parsed: int, token: Token): Result<Claims, TokenError> {
    match token
    case Unverified(e) => Err(e)
    case Signed(c) => if parsed >= c.ExpiresAt() then Err(TokenExpired) else Ok(c)
  }

  /** Every required permission is held, or the wildcard is. */
  ghost predicate Permits(have: seq<string>, require: seq<string>) {
    forall i :: 0 <= i < |require| ==> require[i] in have || "*" in have
  }

  method HasPermissions(have: seq<string>, require: seq<string>) returns (ok: bool)
    ensures ok <==> Permits(have, require)
  {
    var haveMap: map<string, string> := map[];
    for i := 0 to |have|
      invariant haveMap.Keys == set j | 0 <= j < i :: have[j]
    {
      haveMap := haveMap[have[i] := have[i]];
    }
    assert forall p :: p in haveMap <==> p in have;
    for i := 0 to |require|
      invariant forall j :: 0 <= j < i ==> require[j] in have || "*" in have
    {
      if require[i] !in haveMap {
        if "*" !in haveMap {
          return false;
        }
      }
    }
    ok := true;
  }

  ghost predicate CallerAllowed(cfg: Config, c: Claims) {
    c.caller == c.issuer && (cfg.allowedCallers == [] || c.caller in cfg.allowedCallers)
  }

  /** Everything but replay: the first check that fails, in order. */
  ghost function Verdict(cfg: Config, now: int, parsed: int, token: Token, opts: Options): Result<Claims, TokenError> {
    match ParseWithClaims(parsed, token)
    case Err(e) => Err(e)
    case Ok(c) =>
      if now > c.ExpiresAt() + cfg.skew then Err(TokenExpired)
      else if !opts.skipTarget && c.audience != cfg.target then Err(InvalidTarget)
      else if !opts.skipCaller && !CallerAllowed(cfg, c) then Err(InvalidCaller)
      else if opts.requireTeamID && c.teamID == "" && !c.isSystem then Err(TeamRequired)
      else if !Permits(c.permissions, opts.requirePermissions) then Err(PermissionsMissing)
      else Ok(c)
  }

  /** A whole validation: the replay memory after it, and its answer. */
  ghost function Validated(cfg: Config, seen: map<string, int>, now: int, parsed: int, token: Token, opts: Options)
    : (map<string, int>, Result<Claims, TokenError>)
  {
    match Verdict(cfg, now, parsed, token, opts)
    case Err(e) => (seen, Err(e))
    case Ok(c) =>
      if !cfg.replayDetection then (seen, Ok(c))
      else if c.id in seen then (seen, Err(ReplayAttack))
      else (seen[c.id := c.ExpiresAt()], Ok(c))
  }

  /** The memory without the entries that expired more than five minutes before `now`. */
  ghost function Forgotten(seen: map<string, int>, now: int): map<string, int> {
    map id | id in seen && now <= seen[id] + FORGET_AFTER :: seen[id]
  }

  class Validator {
    const cfg: Config
    var jtiCache: map<string, int>

    constructor (cfg: Config)
      ensures this.cfg == cfg && jtiCache == map[]
    {
      this.cfg := cfg;
      jtiCache := map[];
    }

    method IsReplay(jti: string) returns (seen: bool)
      ensures seen <==> jti in jtiCache
    {
      seen := jti in jtiCache;
    }

    /** Remembers the token; says whether the caller starts a cleanup, which happens at every multiple of 100 entries. */
    method RecordJTI(jti: string, expiresAt: int) returns (cleanup: bool)
      modifies `jtiCache
      ensures jtiCache == old(jtiCache)[jti := expiresAt]
      ensures cleanup <==> |jtiCache| % 100 == 0
    {
      jtiCache := jtiCache[jti := expiresAt];
      cleanup := |jtiCache| % 100 == 0;
    }

    method CleanupExpiredJTI(now: int)
      modifies `jtiCache
      ensures jtiCache == Forgotten(old(jtiCache), now)
    {
      var todo := jtiCache.Keys;
      while todo != {}
        invariant todo <= old(jtiCache).Keys && jtiCache.Keys <= old(jtiCache).Keys
        invariant forall id <- jtiCache :: jtiCache[id] == old(jtiCache)[id]
        invariant forall id <- old(jtiCache) ::
                    id in jtiCache <==> id in todo || now <= old(jtiCache)[id] + FORGET_AFTER
        decreases |todo|
      {
        var id :| id in todo;
        todo := todo - {id};
        if now > jtiCache[id] + FORGET_AFTER {
          jtiCache := jtiCache - {id};
        }
      }
    }

    method ValidateWithOptions(now: int, parsed: int, token: Token, opts: Options) returns (r: Result<Claims, TokenError>)
      modifies `jtiCache
      ensures (jtiCache, r) == Validated(cfg, old(jtiCache), now, parsed, token, opts)
    {
      var result := ParseWithClaims(parsed, token);
      if result.Err? {
        return Err(result.error);
      }
      var claims := result.value;
      if now > claims.ExpiresAt() + cfg.skew {
        return Err(TokenExpired);
      }
      if !opts.skipTarget && claims.audience != cfg.target {
        return Err(InvalidTarget);
      }
      if !opts.skipCaller {
        if claims.caller != claims.issuer {
          return Err(InvalidCaller);
        }
        if |cfg.allowedCallers| > 0 {
          var allowed := false;
          for i := 0 to |cfg.allowedCallers|
            invariant !allowed && claims.caller !in cfg.allowedCallers[..i]
            invariant jtiCache == old(jtiCache)
          {
            if cfg.allowedCallers[i] == claims.caller {
              allowed := true;
              break;
            }
          }
          if !allowed {
            return Err(InvalidCaller);
          }
        }
      }
      if opts.requireTeamID && claims.teamID == "" && !claims.isSystem {
        return Err(TeamRequired);
      }
      if |opts.requirePermissions| > 0 {
        var ok := HasPermissions(claims.permissions, opts.requirePermissions);
        if !ok {
          return Err(PermissionsMissing);
        }
      }
      if cfg.replayDetection {
        var replay := IsReplay(claims.id);
        if replay {
          return Err(ReplayAttack);
        }
        var _ := RecordJTI(claims.id, claims.ExpiresAt());
      }
      r := Ok(claims);
    }
  }

  /** A validation accepts exactly when every check it does not skip passes and the token is not remembered. */
  lemma AcceptedExactly(cfg: Config, seen: map<string, int>, now: int, parsed: int, token: Token, opts: Options)
    ensures Validated(cfg, seen, now, parsed, token, opts).1.Ok? <==>
              && token.Signed?
              && parsed < token.claims.ExpiresAt()
              && now <= token.claims.ExpiresAt() + cfg.skew
              && (opts.skipTarget || token.claims.audience == cfg.target)
              && (opts.skipCaller || (token.claims.caller == token.claims.issuer
                                      && (cfg.allowedCallers == [] || token.claims.caller in cfg.allowedCallers)))
              && (opts.requireTeamID ==> token.claims.teamID != "" || token.claims.isSystem)
              && (forall p <- opts.requirePermissions :: p in token.claims.permissions || "*" in token.claims.permissions)
              && (cfg.replayDetection ==> token.claims.id !in seen)
    ensures Validated(cfg, seen, now, parsed, token, opts).1.Ok? ==>
              Validated(cfg, seen, now, parsed, token, opts).1.value == token.claims
    ensures Validated(cfg, seen, now, parsed, token, opts).1.Err? ==> Validated(cfg, seen, now, parsed, token, opts).0 == seen
  {
  }

  /** Each error has its cause: the first of the checks, in this order, that fails. */
  lemma ErrorsExactly(cfg: Config, seen: map<string, int>, now: int, parsed: int, c: Claims, opts: Options)
    ensures var answer := Validated(cfg, seen, now, parsed, Signed(c), opts).1;
            var live := parsed < c.ExpiresAt() && now <= c.ExpiresAt() + cfg.skew;
            var target := opts.skipTarget || c.audience == cfg.target;
            var caller := opts.skipCaller || (c.caller == c.issuer && (cfg.allowedCallers == [] || c.caller in cfg.allowedCallers));
            var team := opts.requireTeamID ==> c.teamID != "" || c.isSystem;
            var allowed := forall p <- opts.requirePermissions :: p in c.permissions || "*" in c.permissions;
            && (answer == Err(TokenExpired) <==> !live)
            && (answer == Err(InvalidTarget) <==> live && !target)
            && (answer == Err(InvalidCaller) <==> live && target && !caller)
            && (answer == Err(TeamRequired) <==> live && target && caller && !team)
            && (answer == Err(PermissionsMissing) <==> live && target && caller && team && !allowed)
            && (answer == Err(ReplayAttack) <==> live && target && caller && team && allowed && cfg.replayDetection && c.id in seen)
    ensures forall e :: Validated(cfg, seen, now, parsed, Unverified(e), opts) == (seen, Err(e))
  {
  }

  // ---------- The skew tolerance ----------

  /** What the tolerance promises at time `at`: the token counts as expired only once the tolerance too has passed. */
  ghost predicate TolerantAt(cfg: Config, at: int, c: Claims, opts: Options) {
    Verdict(cfg, at, at, Signed(c), opts) == Err(TokenExpired) <==> at > c.ExpiresAt() + cfg.skew
  }

  /** By one clock, the promise is kept exactly outside the time between expiry and the end of the tolerance. */
  lemma ToleranceExactly(cfg: Config, at: int, c: Claims, opts: Options)
    ensures TolerantAt(cfg, at, c, opts) <==> !(c.ExpiresAt() <= at <= c.ExpiresAt() + cfg.skew)
  {
  }

  ghost predicate Tolerant(cfg: Config) {
    forall at: int, c: Claims, opts: Options :: TolerantAt(cfg, at, c, opts)
  }

  const FIVE_SECONDS: int := 5 * SECOND

  /** With the default tolerance, a token is refused as expired at the instant of its expiry. */
  lemma RefusedWithinTolerance(cfg: Config, c: Claims, opts: Options)
    requires cfg.skew == FIVE_SECONDS
    ensures Verdict(cfg, c.ExpiresAt(), c.ExpiresAt(), Signed(c), opts) == Err(TokenExpired)
    ensures !TolerantAt(cfg, c.ExpiresAt(), c, opts)
  {
  }

  /** So a configuration keeps the promise for all tokens and times if and only if its tolerance is negative. */
  lemma TolerantExactly(cfg: Config)
    ensures Tolerant(cfg) <==> cfg.skew < 0
  {
    hide TolerantAt;
    if cfg.skew < 0 {
      forall at: int, c: Claims, opts: Options ensures TolerantAt(cfg, at, c, opts) {
        ToleranceExactly(cfg, at, c, opts);
      }
    } else {
      var c := GoodClaims(cfg, "", 0);
      ToleranceExactly(cfg, 0, c, NO_OPTIONS);
    }
  }

  /** A tolerance that is not negative has no effect at all, as long as the validator's clock is not ahead of the machine's. */
  lemma ToleranceHasNoEffect(cfg: Config, skew: int, seen: map<string, int>, now: int, parsed: int, token: Token, opts: Options)
    requires cfg.skew >= 0 && skew >= 0 && now <= parsed
    ensures Validated(cfg.(skew := skew), seen, now, parsed, token, opts) == Validated(cfg, seen, now, parsed, token, opts)
  {
  }

  // ---------- Runs of validations and cleanups ----------

  /** A validation, or a cleanup that runs at `at` with a clock reading `arg` taken when it was started. */
  datatype Event =
    | Validate(now: int, parsed: int, token: Token, opts: Options)
    | Cleanup(at: int, arg: int)
  {
    /** When the event happens, by the machine's clock. */
    function Time(): int {
      match this
      case Validate(_, parsed, _, _) => parsed
      case Cleanup(at, _) => at
    }
  }

  ghost function Step(cfg: Config, seen: map<string, int>, e: Event): map<string, int> {
    match e
    case Validate(now, parsed, token, opts) => Validated(cfg, seen, now, parsed, token, opts).0
    case Cleanup(_, arg) => Forgotten(seen, arg)
  }

  ghost function Run(cfg: Config, events: seq<Event>): map<string, int> {
    if events == [] then map[] else Step(cfg, Run(cfg, events[..|events| - 1]), events[|events| - 1])
  }

  /** Event `i` accepts its token. */
  ghost predicate Accepts(cfg: Config, events: seq<Event>, i: nat) {
    && i < |events| && events[i].Validate? && events[i].token.Signed?
    && Validated(cfg, Run(cfg, events[..i]), events[i].now, events[i].parsed, events[i].token, events[i].opts).1.Ok?
  }

  /** The machine's clock never goes back, and a cleanup's reading is not from the future. */
  ghost predicate Timely(events: seq<Event>) {
    && (forall i, j :: 0 <= i < j < |events| ==> events[i].Time() <= events[j].Time())
    && (forall i :: 0 <= i < |events| && events[i].Cleanup? ==> events[i].arg <= events[i].at)
  }

  /** Signed tokens with the same ID expire at most `gap` seconds apart. */
  ghost predicate ExpiriesWithin(events: seq<Event>, gap: nat) {
    forall i, j :: 0 <= i < |events| && 0 <= j < |events| && events[i].Validate? && events[j].Validate?
                   && events[i].token.Signed? && events[j].token.Signed?
                   && events[i].token.claims.id == events[j].token.claims.id ==>
                   events[j].token.claims.exp <= events[i].token.claims.exp + gap
  }

  /** After a token is accepted it stays remembered until five minutes past its expiry. */
  lemma {:induction false} Remembered(cfg: Config, events: seq<Event>, i: nat, k: nat)
    requires cfg.replayDetection && Timely(events) && Accepts(cfg, events, i) && i < k <= |events|
    ensures var c := events[i].token.claims;
            || (c.id in Run(cfg, events[..k]) && Run(cfg, events[..k])[c.id] == c.ExpiresAt())
            || events[k - 1].Time() > c.ExpiresAt() + FORGET_AFTER
  {
    var prefix := events[..k];
    assert prefix[..k - 1] == events[..k - 1];
    if k > i + 1 {
      Remembered(cfg, events, i, k - 1);
    }
  }

  lemma AtMostOnceWithin(cfg: Config, events: seq<Event>, gap: nat, i: nat, j: nat)
    requires cfg.replayDetection && Timely(events) && ExpiriesWithin(events, gap) && gap <= FORGET_SECONDS
    requires i < j && Accepts(cfg, events, i) && Accepts(cfg, events, j)
    ensures events[i].token.claims.id != events[j].token.claims.id
  {
    Remembered(cfg, events, i, j);
    assert events[j - 1].Time() <= events[j].Time();
  }

  /**
    Replay safety: with replay detection on, in every run of validations and cleanups, tokens with
    one ID (and one expiry) are accepted at most once, although cleanups forget entries; for every
    tolerance, and whatever clock the validator itself is given.
   */
  lemma AtMostOnce(cfg: Config, events: seq<Event>, i: nat, j: nat)
    requires cfg.replayDetection && Timely(events) && ExpiriesWithin(events, 0)
    requires i < j && Accepts(cfg, events, i) && Accepts(cfg, events, j)
    ensures events[i].token.claims.id != events[j].token.claims.id
  {
    AtMostOnceWithin(cfg, events, 0, i, j);
  }

  const NO_OPTIONS := Options(false, [], false, false)

  /** Claims every other check accepts. */
  ghost function GoodClaims(cfg: Config, id: string, exp: int): Claims {
    var caller := if cfg.allowedCallers == [] then "" else cfg.allowedCallers[0];
    Claims(caller, cfg.target, exp, id, caller, "", [], false)
  }

  /**
    Every cleanup was started by a validation that brought the memory to a multiple of 100
    entries, and reads the clock after it.
   */
  ghost predicate Started(cfg: Config, events: seq<Event>) {
    forall i :: 0 <= i < |events| && events[i].Cleanup? ==>
      exists k: nat :: k < i && Accepts(cfg, events, k) && |Run(cfg, events[..k + 1])| % 100 == 0 && events[k].Time() <= events[i].arg
  }

  const LATE: int := SECOND + FORGET_AFTER + 1

  /** Good claims at machine time `at`, by a validator's clock that lags by a negative tolerance. */
  ghost function Good(cfg: Config, at: int, id: string, exp: int): Event {
    Validate(at + (if cfg.skew < 0 then cfg.skew else 0), at, Signed(GoodClaims(cfg, id, exp)), NO_OPTIONS)
  }

  function Name(n: nat): string {
    seq(n, _ => 'x')
  }

  /** A token with the empty ID that expires at one second; then, when it may be forgotten, `n` other tokens. */
  ghost function Fill(cfg: Config, n: nat): seq<Event> {
    if n == 0 then [Good(cfg, 0, "", 1)] else Fill(cfg, n - 1) + [Good(cfg, LATE, Name(n), FORGET_SECONDS + 2)]
  }

  ghost function Remembering(n: nat): map<string, int> {
    if n == 0 then map["" := SECOND] else Remembering(n - 1)[Name(n) := (FORGET_SECONDS + 2) * SECOND]
  }

  lemma {:induction false} RememberingSize(n: nat)
    ensures |Remembering(n)| == n + 1 && "" in Remembering(n) && Remembering(n)[""] == SECOND
    ensures forall id <- Remembering(n) :: |id| <= n
  {
    if n > 0 {
      RememberingSize(n - 1);
    }
  }

  lemma {:induction false} FillShape(cfg: Config, n: nat)
    ensures |Fill(cfg, n)| == n + 1 && Fill(cfg, n)[0] == Good(cfg, 0, "", 1)
    ensures forall k :: 0 < k <= n ==> Fill(cfg, n)[k] == Good(cfg, LATE, Name(k), FORGET_SECONDS + 2)
  {
    if n > 0 {
      FillShape(cfg, n - 1);
    }
  }

  /** A good token is accepted before its expiry unless it is remembered. */
  lemma GoodAccepted(cfg: Config, seen: map<string, int>, at: int, id: string, exp: int)
    requires cfg.replayDetection && at < exp * SECOND && id !in seen
    ensures var e := Good(cfg, at, id, exp);
            Validated(cfg, seen, e.now, e.parsed, e.token, e.opts) == (seen[id := exp * SECOND], Ok(e.token.claims))
  {
  }

  lemma GoodStep(cfg: Config, seen: map<string, int>, at: int, id: string, exp: int)
    requires cfg.replayDetection && at < exp * SECOND && id !in seen
    ensures Step(cfg, seen, Good(cfg, at, id, exp)) == seen[id := exp * SECOND]
  {
    GoodAccepted(cfg, seen, at, id, exp);
  }

  lemma RunSnoc(cfg: Config, events: seq<Event>, e: Event)
    ensures Run(cfg, events + [e]) == Step(cfg, Run(cfg, events), e)
  {
    hide Step;
    assert (events + [e])[..|events|] == events;
  }

  lemma {:induction false} FillRun(cfg: Config, n: nat)
    requires cfg.replayDetection
    ensures Run(cfg, Fill(cfg, n)) == Remembering(n)
  {
    hide Run, Step, Good, Name;
    if n == 0 {
      RunSnoc(cfg, [], Good(cfg, 0, "", 1));
      RunNothing(cfg);
      GoodStep(cfg, map[], 0, "", 1);
      assert [] + [Good(cfg, 0, "", 1)] == [Good(cfg, 0, "", 1)];
    } else {
      FillRun(cfg, n - 1);
      NewName(n);
      RunSnoc(cfg, Fill(cfg, n - 1), Good(cfg, LATE, Name(n), FORGET_SECONDS + 2));
      GoodStep(cfg, Remembering(n - 1), LATE, Name(n), FORGET_SECONDS + 2);
    }
  }

  lemma RunNothing(cfg: Config)
    ensures Run(cfg, []) == map[]
  {
  }

  lemma NewName(n: nat)
    requires n > 0
    ensures Name(n) !in Remembering(n - 1)
  {
    hide Remembering;
    RememberingSize(n - 1);
  }

  /** Accept a token, fill the memory so that it is swept, accept another with the same ID that expires `gap` seconds later. */
  ghost function ReplayRun(cfg: Config, gap: nat): seq<Event> {
    Fill(cfg, 99) + [Cleanup(LATE, LATE)] + [Good(cfg, LATE, "", 1 + gap)]
  }

  lemma ReplayRunShape(cfg: Config, gap: nat)
    ensures var r := ReplayRun(cfg, gap);
            && |r| == 102 && r[0] == Good(cfg, 0, "", 1) && r[100] == Cleanup(LATE, LATE) && r[101] == Good(cfg, LATE, "", 1 + gap)
            && (forall k :: 0 < k < 100 ==> r[k] == Good(cfg, LATE, Name(k), FORGET_SECONDS + 2))
            && r[..100] == Fill(cfg, 99) && r[..101] == Fill(cfg, 99) + [Cleanup(LATE, LATE)]
            && r[..99] == Fill(cfg, 98)
  {
    hide Good;
    FillShape(cfg, 99);
    FillShape(cfg, 98);
    var r := ReplayRun(cfg, gap);
    assert r[..99] == Fill(cfg, 99)[..99];
  }

  lemma ReplayRunPossible(cfg: Config, gap: nat)
    requires gap > FORGET_SECONDS
    ensures Timely(ReplayRun(cfg, gap)) && ExpiriesWithin(ReplayRun(cfg, gap), gap)
  {
    hide ReplayRun;
    ReplayRunShape(cfg, gap);
    var r := ReplayRun(cfg, gap);
    forall k | 0 <= k < |r| && r[k].Validate?
      ensures |r[k].token.claims.id| == k % 101 && (k == 0 || k == 101 || r[k].token.claims.exp == FORGET_SECONDS + 2)
    {
    }
  }

  /** What is left of the memory after the sweep. */
  lemma SweptRun(cfg: Config, gap: nat)
    requires cfg.replayDetection
    ensures |ReplayRun(cfg, gap)| == 102 && "" !in Run(cfg, ReplayRun(cfg, gap)[..101])
    ensures |Run(cfg, ReplayRun(cfg, gap)[..100])| == 100 && Name(99) !in Run(cfg, ReplayRun(cfg, gap)[..99])
  {
    hide ReplayRun, Fill, Run, Remembering, Name, Validated;
    ReplayRunShape(cfg, gap);
    FillRun(cfg, 98);
    FillRun(cfg, 99);
    RememberingSize(99);
    NewName(99);
    RunSnoc(cfg, Fill(cfg, 99), Cleanup(LATE, LATE));
  }

  lemma ReplayRunStarted(cfg: Config, gap: nat)
    requires cfg.replayDetection
    ensures Started(cfg, ReplayRun(cfg, gap))
  {
    hide ReplayRun, Fill, Run, Validated, Name;
    ReplayRunShape(cfg, gap);
    SweptRun(cfg, gap);
    var r := ReplayRun(cfg, gap);
    GoodAccepted(cfg, Run(cfg, r[..99]), LATE, Name(99), FORGET_SECONDS + 2);
    assert Accepts(cfg, r, 99);
  }

  lemma ReplayRunAccepts(cfg: Config, gap: nat)
    requires cfg.replayDetection && gap > FORGET_SECONDS
    ensures Accepts(cfg, ReplayRun(cfg, gap), 0) && Accepts(cfg, ReplayRun(cfg, gap), 101)
  {
    hide ReplayRun, Fill, Run, Validated, Name;
    ReplayRunShape(cfg, gap);
    SweptRun(cfg, gap);
    RunNothing(cfg);
    var r := ReplayRun(cfg, gap);
    assert r[..0] == [];
    GoodAccepted(cfg, map[], 0, "", 1);
    GoodAccepted(cfg, Run(cfg, r[..101]), LATE, "", 1 + gap);
  }

  ghost predicate NeverTwice(cfg: Config, gap: nat) {
    forall events: seq<Event>, i: nat, j: nat ::
      Timely(events) && Started(cfg, events) && ExpiriesWithin(events, gap)
      && i < j && Accepts(cfg, events, i) && Accepts(cfg, events, j) ==>
        events[i].token.claims.id != events[j].token.claims.id
  }

  /**
    How much the five minutes allow: at-most-once holds over all runs in which tokens with one ID
    expire at most `gap` seconds apart if and only if that is at most five minutes.
   */
  lemma AtMostOnceExactly(cfg: Config, gap: nat)
    requires cfg.replayDetection
    ensures NeverTwice(cfg, gap) <==> gap <= FORGET_SECONDS
  {
    hide Timely, ExpiriesWithin, Started, Run, Validated, ReplayRun;
    if gap <= FORGET_SECONDS {
      forall events: seq<Event>, i: nat, j: nat |
        Timely(events) && Started(cfg, events) && ExpiriesWithin(events, gap)
        && i < j && Accepts(cfg, events, i) && Accepts(cfg, events, j)
        ensures events[i].token.claims.id != events[j].token.claims.id
      {
        AtMostOnceWithin(cfg, events, gap, i, j);
      }
    } else {
      ReplayRunPossible(cfg, gap);
      ReplayRunStarted(cfg, gap);
      ReplayRunAccepts(cfg, gap);
      ReplayRunShape(cfg, gap);
      assert ReplayRun(cfg, gap)[0].token.claims.id == ReplayRun(cfg, gap)[101].token.claims.id;
    }
  }
}
