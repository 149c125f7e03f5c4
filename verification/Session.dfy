/** Sessions bound to a client key: access and refresh tokens, revocation, and replay prevention. */
module Session {
  import opened Bytes

  type Token = bytes

  datatype Session = Session(did: bytes, access: Token, refresh: Token, jkt: bytes, createdAt: nat, expiresAt: nat,
      handle: bytes)

  datatype Store = Store(sessions: map<Token, Session>, refreshIndex: map<Token, Token>,
                         credentials: map<bytes, bytes>, seen: set<bytes>, counter: nat)

  datatype Error = AuthenticationRequired | InvalidToken | ExpiredToken | ReplayDetected
    | MethodMismatch | UriMismatch | TokenHashMismatch | KeyMismatch | ProofExpired

  datatype Claims = Claims(jti: bytes, htm: bytes, htu: bytes, iat: nat, ath: bytes, jkt: bytes)

  /** Token hashing, password hashing, upper-casing and the encoded token hash of proofs. */
  datatype Env = Env(hash: bytes -> bytes, password: bytes -> bytes, upper: bytes -> bytes, tokenHash: bytes -> bytes)

  const LIFETIME_MS: nat := 3600 * 1000
  const CLOCK_SKEW_SECS: nat := 300
  const COLON: byte := ':' as int
  const QUERY: byte := '?' as int
  const ACCESS: bytes := ['a' as int, 'c' as int, 'c' as int, 'e' as int, 's' as int, 's' as int]
  const REFRESH: bytes := ['r' as int, 'e' as int, 'f' as int, 'r' as int, 'e' as int, 's' as int, 'h' as int]

  // ---- Token inputs ----

  function Decimal(n: nat): (s: bytes)
    ensures COLON !in s && s != []
  {
    if n < 10 then ['0' as int + n] else Decimal(n / 10) + ['0' as int + n % 10]
  }

  lemma {:induction false} DecimalInjective(m: nat, n: nat)
    requires Decimal(m) == Decimal(n)
    ensures m == n
  {
    var s, t := Decimal(m), Decimal(n);
    assert s[|s| - 1] == '0' as int + m % 10 && t[|t| - 1] == '0' as int + n % 10;
    assert |s| > 1 <==> m >= 10;
    assert |t| > 1 <==> n >= 10;
    if m >= 10 {
      assert s[..|s| - 1] == Decimal(m / 10) && t[..|t| - 1] == Decimal(n / 10);
      DecimalInjective(m / 10, n / 10);
    }
  }

  function Input(did: bytes, now: nat, kind: bytes, number: nat): bytes {
    did + [COLON] + Decimal(now) + [COLON] + kind + [COLON] + Decimal(number)
  }

  /** Inputs with different numbers differ, whatever the identifiers and times are. */
  lemma InputNumber(d: bytes, t: nat, k: bytes, m: nat, e: bytes, u: nat, l: bytes, n: nat)
    requires Input(d, t, k, m) == Input(e, u, l, n)
    ensures m == n
  {
    LastSeparator(COLON, d + [COLON] + Decimal(t) + [COLON] + k, Decimal(m),
                  e + [COLON] + Decimal(u) + [COLON] + l, Decimal(n));
    DecimalInjective(m, n);
  }

  // ---- The operations ----

  function AccessInput(did: bytes, now: nat, st: Store): bytes {
    Input(did, now, ACCESS, st.counter)
  }

  function RefreshInput(did: bytes, now: nat, st: Store): bytes {
    Input(did, now, REFRESH, st.counter + 1)
  }

  /** A new pair of tokens: the access token names the session, the refresh token the access token. */
  function Issued(env: Env, st: Store, did: bytes, jkt: bytes, handle: bytes, now: nat): (Store, Session) {
    var access, refresh := env.hash(AccessInput(did, now, st)), env.hash(RefreshInput(did, now, st));
    var session := Session(did, access, refresh, jkt, now, now + LIFETIME_MS, handle);
    (st.(sessions := st.sessions[access := session], refreshIndex := st.refreshIndex[refresh := access],
         counter := st.counter + 2), session)
  }

  function Created(env: Env, st: Store, did: bytes, password: bytes, handle: bytes, jkt: bytes, now: nat)
    : (Store, Result<Session, Error>)
  {
    if did in st.credentials && st.credentials[did] == env.password(password) then
      var (after, session) := Issued(env, st, did, jkt, handle, now);
      (after, Ok(session))
    else (st, Err(AuthenticationRequired))
  }

  /** The refresh token is consumed first; the key binding carries over. */
  function Refreshed(env: Env, st: Store, token: Token, now: nat): (Store, Result<Session, Error>) {
    if token !in st.refreshIndex then (st, Err(InvalidToken))
    else
      var access := st.refreshIndex[token];
      var consumed := st.(refreshIndex := st.refreshIndex - {token});
      if access !in st.sessions then (consumed, Err(InvalidToken))
      else
        var previous := st.sessions[access];
        var (after, session) := Issued(env, consumed.(sessions := st.sessions - {access}),
          previous.did, previous.jkt, previous.handle, now);
        (after, Ok(session))
  }

  function Deleted(st: Store, access: Token): (Store, Result<(), Error>) {
    if access !in st.sessions then (st, Err(InvalidToken))
    else
      (st.(sessions := st.sessions - {access}, refreshIndex := st.refreshIndex - {st.sessions[access].refresh}), Ok(()))
  }

  function Found(st: Store, access: Token, now: nat): Result<Session, Error> {
    if access !in st.sessions then Err(InvalidToken)
    else if st.sessions[access].expiresAt < now then Err(ExpiredToken)
    else Ok(st.sessions[access])
  }

  function BeforeQuery(uri: bytes): bytes {
    if uri == [] || uri[0] == QUERY then [] else [uri[0]] + BeforeQuery(uri[1..])
  }

  /** The checks of a proof after its identifier has been recorded; `later` is the clock at the last one. */
  function ProofCheck(env: Env, session: Session, access: Token, claims: Claims, verb: bytes, uri: bytes, later: nat)
    : Result<bytes, Error>
  {
    if env.upper(claims.htm) != env.upper(verb) then Err(MethodMismatch)
    else if claims.htu != BeforeQuery(uri) then Err(UriMismatch)
    else if claims.ath != env.tokenHash(access) then Err(TokenHashMismatch)
    else if claims.jkt != session.jkt then Err(KeyMismatch)
    else if claims.iat + CLOCK_SKEW_SECS < later / 1000 || claims.iat > later / 1000 + CLOCK_SKEW_SECS then
      Err(ProofExpired)
    else Ok(session.did)
  }

  /** An identifier is recorded as soon as the token is found valid, whatever the other checks say. */
  function Verified(env: Env, st: Store, access: Token, claims: Claims, verb: bytes, uri: bytes, now: nat, later: nat)
    : (Store, Result<bytes, Error>)
  {
    match Found(st, access, now)
    case Err(e) => (st, Err(e))
    case Ok(session) =>
      if claims.jti in st.seen then (st, Err(ReplayDetected))
      else (st.(seen := st.seen + {claims.jti}), ProofCheck(env, session, access, claims, verb, uri, later))
  }

  datatype Step =
    | Register(did: bytes, password: bytes)
    | Create(did: bytes, password: bytes, handle: bytes, jkt: bytes, now: nat)
    | Refresh(token: Token, now: nat)
    | Delete(access: Token)
    | Verify(access: Token, claims: Claims, verb: bytes, uri: bytes, now: nat, later: nat)

  function Next(env: Env, st: Store, step: Step): Store {
    match step
    case Register(did, password) => st.(credentials := st.credentials[did := env.password(password)])
    case Create(did, password, handle, jkt, now) => Created(env, st, did, password, handle, jkt, now).0
    case Refresh(token, now) => Refreshed(env, st, token, now).0
    case Delete(access) => Deleted(st, access).0
    case Verify(access, claims, verb, uri, now, later) => Verified(env, st, access, claims, verb, uri, now, later).0
  }

  function Run(env: Env, st: Store, steps: seq<Step>): Store
    decreases |steps|
  {
    if steps == [] then st else Run(env, Next(env, st, steps[0]), steps[1..])
  }

  // ---- Token freshness, on hash inputs that do not collide ----

  /** The inputs that a step hashes into tokens are in `inputs`. */
  ghost predicate HashesWithin(env: Env, st: Store, step: Step, inputs: set<bytes>) {
    match step
    case Create(did, _, _, _, now) => AccessInput(did, now, st) in inputs && RefreshInput(did, now, st) in inputs
    case Refresh(token, now) =>
      token in st.refreshIndex && st.refreshIndex[token] in st.sessions ==>
        var did := st.sessions[st.refreshIndex[token]].did;
        AccessInput(did, now, st) in inputs && RefreshInput(did, now, st) in inputs
    case _ => true
  }

  ghost predicate RunHashesWithin(env: Env, st: Store, steps: seq<Step>, inputs: set<bytes>)
    decreases |steps|
  {
    steps != [] ==>
      HashesWithin(env, st, steps[0], inputs) && RunHashesWithin(env, Next(env, st, steps[0]), steps[1..], inputs)
  }

  /** A token made from an input with a number below `n`. */
  ghost predicate Made(env: Env, inputs: set<bytes>, n: nat, token: Token) {
    exists did: bytes, now: nat, kind: bytes, k: nat ::
      k < n && Input(did, now, kind, k) in inputs && env.hash(Input(did, now, kind, k)) == token
  }

  lemma MadeEarlier(env: Env, inputs: set<bytes>, m: nat, n: nat, token: Token)
    requires m <= n && Made(env, inputs, m, token)
    ensures Made(env, inputs, n, token)
  {
    hide Input;
  }

  lemma MadeNow(env: Env, inputs: set<bytes>, did: bytes, now: nat, kind: bytes, k: nat, n: nat)
    requires k < n && Input(did, now, kind, k) in inputs
    ensures Made(env, inputs, n, env.hash(Input(did, now, kind, k)))
  {
    hide Input;
  }

  /** Tokens made before are not made again. */
  lemma NeverAgain(env: Env, inputs: set<bytes>, n: nat, token: Token, did: bytes, now: nat, kind: bytes, k: nat)
    requires CollisionFree(env.hash, inputs) && Made(env, inputs, n, token)
    requires n <= k && Input(did, now, kind, k) in inputs
    ensures env.hash(Input(did, now, kind, k)) != token
  {
    hide Input;
    var d: bytes, t: nat, l: bytes, j: nat :|
      j < n && Input(d, t, l, j) in inputs && env.hash(Input(d, t, l, j)) == token;
    if env.hash(Input(did, now, kind, k)) == token {
      InputNumber(d, t, l, j, did, now, kind, k);
    }
  }

  // ---- The invariant ----

  /** The session table and the refresh index are inverse to each other. */
  ghost predicate Inverse(st: Store) {
    && (forall a :: a in st.sessions ==> st.sessions[a].access == a)
    && (forall a :: a in st.sessions ==>
          st.sessions[a].refresh in st.refreshIndex && st.refreshIndex[st.sessions[a].refresh] == a)
    && (forall r :: r in st.refreshIndex ==>
          st.refreshIndex[r] in st.sessions && st.sessions[st.refreshIndex[r]].refresh == r)
  }

  ghost predicate Sound(env: Env, inputs: set<bytes>, st: Store) {
    && Inverse(st)
    && st.sessions.Keys !! st.refreshIndex.Keys
    && (forall a :: a in st.sessions ==> Made(env, inputs, st.counter, a))
    && (forall r :: r in st.refreshIndex ==> Made(env, inputs, st.counter, r))
  }

  /** A token that was made and is in neither table. */
  ghost predicate Retired(env: Env, inputs: set<bytes>, st: Store, token: Token) {
    Made(env, inputs, st.counter, token) && token !in st.sessions && token !in st.refreshIndex
  }

  lemma IssueSound(env: Env, inputs: set<bytes>, st: Store, did: bytes, jkt: bytes, handle: bytes, now: nat)
    requires CollisionFree(env.hash, inputs) && Sound(env, inputs, st)
    requires AccessInput(did, now, st) in inputs && RefreshInput(did, now, st) in inputs
    ensures Sound(env, inputs, Issued(env, st, did, jkt, handle, now).0)
  {
    hide Made, CollisionFree, Input;
    var (after, session) := Issued(env, st, did, jkt, handle, now);
    var n := st.counter;
    MadeNow(env, inputs, did, now, ACCESS, n, n + 2);
    MadeNow(env, inputs, did, now, REFRESH, n + 1, n + 2);
    MadeNow(env, inputs, did, now, ACCESS, n, n + 1);
    NeverAgain(env, inputs, n + 1, session.access, did, now, REFRESH, n + 1);
    forall t | Made(env, inputs, n, t)
      ensures t != session.access && t != session.refresh && Made(env, inputs, n + 2, t)
    {
      NeverAgain(env, inputs, n, t, did, now, ACCESS, n);
      NeverAgain(env, inputs, n, t, did, now, REFRESH, n + 1);
      MadeEarlier(env, inputs, n, n + 2, t);
    }
  }

  lemma IssueRetires(env: Env, inputs: set<bytes>, st: Store, did: bytes, jkt: bytes, handle: bytes, now: nat,
      token: Token)
    requires CollisionFree(env.hash, inputs) && Retired(env, inputs, st, token)
    requires AccessInput(did, now, st) in inputs && RefreshInput(did, now, st) in inputs
    ensures Retired(env, inputs, Issued(env, st, did, jkt, handle, now).0, token)
  {
    hide Made, CollisionFree, Input;
    var n := st.counter;
    NeverAgain(env, inputs, n, token, did, now, ACCESS, n);
    NeverAgain(env, inputs, n, token, did, now, REFRESH, n + 1);
    MadeEarlier(env, inputs, n, n + 2, token);
  }

  /** What a successful refresh does before it issues the new pair. */
  function Consumed(st: Store, token: Token): Store
    requires token in st.refreshIndex
  {
    st.(refreshIndex := st.refreshIndex - {token}, sessions := st.sessions - {st.refreshIndex[token]})
  }

  lemma ConsumeSound(env: Env, inputs: set<bytes>, st: Store, token: Token)
    requires Sound(env, inputs, st) && token in st.refreshIndex
    ensures Sound(env, inputs, Consumed(st, token))
    ensures Retired(env, inputs, Consumed(st, token), token)
    ensures Retired(env, inputs, Consumed(st, token), st.refreshIndex[token])
  {
    hide Made;
  }

  lemma NextSound(env: Env, inputs: set<bytes>, st: Store, step: Step)
    requires CollisionFree(env.hash, inputs) && Sound(env, inputs, st) && HashesWithin(env, st, step, inputs)
    ensures Sound(env, inputs, Next(env, st, step))
  {
    hide Made, CollisionFree, Input, Issued, BeforeQuery, ProofCheck;
    match step {
      case Register(_, _) =>
      case Create(did, password, handle, jkt, now) =>
        IssueSound(env, inputs, st, did, jkt, handle, now);
      case Refresh(token, now) =>
        if token in st.refreshIndex {
          var previous := st.sessions[st.refreshIndex[token]];
          ConsumeSound(env, inputs, st, token);
          IssueSound(env, inputs, Consumed(st, token), previous.did, previous.jkt, previous.handle, now);
        }
      case Delete(access) =>
        if access in st.sessions {
          ConsumeSound(env, inputs, st, st.sessions[access].refresh);
        }
      case Verify(_, _, _, _, _, _) =>
    }
  }

  lemma {:induction false} RunSound(env: Env, inputs: set<bytes>, st: Store, steps: seq<Step>)
    requires CollisionFree(env.hash, inputs) && Sound(env, inputs, st) && RunHashesWithin(env, st, steps, inputs)
    ensures Sound(env, inputs, Run(env, st, steps))
    decreases |steps|
  {
    hide Sound, CollisionFree, HashesWithin, Next;
    if steps != [] {
      NextSound(env, inputs, st, steps[0]);
      RunSound(env, inputs, Next(env, st, steps[0]), steps[1..]);
    }
  }

  lemma InitiallySound(env: Env, inputs: set<bytes>)
    ensures Sound(env, inputs, Store(map[], map[], map[], {}, 0))
  {
  }

  // ---- Tokens that are gone stay gone ----

  lemma ConsumeRetires(env: Env, inputs: set<bytes>, st: Store, token: Token, gone: Token)
    requires token in st.refreshIndex && Retired(env, inputs, st, gone)
    ensures Retired(env, inputs, Consumed(st, token), gone)
  {
    hide Made;
  }

  lemma NextRetires(env: Env, inputs: set<bytes>, st: Store, step: Step, token: Token)
    requires CollisionFree(env.hash, inputs) && Sound(env, inputs, st) && HashesWithin(env, st, step, inputs)
    requires Retired(env, inputs, st, token)
    ensures Retired(env, inputs, Next(env, st, step), token)
  {
    hide Made, CollisionFree, Input, Issued, BeforeQuery, ProofCheck;
    match step {
      case Register(_, _) =>
      case Create(did, password, handle, jkt, now) =>
        IssueRetires(env, inputs, st, did, jkt, handle, now, token);
      case Refresh(used, now) =>
        if used in st.refreshIndex {
          var previous := st.sessions[st.refreshIndex[used]];
          ConsumeRetires(env, inputs, st, used, token);
          IssueRetires(env, inputs, Consumed(st, used), previous.did, previous.jkt, previous.handle, now, token);
        }
      case Delete(access) =>
      case Verify(_, _, _, _, _, _) =>
    }
  }

  lemma {:induction false} RetiredForever(env: Env, inputs: set<bytes>, st: Store, steps: seq<Step>, token: Token)
    requires CollisionFree(env.hash, inputs) && Sound(env, inputs, st) && RunHashesWithin(env, st, steps, inputs)
    requires Retired(env, inputs, st, token)
    ensures Retired(env, inputs, Run(env, st, steps), token)
    decreases |steps|
  {
    hide Sound, CollisionFree, HashesWithin, Next, Retired;
    if steps != [] {
      NextSound(env, inputs, st, steps[0]);
      NextRetires(env, inputs, st, steps[0], token);
      RetiredForever(env, inputs, Next(env, st, steps[0]), steps[1..], token);
    }
  }

  /** A refresh token that succeeded once never succeeds again, and the access token it replaced is invalid from then
      on. */
  lemma {:induction false} RefreshOnce(env: Env, inputs: set<bytes>, st: Store, token: Token, now: nat,
      steps: seq<Step>, later: nat)
    requires CollisionFree(env.hash, inputs) && Sound(env, inputs, st)
    requires RunHashesWithin(env, st, [Refresh(token, now)] + steps, inputs)
    requires Refreshed(env, st, token, now).1.Ok?
    ensures var after := Run(env, st, [Refresh(token, now)] + steps);
      && Refreshed(env, after, token, later).1 == Err(InvalidToken)
      && Found(after, st.refreshIndex[token], later) == Err(InvalidToken)
  {
    hide Made, CollisionFree, Input, Issued;
    var step := Refresh(token, now);
    var previous := st.sessions[st.refreshIndex[token]];
    assert ([step] + steps)[1..] == steps;
    NextSound(env, inputs, st, step);
    ConsumeSound(env, inputs, st, token);
    IssueRetires(env, inputs, Consumed(st, token), previous.did, previous.jkt, previous.handle, now, token);
    IssueRetires(env, inputs, Consumed(st, token), previous.did, previous.jkt, previous.handle, now,
                 st.refreshIndex[token]);
    RetiredForever(env, inputs, Next(env, st, step), steps, token);
    RetiredForever(env, inputs, Next(env, st, step), steps, st.refreshIndex[token]);
  }

  /** Deleting a session kills its access token and its refresh token for good. */
  lemma {:induction false} DeletedForever(env: Env, inputs: set<bytes>, st: Store, access: Token, steps: seq<Step>,
      later: nat)
    requires CollisionFree(env.hash, inputs) && Sound(env, inputs, st) && access in st.sessions
    requires RunHashesWithin(env, st, [Delete(access)] + steps, inputs)
    ensures var after := Run(env, st, [Delete(access)] + steps);
      && Found(after, access, later) == Err(InvalidToken)
      && Refreshed(env, after, st.sessions[access].refresh, later).1 == Err(InvalidToken)
  {
    hide Made, CollisionFree, Input, Issued;
    var step := Delete(access);
    assert ([step] + steps)[1..] == steps;
    NextSound(env, inputs, st, step);
    ConsumeSound(env, inputs, st, st.sessions[access].refresh);
    RetiredForever(env, inputs, Next(env, st, step), steps, access);
    RetiredForever(env, inputs, Next(env, st, step), steps, st.sessions[access].refresh);
  }

  // ---- Lineages ----

  /** Where the session that `access` names has got to: each refresh of it moves on, and deletion ends it. */
  function FollowStep(env: Env, st: Store, step: Step, access: Option<Token>): Option<Token> {
    match access
    case None => None
    case Some(a) =>
      match step
      case Refresh(token, now) =>
        if token in st.refreshIndex && st.refreshIndex[token] == a && Refreshed(env, st, token, now).1.Ok?
        then Some(Refreshed(env, st, token, now).1.value.access) else Some(a)
      case Delete(gone) => if gone == a then None else Some(a)
      case _ => Some(a)
  }

  function Follow(env: Env, st: Store, steps: seq<Step>, access: Option<Token>): Option<Token>
    decreases |steps|
  {
    if steps == [] then access
    else Follow(env, Next(env, st, steps[0]), steps[1..], FollowStep(env, st, steps[0], access))
  }

  ghost predicate BoundTo(st: Store, access: Option<Token>, did: bytes, jkt: bytes, handle: bytes) {
    access.Some? ==>
      access.value in st.sessions
      && st.sessions[access.value].did == did && st.sessions[access.value].jkt == jkt
      && st.sessions[access.value].handle == handle
  }

  lemma {:induction false} IssueKeeps(env: Env, inputs: set<bytes>, st: Store, did: bytes, jkt: bytes,
      handle: bytes, now: nat, a: Token)
    requires CollisionFree(env.hash, inputs) && Sound(env, inputs, st) && a in st.sessions
    requires AccessInput(did, now, st) in inputs
    ensures var after := Issued(env, st, did, jkt, handle, now).0;
      a in after.sessions && after.sessions[a] == st.sessions[a]
  {
    hide Made, CollisionFree, Input;
    NeverAgain(env, inputs, st.counter, a, did, now, ACCESS, st.counter);
  }

  lemma {:induction false} NextKeepsBinding(env: Env, inputs: set<bytes>, st: Store, step: Step,
      access: Option<Token>, did: bytes, jkt: bytes, handle: bytes)
    requires CollisionFree(env.hash, inputs) && Sound(env, inputs, st) && HashesWithin(env, st, step, inputs)
    requires BoundTo(st, access, did, jkt, handle)
    ensures BoundTo(Next(env, st, step), FollowStep(env, st, step, access), did, jkt, handle)
  {
    hide Made, CollisionFree, Input, BeforeQuery, ProofCheck;
    if access.Some? {
      var a := access.value;
      match step {
        case Register(_, _) =>
        case Create(d, password, h, j, now) =>
          IssueKeeps(env, inputs, st, d, j, h, now, a);
        case Refresh(token, now) =>
          if token in st.refreshIndex && st.refreshIndex[token] != a {
            var previous := st.sessions[st.refreshIndex[token]];
            ConsumeSound(env, inputs, st, token);
            IssueKeeps(env, inputs, Consumed(st, token), previous.did, previous.jkt, previous.handle, now, a);
          }
        case Delete(gone) =>
        case Verify(_, _, _, _, _, _) =>
      }
    }
  }

  /** Along every refresh lineage the account, the client key and the handle never change. */
  lemma {:induction false} LineageKeepsBinding(env: Env, inputs: set<bytes>, st: Store, steps: seq<Step>,
      access: Option<Token>, did: bytes, jkt: bytes, handle: bytes)
    requires CollisionFree(env.hash, inputs) && Sound(env, inputs, st) && RunHashesWithin(env, st, steps, inputs)
    requires BoundTo(st, access, did, jkt, handle)
    ensures BoundTo(Run(env, st, steps), Follow(env, st, steps, access), did, jkt, handle)
    decreases |steps|
  {
    hide Sound, CollisionFree, HashesWithin, Next, FollowStep, BoundTo;
    if steps != [] {
      NextSound(env, inputs, st, steps[0]);
      NextKeepsBinding(env, inputs, st, steps[0], access, did, jkt, handle);
      LineageKeepsBinding(env, inputs, Next(env, st, steps[0]), steps[1..],
        FollowStep(env, st, steps[0], access), did, jkt, handle);
    }
  }

  /** However often a session was refreshed, a request on it is accepted only with a proof by its original key. */
  lemma AcceptedKeyIsOriginal(env: Env, inputs: set<bytes>, st: Store, steps: seq<Step>, access: Token,
      claims: Claims, verb: bytes, uri: bytes, now: nat, later: nat)
    requires CollisionFree(env.hash, inputs) && Sound(env, inputs, st) && RunHashesWithin(env, st, steps, inputs)
    requires access in st.sessions && Follow(env, st, steps, Some(access)).Some?
    requires
      Verified(env, Run(env, st, steps), Follow(env, st, steps, Some(access)).value, claims, verb, uri, now, later)
      .1.Ok?
    ensures claims.jkt == st.sessions[access].jkt
    ensures
      Verified(env, Run(env, st, steps), Follow(env, st, steps, Some(access)).value, claims, verb, uri, now, later).1
         == Ok(st.sessions[access].did)
  {
    hide Sound, CollisionFree, Run, Follow;
    var session := st.sessions[access];
    LineageKeepsBinding(env, inputs, st, steps, Some(access), session.did, session.jkt, session.handle);
  }

  // ---- What is accepted ----

  /** `path` is `uri` up to its first question mark. */
  ghost predicate WithoutQuery(path: bytes, uri: bytes) {
    path <= uri && QUERY !in path && (path == uri || uri[|path|] == QUERY)
  }

  lemma {:induction false} BeforeQueryExact(uri: bytes, path: bytes)
    ensures BeforeQuery(uri) == path <==> WithoutQuery(path, uri)
    decreases |uri|
  {
    if uri != [] && uri[0] != QUERY {
      if path != [] {
        BeforeQueryExact(uri[1..], path[1..]);
        assert path == [path[0]] + path[1..] && uri == [uri[0]] + uri[1..];
        assert path <= uri <==> path[0] == uri[0] && path[1..] <= uri[1..];
      }
    }
  }

  /** The session a token stands for is there and its time is not over. */
  ghost predicate Alive(st: Store, access: Token, now: nat) {
    access in st.sessions && now <= st.sessions[access].expiresAt
  }

  ghost predicate Recent(iat: nat, seconds: nat) {
    seconds <= iat + 300 && iat <= seconds + 300
  }

  /**
   * A request is accepted, for the account of the session, iff its token is alive, its proof identifier is new, and the
   * proof is for this method, this address without its query, this token, the session's key and this time.
   */
  lemma VerifiedIff(env: Env, st: Store, access: Token, claims: Claims, verb: bytes, uri: bytes, now: nat, later: nat)
    ensures
      var (after, r) := Verified(env, st, access, claims, verb, uri, now, later);
      && (r.Ok? <==>
          && Alive(st, access, now) && claims.jti !in st.seen
          && env.upper(claims.htm) == env.upper(verb) && WithoutQuery(claims.htu, uri)
          && claims.ath == env.tokenHash(access) && claims.jkt == st.sessions[access].jkt
          && Recent(claims.iat, later / 1000))
      && (r.Ok? ==> r.value == st.sessions[access].did)
      && after == st.(seen := if Alive(st, access, now) then st.seen + {claims.jti} else st.seen)
  {
    hide BeforeQuery;
    BeforeQueryExact(uri, claims.htu);
  }

  /** The first check that fails names the error. */
  lemma RefusalNamesCheck(env: Env, st: Store, access: Token, claims: Claims, verb: bytes, uri: bytes, now: nat,
                          later: nat)
    ensures
      var r := Verified(env, st, access, claims, verb, uri, now, later).1;
      var begun := Alive(st, access, now) && claims.jti !in st.seen;
      var verbs := begun && env.upper(claims.htm) == env.upper(verb);
      var uris := verbs && WithoutQuery(claims.htu, uri);
      var hashes := uris && claims.ath == env.tokenHash(access);
      var keys := hashes && claims.jkt == st.sessions[access].jkt;
      && (r == Err(InvalidToken) <==> access !in st.sessions)
      && (r == Err(ExpiredToken) <==> access in st.sessions && !Alive(st, access, now))
      && (r == Err(ReplayDetected) <==> Alive(st, access, now) && claims.jti in st.seen)
      && (r == Err(MethodMismatch) <==> begun && !verbs)
      && (r == Err(UriMismatch) <==> verbs && !uris)
      && (r == Err(TokenHashMismatch) <==> uris && !hashes)
      && (r == Err(KeyMismatch) <==> hashes && !keys)
      && (r == Err(ProofExpired) <==> keys && !Recent(claims.iat, later / 1000))
  {
    hide BeforeQuery;
    BeforeQueryExact(uri, claims.htu);
  }

  // ---- Who gets a session, and how long it lives ----

  /** The password registered last for an account. */
  function LastPassword(steps: seq<Step>, did: bytes): Option<bytes> {
    if steps == [] then None
    else
      var last := steps[|steps| - 1];
      if last.Register? && last.did == did then Some(last.password) else LastPassword(steps[..|steps| - 1], did)
  }

  lemma {:induction false} RunSplit(env: Env, st: Store, a: seq<Step>, b: seq<Step>)
    ensures Run(env, st, a + b) == Run(env, Run(env, st, a), b)
    decreases |a|
  {
    hide Next;
    if a == [] {
      assert a + b == b;
    } else {
      assert (a + b)[0] == a[0] && (a + b)[1..] == a[1..] + b;
      RunSplit(env, Next(env, st, a[0]), a[1..], b);
    }
  }

  lemma {:induction false} CredentialsAreLast(env: Env, st: Store, steps: seq<Step>, did: bytes)
    requires st.credentials == map[]
    ensures
      var known, last := Run(env, st, steps).credentials, LastPassword(steps, did);
      (did in known <==> last.Some?) && (last.Some? ==> known[did] == env.password(last.value))
    decreases |steps|
  {
    hide Issued, ProofCheck, Found;
    if steps != [] {
      var front, last := steps[..|steps| - 1], steps[|steps| - 1];
      assert steps == front + [last];
      RunSplit(env, st, front, [last]);
      assert [last][1..] == [];
      CredentialsAreLast(env, st, front, did);
      NextCredentials(env, Run(env, st, front), last);
    }
  }

  lemma NextCredentials(env: Env, st: Store, step: Step)
    ensures Next(env, st, step).credentials
         == if step.Register? then st.credentials[step.did := env.password(step.password)] else st.credentials
  {
  }

  /**
   * Over every run from an empty store: a session is created iff the password hashes to the one registered last for the
   * account; otherwise nothing changes. The session is for that account, key and handle and is alive for an hour.
   */
  lemma CreateIff(env: Env, steps: seq<Step>, did: bytes, password: bytes, handle: bytes, jkt: bytes, now: nat)
    ensures
      var st := Run(env, Store(map[], map[], map[], {}, 0), steps);
      var (after, r) := Created(env, st, did, password, handle, jkt, now);
      && (r.Ok? <==>
          && LastPassword(steps, did).Some?
          && env.password(LastPassword(steps, did).value) == env.password(password))
      && (r.Err? ==> r == Err(AuthenticationRequired) && after == st)
      && (r.Ok? ==>
            && r.value.did == did && r.value.jkt == jkt && r.value.handle == handle
            && r.value.access in after.sessions && after.sessions[r.value.access] == r.value
            && r.value.refresh in after.refreshIndex && after.refreshIndex[r.value.refresh] == r.value.access
            && forall later: nat :: Alive(after, r.value.access, later) <==> later <= now + 3_600_000)
  {
    hide Run, Input;
    CredentialsAreLast(env, Store(map[], map[], map[], {}, 0), steps, did);
  }

  /** The step neither uses the session's refresh token nor deletes the session. */
  predicate LeavesAlone(session: Session, step: Step) {
    match step
    case Refresh(token, _) => token != session.refresh
    case Delete(access) => access != session.access
    case _ => true
  }

  lemma {:induction false} NextKeepsSession(env: Env, inputs: set<bytes>, st: Store, step: Step, access: Token)
    requires CollisionFree(env.hash, inputs) && Sound(env, inputs, st) && HashesWithin(env, st, step, inputs)
    requires access in st.sessions && LeavesAlone(st.sessions[access], step)
    ensures access in Next(env, st, step).sessions && Next(env, st, step).sessions[access] == st.sessions[access]
  {
    hide Made, CollisionFree, Input, BeforeQuery, ProofCheck;
    match step {
      case Register(_, _) =>
      case Create(did, password, handle, jkt, now) =>
        IssueKeeps(env, inputs, st, did, jkt, handle, now, access);
      case Refresh(token, now) =>
        if token in st.refreshIndex {
          var previous := st.sessions[st.refreshIndex[token]];
          ConsumeSound(env, inputs, st, token);
          IssueKeeps(env, inputs, Consumed(st, token), previous.did, previous.jkt, previous.handle, now, access);
        }
      case Delete(_) =>
      case Verify(_, _, _, _, _, _) =>
    }
  }

  /**
   * A session stays as it is, found until it expires, through every run that leaves it alone; and its refresh token
   * then still gives a new pair for the same account, key and handle.
   */
  lemma {:induction false} SessionLives(env: Env, inputs: set<bytes>, st: Store, steps: seq<Step>, access: Token,
                                        now: nat)
    requires CollisionFree(env.hash, inputs) && Sound(env, inputs, st) && RunHashesWithin(env, st, steps, inputs)
    requires access in st.sessions && forall i :: 0 <= i < |steps| ==> LeavesAlone(st.sessions[access], steps[i])
    ensures
      var after, session := Run(env, st, steps), st.sessions[access];
      && access in after.sessions && after.sessions[access] == session
      && Found(after, access, now) == (if now <= session.expiresAt then Ok(session) else Err(ExpiredToken))
      && var (_, r) := Refreshed(env, after, session.refresh, now);
         r.Ok? && r.value.did == session.did && r.value.jkt == session.jkt && r.value.handle == session.handle
    decreases |steps|
  {
    hide CollisionFree, HashesWithin, Next, LeavesAlone, Made;
    if steps != [] {
      NextSound(env, inputs, st, steps[0]);
      NextKeepsSession(env, inputs, st, steps[0], access);
      SessionLives(env, inputs, Next(env, st, steps[0]), steps[1..], access, now);
    }
  }

  // ---- Replay ----

  lemma {:induction false} SeenGrows(env: Env, st: Store, steps: seq<Step>)
    ensures st.seen <= Run(env, st, steps).seen
    decreases |steps|
  {
    hide ProofCheck, Input;
    if steps != [] {
      SeenGrows(env, Next(env, st, steps[0]), steps[1..]);
    }
  }

  /** A proof identifier is accepted at most once in any run, for whatever token, method and address. */
  lemma JtiOnce(env: Env, st: Store, first: Step, steps: seq<Step>, second: Step)
    requires first.Verify? && second.Verify? && first.claims.jti == second.claims.jti
    requires Verified(env, st, first.access, first.claims, first.verb, first.uri, first.now, first.later).1.Ok?
    ensures var after := Run(env, Next(env, st, first), steps);
      Verified(env, after, second.access, second.claims, second.verb, second.uri, second.now, second.later).1.Err?
  {
    hide ProofCheck, Run;
    SeenGrows(env, Next(env, st, first), steps);
  }

  // ---- The store ----

  class SessionStore {
    const env: Env
    var sessions: map<Token, Session>
    var refreshIndex: map<Token, Token>
    var credentials: map<bytes, bytes>
    var seen: set<bytes>
    var counter: nat

    ghost function Snapshot(): Store
      reads this
    {
      Store(sessions, refreshIndex, credentials, seen, counter)
    }

    constructor (env: Env)
      ensures this.env == env && Snapshot() == Store(map[], map[], map[], {}, 0)
    {
      this.env := env;
      sessions, refreshIndex, credentials, seen, counter := map[], map[], map[], {}, 0;
    }

    method RegisterCredentials(did: bytes, password: bytes)
      modifies this
      ensures Snapshot() == Next(env, old(Snapshot()), Register(did, password))
    {
      credentials := credentials[did := env.password(password)];
    }

    method GenerateToken(did: bytes, now: nat, kind: bytes) returns (token: Token)
      modifies this`counter
      ensures token == env.hash(Input(did, now, kind, old(counter))) && counter == old(counter) + 1
    {
      token := env.hash(Input(did, now, kind, counter));
      counter := counter + 1;
    }

    method Issue(did: bytes, jkt: bytes, handle: bytes, now: nat) returns (session: Session)
      modifies this
      ensures Snapshot() == Issued(env, old(Snapshot()), did, jkt, handle, now).0
      ensures session == Issued(env, old(Snapshot()), did, jkt, handle, now).1
    {
      var access := GenerateToken(did, now, ACCESS);
      var refresh := GenerateToken(did, now, REFRESH);
      session := Session(did, access, refresh, jkt, now, now + LIFETIME_MS, handle);
      sessions := sessions[access := session];
      refreshIndex := refreshIndex[refresh := access];
    }

    method CreateSession(did: bytes, password: bytes, handle: bytes, jkt: bytes,
        now: nat) returns (r: Result<Session, Error>)
      modifies this
      ensures Snapshot() == Created(env, old(Snapshot()), did, password, handle, jkt, now).0
      ensures r == Created(env, old(Snapshot()), did, password, handle, jkt, now).1
    {
      hide Issued;
      if did !in credentials || credentials[did] != env.password(password) {
        return Err(AuthenticationRequired);
      }
      var session := Issue(did, jkt, handle, now);
      r := Ok(session);
    }

    method RefreshSession(token: Token, now: nat) returns (r: Result<Session, Error>)
      modifies this
      ensures Snapshot() == Refreshed(env, old(Snapshot()), token, now).0
      ensures r == Refreshed(env, old(Snapshot()), token, now).1
    {
      hide Issued;
      if token !in refreshIndex {
        return Err(InvalidToken);
      }
      var access := refreshIndex[token];
      refreshIndex := refreshIndex - {token};
      if access !in sessions {
        return Err(InvalidToken);
      }
      var previous := sessions[access];
      sessions := sessions - {access};
      var session := Issue(previous.did, previous.jkt, previous.handle, now);
      r := Ok(session);
    }

    method DeleteSession(access: Token) returns (r: Result<(), Error>)
      modifies this
      ensures Snapshot() == Deleted(old(Snapshot()), access).0 && r == Deleted(old(Snapshot()), access).1
    {
      if access !in sessions {
        return Err(InvalidToken);
      }
      var session := sessions[access];
      sessions := sessions - {access};
      refreshIndex := refreshIndex - {session.refresh};
      r := Ok(());
    }

    method GetSession(access: Token, now: nat) returns (r: Result<Session, Error>)
      ensures r == Found(Snapshot(), access, now)
    {
      if access !in sessions {
        return Err(InvalidToken);
      }
      if sessions[access].expiresAt < now {
        return Err(ExpiredToken);
      }
      r := Ok(sessions[access]);
    }

    method VerifyDpopRequest(access: Token, claims: Claims, verb: bytes, uri: bytes, now: nat, later: nat)
      returns (r: Result<bytes, Error>)
      modifies this`seen
      ensures Snapshot() == Verified(env, old(Snapshot()), access, claims, verb, uri, now, later).0
      ensures r == Verified(env, old(Snapshot()), access, claims, verb, uri, now, later).1
    {
      var found := GetSession(access, now);
      if found.Err? {
        return Err(found.error);
      }
      if claims.jti in seen {
        return Err(ReplayDetected);
      }
      seen := seen + {claims.jti};
      if env.upper(claims.htm) != env.upper(verb) {
        return Err(MethodMismatch);
      }
      if claims.htu != BeforeQuery(uri) {
        return Err(UriMismatch);
      }
      if claims.ath != env.tokenHash(access) {
        return Err(TokenHashMismatch);
      }
      if claims.jkt != found.value.jkt {
        return Err(KeyMismatch);
      }
      var seconds := later / 1000;
      if claims.iat + CLOCK_SKEW_SECS < seconds || claims.iat > seconds + CLOCK_SKEW_SECS {
        return Err(ProofExpired);
      }
      r := Ok(found.value.did);
    }
  }
}
