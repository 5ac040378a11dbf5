/** Media tokens bound to sessions: two stores, each under its own lock, against a rule over the
    whole history that knows nothing of sweeps. Times are nanoseconds. */
module Tokens {
  import opened Wrappers

  type TokenId = seq<int>
  type SessionId = nat

  datatype Token = Token(track: string, hlsUrl: string, createdAt: int, issuedAt: int, session: SessionId)

  /** The token store's and session store's settings; checksSession says whether the token store
      was given a session check. */
  datatype Config = Config(maxTokenTtl: int, maxLifetime: int, checksSession: bool)

  type TokenMap = map<TokenId, Token>

  /** Sessions by their creation time. */
  type SessionMap = map<SessionId, int>

  // ----- the stores' operations -----

  predicate TokenExpired(c: Config, tok: Token, now: int) {
    now - tok.issuedAt > c.maxTokenTtl
  }

  predicate SessionAlive(c: Config, sessions: SessionMap, id: SessionId) {
    c.checksSession ==> id in sessions
  }

  predicate Validates(c: Config, tokens: TokenMap, sessions: SessionMap, id: TokenId, now: int) {
    id in tokens && !TokenExpired(c, tokens[id], now) && SessionAlive(c, sessions, tokens[id].session)
  }

  /** A valid token has its creation time bumped to a second reading of the clock, a refused one is
      forgotten. */
  function AfterValidate(c: Config, tokens: TokenMap, sessions: SessionMap, id: TokenId, now: int,
      bumped: int): TokenMap
  {
    if Validates(c, tokens, sessions, id, now) then tokens[id := tokens[id].(createdAt := bumped)]
    else tokens - {id}
  }

  function AfterRevoke(tokens: TokenMap, session: SessionId): TokenMap {
    map id | id in tokens && tokens[id].session != session :: tokens[id]
  }

  // A sweep reads the clock anew for each entry: now gives the reading taken for it.

  function AfterTokenGc(c: Config, tokens: TokenMap, now: TokenId -> int): TokenMap {
    map id | id in tokens && !TokenExpired(c, tokens[id], now(id)) :: tokens[id]
  }

  function AfterSessionGc(c: Config, sessions: SessionMap, now: SessionId -> int): SessionMap {
    map id | id in sessions && now(id) - sessions[id] <= c.maxLifetime :: sessions[id]
  }

  // ----- the server's runs -----

  /** The clock is the latest reading taken under the token store's lock. Nothing orders it with the
      readings of the session store or of a connection that is setting up its session. */
  datatype State = State(
    tokens: TokenMap,
    sessions: SessionMap,
    nextId: nat,                  // the session ID counter, before it wraps
    negotiating: set<SessionId>,  // IDs handed out, session not yet stored
    stored: set<SessionId>,       // IDs whose session has been stored at some time
    clock: int
  )

  datatype Step =
    | Issue(id: TokenId, token: Token)   // with whatever creation and issue times the caller read
    | Validate(id: TokenId, now: int, bumped: int)
    | Revoke(session: SessionId)
    | TokenGc(tokenTimes: TokenId -> int, latest: int)
    | Allocate
    | Establish(session: SessionId, createdAt: int)   // stored some time after it was created
    | Disconnect(session: SessionId)
    | SessionGc(sessionTimes: SessionId -> int)

  predicate Init(s: State) {
    s.tokens == map[] && s.sessions == map[] && s.nextId == 0 && s.negotiating == {} && s.stored == {}
  }

  predicate Enabled(s: State, step: Step) {
    match step
    case Issue(_, _) => true
    case Validate(_, now, bumped) => s.clock <= now <= bumped
    case Revoke(_) => true
    case TokenGc(now, latest) =>
      s.clock <= latest && forall id :: id in s.tokens ==> s.clock <= now(id) <= latest
    case Allocate => true
    case Establish(id, _) => id in s.negotiating
    case Disconnect(_) => true
    case SessionGc(_) => true
  }

  function Apply(c: Config, s: State, step: Step): State {
    match step
    case Issue(id, tok) => s.(tokens := s.tokens[id := tok])
    case Validate(id, now, bumped) =>
      s.(tokens := AfterValidate(c, s.tokens, s.sessions, id, now, bumped), clock := bumped)
    case Revoke(session) => s.(tokens := AfterRevoke(s.tokens, session))
    case TokenGc(now, latest) => s.(tokens := AfterTokenGc(c, s.tokens, now), clock := latest)
    case Allocate => s.(nextId := s.nextId + 1, negotiating := s.negotiating + {s.nextId + 1})
    case Establish(id, createdAt) =>
      s.(sessions := s.sessions[id := createdAt],
         negotiating := s.negotiating - {id}, stored := s.stored + {id})
    case Disconnect(id) => s.(sessions := s.sessions - {id})
    case SessionGc(now) => s.(sessions := AfterSessionGc(c, s.sessions, now))
  }

  ghost predicate Reaches(c: Config, s: State, steps: seq<Step>, t: State)
    decreases |steps|
  {
    if steps == [] then t == s
    else Enabled(s, steps[0]) && Reaches(c, Apply(c, s, steps[0]), steps[1..], t)
  }

  // ----- the rule over the history -----

  /** What the history says of an ID: never issued or revoked since, or its last token and whether
      it has been refused since it was issued. */
  datatype Standing = Unknown | Issued(issuedAt: int, session: SessionId, refused: bool)

  predicate StandsUp(c: Config, st: Standing, sessions: SessionMap, now: int) {
    && st.Issued? && !st.refused
    && now - st.issuedAt <= c.maxTokenTtl
    && (c.checksSession ==> st.session in sessions)
  }

  /** The standing of an ID after a step; sweeps of the token store are not looked at. */
  function NextStanding(c: Config, st: Standing, sessions: SessionMap, step: Step, id: TokenId): Standing {
    match step
    case Issue(i, tok) => if i == id then Issued(tok.issuedAt, tok.session, false) else st
    case Revoke(session) => if st.Issued? && st.session == session then Unknown else st
    case Validate(i, now, _) =>
      if i == id && st.Issued? && !StandsUp(c, st, sessions, now) then st.(refused := true) else st
    case _ => st
  }

  /** The store's answers to the Validate calls for an ID. */
  function Answers(c: Config, s: State, steps: seq<Step>, id: TokenId): seq<bool>
    decreases |steps|
  {
    if steps == [] then []
    else
      var step := steps[0];
      var here := if step.Validate? && step.id == id then [Validates(c, s.tokens, s.sessions, id, step.now)] else [];
      here + Answers(c, Apply(c, s, step), steps[1..], id)
  }

  /** The rule's answers: it follows the sessions and the ID's own standing, not the token store. */
  function RuleAnswers(c: Config, st: Standing, s: State, steps: seq<Step>, id: TokenId): seq<bool>
    decreases |steps|
  {
    if steps == [] then []
    else
      var step := steps[0];
      var here := if step.Validate? && step.id == id then [StandsUp(c, st, s.sessions, step.now)] else [];
      here + RuleAnswers(c, NextStanding(c, st, s.sessions, step, id), Apply(c, s, step), steps[1..], id)
  }

  /** The store holds an ID's token only if its standing is good, and a token of good standing is
      missing only when it has expired. */
  ghost predicate Agrees(c: Config, s: State, st: Standing, id: TokenId) {
    && (id in s.tokens ==> st == Issued(s.tokens[id].issuedAt, s.tokens[id].session, false))
    && (st.Issued? && !st.refused && s.clock - st.issuedAt <= c.maxTokenTtl ==> id in s.tokens)
  }

  lemma AgreeOnAnswer(c: Config, s: State, st: Standing, id: TokenId, now: int)
    requires Agrees(c, s, st, id) && now >= s.clock
    ensures Validates(c, s.tokens, s.sessions, id, now) == StandsUp(c, st, s.sessions, now)
  {
  }

  lemma StepKeepsAgreement(c: Config, s: State, st: Standing, step: Step, id: TokenId)
    requires Agrees(c, s, st, id) && Enabled(s, step)
    ensures Agrees(c, Apply(c, s, step), NextStanding(c, st, s.sessions, step, id), id)
  {
  }

  /** Over every run, each Validate answers as the rule over the history says. */
  lemma {:induction false} Refinement(c: Config, s: State, st: Standing, steps: seq<Step>, t: State, id: TokenId)
    requires Agrees(c, s, st, id) && Reaches(c, s, steps, t)
    ensures Answers(c, s, steps, id) == RuleAnswers(c, st, s, steps, id)
    decreases |steps|
  {
    if steps != [] {
      var step := steps[0];
      if step.Validate? && step.id == id {
        AgreeOnAnswer(c, s, st, id, step.now);
      }
      StepKeepsAgreement(c, s, st, step, id);
      Refinement(c, Apply(c, s, step), NextStanding(c, st, s.sessions, step, id), steps[1..], t, id);
    }
  }

  // ----- sweeps do not matter -----

  function WithoutSweeps(steps: seq<Step>): seq<Step> {
    if steps == [] then []
    else (if steps[0].TokenGc? then [] else [steps[0]]) + WithoutSweeps(steps[1..])
  }

  /** The rule sees only the sessions of the state. */
  lemma {:induction false} RuleIgnoresSweeps(c: Config, st: Standing, s: State, u: State, steps: seq<Step>, id: TokenId)
    requires s.sessions == u.sessions
    ensures RuleAnswers(c, st, s, steps, id) == RuleAnswers(c, st, u, WithoutSweeps(steps), id)
    decreases |steps|
  {
    if steps != [] {
      var step, rest := steps[0], steps[1..];
      var st' := NextStanding(c, st, s.sessions, step, id);
      if step.TokenGc? {
        assert WithoutSweeps(steps) == WithoutSweeps(rest);
        RuleIgnoresSweeps(c, st', Apply(c, s, step), u, rest, id);
      } else {
        assert WithoutSweeps(steps)[1..] == WithoutSweeps(rest);
        RuleIgnoresSweeps(c, st', Apply(c, s, step), Apply(c, u, step), rest, id);
      }
    }
  }

  /** Inserting or removing sweeps of the token store changes no Validate answer. */
  lemma SweepsDoNotMatter(c: Config, s: State, steps: seq<Step>, t: State, steps': seq<Step>, t': State, id: TokenId)
    requires Init(s) && Reaches(c, s, steps, t) && Reaches(c, s, steps', t')
    requires WithoutSweeps(steps) == WithoutSweeps(steps')
    ensures Answers(c, s, steps, id) == Answers(c, s, steps', id)
  {
    Refinement(c, s, Unknown, steps, t, id);
    Refinement(c, s, Unknown, steps', t', id);
    RuleIgnoresSweeps(c, Unknown, s, s, steps, id);
    RuleIgnoresSweeps(c, Unknown, s, s, steps', id);
  }

  // ----- lifetimes -----

  /** The store's token for an ID is one that was issued, with nothing changed but createdAt. */
  ghost predicate WasIssued(steps: seq<Step>, id: TokenId, tok: Token) {
    exists i :: 0 <= i < |steps| && steps[i].Issue? && steps[i].id == id
      && steps[i].token.(createdAt := tok.createdAt) == tok
      && forall j :: i < j < |steps| && steps[j].Issue? ==> steps[j].id != id
  }

  lemma {:induction false} TokensWereIssued(c: Config, s: State, steps: seq<Step>, t: State, id: TokenId)
    requires Reaches(c, s, steps, t) && id in t.tokens
    ensures || WasIssued(steps, id, t.tokens[id])
            || (&& id in s.tokens && s.tokens[id].(createdAt := t.tokens[id].createdAt) == t.tokens[id]
                && forall j :: 0 <= j < |steps| && steps[j].Issue? ==> steps[j].id != id)
    decreases |steps|
  {
    if steps != [] {
      var step, rest := steps[0], steps[1..];
      TokensWereIssued(c, Apply(c, s, step), rest, t, id);
      assert forall j :: 1 <= j < |steps| ==> steps[j] == rest[j - 1];
      if WasIssued(rest, id, t.tokens[id]) {
        var i :| 0 <= i < |rest| && rest[i].Issue? && rest[i].id == id
          && rest[i].token.(createdAt := t.tokens[id].createdAt) == t.tokens[id]
          && forall j :: i < j < |rest| && rest[j].Issue? ==> rest[j].id != id;
        assert steps[i + 1] == rest[i];
      } else if step.Issue? && step.id == id {
        assert steps[0].Issue?;
      }
    }
  }

  /** A Validate that succeeds does so within the maximum lifetime of the last token issued under
      the ID, however often the token was validated before. */
  lemma ValidatedInTime(c: Config, s: State, steps: seq<Step>, t: State, id: TokenId, now: int)
    requires Init(s) && Reaches(c, s, steps, t) && Validates(c, t.tokens, t.sessions, id, now)
    ensures WasIssued(steps, id, t.tokens[id]) && now <= t.tokens[id].issuedAt + c.maxTokenTtl
  {
    TokensWereIssued(c, s, steps, t, id);
  }

  lemma {:induction false} AbsentUntilIssued(c: Config, s: State, steps: seq<Step>, t: State, id: TokenId)
    requires id !in s.tokens && Reaches(c, s, steps, t)
    requires forall i :: 0 <= i < |steps| && steps[i].Issue? ==> steps[i].id != id
    ensures id !in t.tokens
    decreases |steps|
  {
    if steps != [] {
      assert forall j :: 1 <= j < |steps| ==> steps[j] == steps[1..][j - 1];
      AbsentUntilIssued(c, Apply(c, s, steps[0]), steps[1..], t, id);
    }
  }

  /** Once a Validate has refused an ID, every later one refuses it until the ID is issued again. */
  lemma RefusedUntilReissued(c: Config, s: State, id: TokenId, now: int, bumped: int, steps: seq<Step>, t: State,
      later: int)
    requires !Validates(c, s.tokens, s.sessions, id, now)
    requires Reaches(c, Apply(c, s, Validate(id, now, bumped)), steps, t)
    requires forall i :: 0 <= i < |steps| && steps[i].Issue? ==> steps[i].id != id
    ensures !Validates(c, t.tokens, t.sessions, id, later)
  {
    AbsentUntilIssued(c, Apply(c, s, Validate(id, now, bumped)), steps, t, id);
  }

  /** Session IDs are handed out once: those in negotiation are new. */
  ghost predicate IdsFresh(s: State) {
    && s.sessions.Keys <= s.stored
    && s.stored !! s.negotiating
    && (forall id :: id in s.stored ==> id <= s.nextId)
    && (forall id :: id in s.negotiating ==> id <= s.nextId)
  }

  /** The session was in the store once and has left it. */
  ghost predicate HasLeft(s: State, session: SessionId) {
    session in s.stored && session !in s.sessions
  }

  lemma StepKeepsLeft(c: Config, s: State, step: Step, session: SessionId)
    requires IdsFresh(s) && Enabled(s, step)
    ensures IdsFresh(Apply(c, s, step))
    ensures HasLeft(s, session) ==> HasLeft(Apply(c, s, step), session)
  {
  }

  lemma {:induction false} RunKeepsLeft(c: Config, s: State, steps: seq<Step>, t: State, session: SessionId)
    requires IdsFresh(s) && Reaches(c, s, steps, t)
    ensures IdsFresh(t)
    ensures HasLeft(s, session) ==> HasLeft(t, session)
    decreases |steps|
  {
    if steps != [] {
      StepKeepsLeft(c, s, steps[0], session);
      RunKeepsLeft(c, Apply(c, s, steps[0]), steps[1..], t, session);
    }
  }

  predicate Establishes(step: Step, session: SessionId) {
    step.Establish? && step.session == session
  }

  lemma {:induction false} EstablishedIsStored(c: Config, s: State, steps: seq<Step>, t: State, session: SessionId)
    requires Reaches(c, s, steps, t)
    ensures session in s.stored || (exists j :: 0 <= j < |steps| && Establishes(steps[j], session)) ==>
              session in t.stored
    decreases |steps|
  {
    if steps != [] {
      EstablishedIsStored(c, Apply(c, s, steps[0]), steps[1..], t, session);
      assert forall j :: 1 <= j < |steps| ==> steps[j] == steps[1..][j - 1];
    }
  }

  /** With the session check on, no token validates once its session has been in the store and has
      left it: not then and at no later point of the run. */
  lemma NoTokenOutlivesItsSession(c: Config, s0: State, before: seq<Step>, s: State, after: seq<Step>,
      t: State, session: SessionId, id: TokenId, now: int)
    requires c.checksSession && Init(s0) && Reaches(c, s0, before, s)
    requires session !in s.sessions && exists j :: 0 <= j < |before| && Establishes(before[j], session)
    requires Reaches(c, s, after, t) && id in t.tokens && t.tokens[id].session == session
    ensures !Validates(c, t.tokens, t.sessions, id, now)
  {
    EstablishedIsStored(c, s0, before, s, session);
    RunKeepsLeft(c, s0, before, s, session);
    RunKeepsLeft(c, s, after, t, session);
  }

  // ----- what the stores hold, told from the steps alone -----

  lemma {:induction false} ReachesSplit(c: Config, s: State, steps: seq<Step>, k: nat, t: State) returns (u: State)
    requires Reaches(c, s, steps, t) && k <= |steps|
    ensures Reaches(c, s, steps[..k], u) && Reaches(c, u, steps[k..], t)
    decreases k
  {
    if k == 0 {
      u := s;
      assert steps[0..] == steps;
    } else {
      u := ReachesSplit(c, Apply(c, s, steps[0]), steps[1..], k - 1, t);
      assert steps[..k][1..] == steps[1..][..k - 1] && steps[k..] == steps[1..][k - 1..];
    }
  }

  /** The state before the last step. */
  lemma LastOf(c: Config, s: State, steps: seq<Step>, t: State) returns (u: State)
    requires steps != [] && Reaches(c, s, steps, t)
    ensures Reaches(c, s, steps[..|steps| - 1], u)
    ensures Enabled(u, steps[|steps| - 1]) && t == Apply(c, u, steps[|steps| - 1])
  {
    var n := |steps| - 1;
    u := ReachesSplit(c, s, steps, n, t);
    assert steps[n..] == [steps[n]] && steps[n..][1..] == [];
  }

  /** A step that takes a session out of the store: its connection ends, or a sweep finds it older
      than the maximum lifetime. */
  predicate EndsSession(c: Config, step: Step, id: SessionId, createdAt: int) {
    match step
    case Disconnect(i) => i == id
    case SessionGc(times) => times(id) - createdAt > c.maxLifetime
    case _ => false
  }

  /** Step j stored the session, and no later step has ended or replaced it. */
  ghost predicate SessionSince(c: Config, steps: seq<Step>, j: nat, id: SessionId) {
    && j < |steps| && Establishes(steps[j], id)
    && forall m :: j < m < |steps| ==>
         !Establishes(steps[m], id) && !EndsSession(c, steps[m], id, steps[j].createdAt)
  }

  ghost predicate SessionLives(c: Config, steps: seq<Step>, id: SessionId) {
    exists j :: SessionSince(c, steps, j, id)
  }

  predicate SparesSession(c: Config, step: Step, id: SessionId, createdAt: int) {
    !Establishes(step, id) && !EndsSession(c, step, id, createdAt)
  }

  /** The last step stores a session anew or carries it over. */
  lemma SessionStep(c: Config, steps: seq<Step>, j: nat, id: SessionId)
    requires j < |steps|
    ensures var l := |steps| - 1;
            SessionSince(c, steps, j, id) <==>
              if j == l then Establishes(steps[l], id)
              else (SessionSince(c, steps[..l], j, id) && SparesSession(c, steps[l], id, steps[j].createdAt))
  {
    var l := |steps| - 1;
    assert forall m :: 0 <= m < l ==> steps[..l][m] == steps[m];
  }

  lemma SessionAfter(c: Config, u: State, step: Step, id: SessionId)
    ensures var t := Apply(c, u, step);
            && (id in t.sessions <==>
                  Establishes(step, id) || (id in u.sessions && SparesSession(c, step, id, u.sessions[id])))
            && (id in t.sessions ==>
                  t.sessions[id] == if Establishes(step, id) then step.createdAt else u.sessions[id])
  {
  }

  /** A session is in the store exactly when it was stored and nothing has ended it since. */
  lemma {:induction false} SessionsExactly(c: Config, s: State, steps: seq<Step>, t: State, id: SessionId)
    requires Init(s) && Reaches(c, s, steps, t)
    ensures id in t.sessions <==> SessionLives(c, steps, id)
    ensures forall j: nat :: SessionSince(c, steps, j, id) ==>
              id in t.sessions && t.sessions[id] == steps[j].createdAt
    decreases |steps|
  {
    if steps != [] {
      var l := |steps| - 1;
      var u := LastOf(c, s, steps, t);
      SessionsExactly(c, s, steps[..l], u, id);
      SessionAfter(c, u, steps[l], id);
      forall j: nat | SessionSince(c, steps, j, id)
        ensures id in t.sessions && t.sessions[id] == steps[j].createdAt
      {
        SessionStep(c, steps, j, id);
      }
      if id in t.sessions {
        var j: nat := if Establishes(steps[l], id) then l else StoringStep(c, steps[..l], id);
        SessionStep(c, steps, j, id);
      }
    }
  }

  ghost function StoringStep(c: Config, steps: seq<Step>, id: SessionId): (j: nat)
    requires SessionLives(c, steps, id)
    ensures SessionSince(c, steps, j, id)
  {
    var j: nat :| SessionSince(c, steps, j, id); j
  }

  /** A step that takes a token out of the store: another token under its ID, a revocation of its
      session, a Validate that refuses it, or a sweep that finds it too old. */
  ghost predicate EndsToken(c: Config, before: seq<Step>, step: Step, id: TokenId, tok: Token) {
    match step
    case Issue(i, _) => i == id
    case Revoke(session) => session == tok.session
    case Validate(i, now, _) =>
      i == id && (now - tok.issuedAt > c.maxTokenTtl || (c.checksSession && !SessionLives(c, before, tok.session)))
    case TokenGc(times, _) => times(id) - tok.issuedAt > c.maxTokenTtl
    case _ => false
  }

  /** Step j issued the token, and no later step has taken it out. */
  ghost predicate TokenSince(c: Config, steps: seq<Step>, j: nat, id: TokenId) {
    && j < |steps| && steps[j].Issue? && steps[j].id == id
    && forall m :: j < m < |steps| ==> !EndsToken(c, steps[..m], steps[m], id, steps[j].token)
  }

  /** The creation time a token of an ID has by now: set when it is issued, bumped by each Validate. */
  function CreationTime(steps: seq<Step>, id: TokenId): int {
    if steps == [] then 0
    else
      match steps[|steps| - 1]
      case Issue(i, tok) => if i == id then tok.createdAt else CreationTime(steps[..|steps| - 1], id)
      case Validate(i, _, bumped) => if i == id then bumped else CreationTime(steps[..|steps| - 1], id)
      case _ => CreationTime(steps[..|steps| - 1], id)
  }

  lemma TokenStep(c: Config, steps: seq<Step>, j: nat, id: TokenId)
    requires j < |steps|
    ensures var l := |steps| - 1;
            TokenSince(c, steps, j, id) <==>
              if j == l then steps[l].Issue? && steps[l].id == id
              else (TokenSince(c, steps[..l], j, id) && !EndsToken(c, steps[..l], steps[l], id, steps[j].token))
  {
    var l := |steps| - 1;
    assert forall m :: 0 <= m < l ==> steps[..l][m] == steps[m] && steps[..l][..m] == steps[..m];
  }

  /** What the last step leaves of a token. */
  lemma TokenAfter(c: Config, s: State, before: seq<Step>, u: State, step: Step, id: TokenId)
    requires Init(s) && Reaches(c, s, before, u)
    ensures var t := Apply(c, u, step);
            && (id in t.tokens <==>
                  (step.Issue? && step.id == id) || (id in u.tokens && !EndsToken(c, before, step, id, u.tokens[id])))
            && (id in t.tokens && step.Issue? && step.id == id ==> t.tokens[id] == step.token)
            && (id in t.tokens && !(step.Issue? && step.id == id) ==>
                  t.tokens[id] ==
                    if step.Validate? && step.id == id then u.tokens[id].(createdAt := step.bumped) else u.tokens[id])
  {
    if id in u.tokens {
      SessionsExactly(c, s, before, u, u.tokens[id].session);
    }
  }

  lemma SameEnd(c: Config, before: seq<Step>, step: Step, id: TokenId, tok: Token, other: Token)
    requires tok.issuedAt == other.issuedAt && tok.session == other.session
    ensures EndsToken(c, before, step, id, tok) <==> EndsToken(c, before, step, id, other)
  {
  }

  /** A token is in the store exactly when it was issued and nothing has taken it out since, and only
      its creation time has changed. */
  lemma {:induction false} TokensExactly(c: Config, s: State, steps: seq<Step>, t: State, id: TokenId)
    requires Init(s) && Reaches(c, s, steps, t)
    ensures id in t.tokens <==> exists j :: TokenSince(c, steps, j, id)
    ensures forall j: nat :: TokenSince(c, steps, j, id) ==>
              id in t.tokens && t.tokens[id] == steps[j].token.(createdAt := CreationTime(steps, id))
    decreases |steps|
  {
    if steps != [] {
      var l := |steps| - 1;
      var u := LastOf(c, s, steps, t);
      TokensExactly(c, s, steps[..l], u, id);
      TokenAfter(c, s, steps[..l], u, steps[l], id);
      forall j: nat | TokenSince(c, steps, j, id)
        ensures id in t.tokens && t.tokens[id] == steps[j].token.(createdAt := CreationTime(steps, id))
      {
        TokenStep(c, steps, j, id);
        if j < l {
          SameEnd(c, steps[..l], steps[l], id, steps[j].token, u.tokens[id]);
        }
      }
      if id in t.tokens {
        var anew := steps[l].Issue? && steps[l].id == id;
        var j: nat := if anew then l else IssuingStep(c, steps[..l], id);
        TokenStep(c, steps, j, id);
        if !anew {
          SameEnd(c, steps[..l], steps[l], id, steps[j].token, u.tokens[id]);
        }
      }
    }
  }

  ghost function IssuingStep(c: Config, steps: seq<Step>, id: TokenId): (j: nat)
    requires exists j :: TokenSince(c, steps, j, id)
    ensures TokenSince(c, steps, j, id)
  {
    var j: nat :| TokenSince(c, steps, j, id); j
  }

  /** A Validate succeeds exactly on a token that was issued and that nothing has taken out since,
      within the maximum lifetime of its issue, with no session check set or its session stored and
      not ended. */
  lemma ValidatesExactly(c: Config, s: State, steps: seq<Step>, t: State, id: TokenId, now: int)
    requires Init(s) && Reaches(c, s, steps, t)
    ensures Validates(c, t.tokens, t.sessions, id, now) <==>
              exists j: nat ::
                && TokenSince(c, steps, j, id)
                && now - steps[j].token.issuedAt <= c.maxTokenTtl
                && (c.checksSession ==> SessionLives(c, steps, steps[j].token.session))
  {
    TokensExactly(c, s, steps, t, id);
    if id in t.tokens {
      SessionsExactly(c, s, steps, t, t.tokens[id].session);
    }
  }

  // ----- the objects -----

  class SessionStore {
    const maxLifetime: int
    var sessions: SessionMap

    constructor (maxLifetime: int)
      ensures this.maxLifetime == maxLifetime && sessions == map[]
    {
      this.maxLifetime, sessions := maxLifetime, map[];
    }

    method Get(id: SessionId) returns (ok: bool)
      ensures ok <==> id in sessions
    {
      ok := id in sessions;
    }

    method Set(id: SessionId, createdAt: int)
      modifies this
      ensures sessions == old(sessions)[id := createdAt]
    {
      sessions := sessions[id := createdAt];
    }

    method Delete(id: SessionId)
      modifies this
      ensures sessions == old(sessions) - {id}
    {
      sessions := sessions - {id};
    }

    /** One sweep; now gives the reading of the clock for each session. */
    method Collect(now: SessionId -> int)
      modifies this
      ensures forall c: Config :: c.maxLifetime == maxLifetime ==> sessions == AfterSessionGc(c, old(sessions), now)
    {
      var before := sessions;
      var todo := before.Keys;
      while todo != {}
        invariant todo <= before.Keys
        invariant forall id :: id in sessions <==> id in before && (id in todo || now(id) - before[id] <= maxLifetime)
        invariant forall id :: id in sessions ==> sessions[id] == before[id]
        decreases todo
      {
        var id :| id in todo;
        todo := todo - {id};
        if now(id) - sessions[id] > maxLifetime {
          sessions := sessions - {id};
        }
      }
    }
  }

  class TokenStore {
    const maxTokenTtl: int
    const liveness: SessionStore?   // what ValidateSession asks, if it is set
    var tokens: TokenMap

    constructor (maxTokenTtl: int, liveness: SessionStore?)
      ensures this.maxTokenTtl == maxTokenTtl && this.liveness == liveness && tokens == map[]
    {
      this.maxTokenTtl, this.liveness, tokens := maxTokenTtl, liveness, map[];
    }

    ghost function Settings(): Config {
      Config(maxTokenTtl, if liveness == null then 0 else liveness.maxLifetime, liveness != null)
    }

    ghost function Sessions(): SessionMap
      reads liveness
    {
      if liveness == null then map[] else liveness.sessions
    }

    method IssueWithHls(id: TokenId, session: SessionId, track: string, hlsUrl: string, issuedAt: int,
        createdAt: int) returns (tok: Token)
      modifies this
      ensures tok == Token(track, hlsUrl, createdAt, issuedAt, session)
      ensures tokens == old(tokens)[id := tok]
    {
      tok := Token(track, hlsUrl, createdAt, issuedAt, session);
      tokens := tokens[id := tok];
    }

    /** now is read for the age, bumped for the creation time. */
    method Validate(id: TokenId, now: int, bumped: int) returns (ok: bool)
      modifies this
      ensures ok == Validates(Settings(), old(tokens), Sessions(), id, now)
      ensures tokens == AfterValidate(Settings(), old(tokens), Sessions(), id, now, bumped)
    {
      if id !in tokens {
        assert tokens - {id} == tokens;
        return false;
      }
      var tok := tokens[id];
      if now - tok.issuedAt > maxTokenTtl {
        tokens := tokens - {id};
        return false;
      }
      if liveness != null {
        var alive := liveness.Get(tok.session);
        if !alive {
          tokens := tokens - {id};
          return false;
        }
      }
      tokens := tokens[id := tok.(createdAt := bumped)];
      ok := true;
    }

    method Exists(id: TokenId) returns (ok: bool)
      ensures ok <==> id in tokens
    {
      ok := id in tokens;
    }

    method RevokeBySession(session: SessionId)
      modifies this
      ensures tokens == AfterRevoke(old(tokens), session)
    {
      var before := tokens;
      var todo := before.Keys;
      while todo != {}
        invariant todo <= before.Keys
        invariant forall id :: id in tokens <==> id in before && (id in todo || before[id].session != session)
        invariant forall id :: id in tokens ==> tokens[id] == before[id]
        decreases todo
      {
        var id :| id in todo;
        todo := todo - {id};
        if tokens[id].session == session {
          tokens := tokens - {id};
        }
      }
    }

    /** One sweep; now gives the reading of the clock for each token. */
    method Collect(now: TokenId -> int)
      modifies this
      ensures tokens == AfterTokenGc(Settings(), old(tokens), now)
    {
      var before := tokens;
      var todo := before.Keys;
      while todo != {}
        invariant todo <= before.Keys
        invariant forall id ::
                    id in tokens <==> id in before && (id in todo || now(id) - before[id].issuedAt <= maxTokenTtl)
        invariant forall id :: id in tokens ==> tokens[id] == before[id]
        decreases todo
      {
        var id :| id in todo;
        todo := todo - {id};
        if now(id) - tokens[id].issuedAt > maxTokenTtl {
          tokens := tokens - {id};
        }
      }
    }
  }
}
