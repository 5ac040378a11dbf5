/** Several rate limiters checked one after the other before a handler runs, for requests that
    overlap in any way; a limiter may stand in the chain more than once. */
module LimiterChain {
  import opened Limiter

  /** The limiters' settings, and the limiter at each position of the chain. */
  datatype Chain = Chain(configs: seq<Config>, order: seq<nat>)

  predicate WellFormed(ch: Chain) {
    forall p :: 0 <= p < |ch.order| ==> ch.order[p] < |ch.configs|
  }

  /** A request: the times at which the limiters passed so far admitted it, in chain order. */
  datatype Req = Req(key: Key, times: seq<int>, rejected: bool)

  datatype State = State(events: seq<seq<Event>>, requests: seq<Req>, clock: int)

  datatype Step =
    | Arrive(key: Key)
    | Check(request: nat, now: int)   // the next limiter of the chain decides
    | Sweep(limiter: nat, now: int)   // a limiter's background collection

  predicate Init(ch: Chain, s: State) {
    s.requests == [] && |s.events| == |ch.configs| && forall l :: 0 <= l < |s.events| ==> s.events[l] == []
  }

  /** The handler ran for the request: every limiter admitted it. */
  predicate ReachedHandler(ch: Chain, q: Req) {
    !q.rejected && |q.times| == |ch.order|
  }

  predicate Enabled(ch: Chain, s: State, step: Step)
    requires WellFormed(ch)
  {
    match step
    case Arrive(_) => true
    case Check(r, now) =>
      r < |s.requests| && !s.requests[r].rejected && |s.requests[r].times| < |ch.order| && now >= s.clock
    case Sweep(l, now) => l < |ch.configs| && now >= s.clock
  }

  function Record(s: State, l: nat, e: Event): State
    requires l < |s.events|
  {
    s.(events := s.events[l := s.events[l] + [e]], clock := e.now)
  }

  function Apply(ch: Chain, s: State, step: Step): State
    requires WellFormed(ch) && |s.events| == |ch.configs| && Enabled(ch, s, step)
  {
    match step
    case Arrive(key) => s.(requests := s.requests + [Req(key, [], false)])
    case Sweep(l, now) => Record(s, l, Gc(now))
    case Check(r, now) =>
      var q := s.requests[r];
      var l := ch.order[|q.times|];
      var admitted := Admits(ch.configs[l], Run(ch.configs[l], s.events[l]), q.key, now);
      var q' := if admitted then q.(times := q.times + [now]) else q.(rejected := true);
      Record(s, l, Allow(q.key, now)).(requests := s.requests[r := q'])
  }

  ghost predicate Reaches(ch: Chain, s: State, steps: seq<Step>, t: State)
    requires WellFormed(ch) && |s.events| == |ch.configs|
    decreases |steps|
  {
    if steps == [] then t == s
    else Enabled(ch, s, steps[0]) && Reaches(ch, Apply(ch, s, steps[0]), steps[1..], t)
  }

  // ----- counting passes -----

  predicate PassedIn(q: Req, p: nat, key: Key, a: int, b: int) {
    q.key == key && p < |q.times| && a < q.times[p] <= b
  }

  function One(b: bool): nat {
    if b then 1 else 0
  }

  /** How many requests of a key passed a position of the chain in (a, b]. */
  function CountPassed(qs: seq<Req>, p: nat, key: Key, a: int, b: int): nat {
    if qs == [] then 0
    else CountPassed(qs[..|qs| - 1], p, key, a, b) + One(PassedIn(qs[|qs| - 1], p, key, a, b))
  }

  /** The same summed over the first n positions that a limiter holds. */
  function CountCharges(qs: seq<Req>, order: seq<nat>, l: nat, n: nat, key: Key, a: int, b: int): nat
    requires n <= |order|
  {
    if n == 0 then 0
    else
      CountCharges(qs, order, l, n - 1, key, a, b)
        + if order[n - 1] == l then CountPassed(qs, n - 1, key, a, b) else 0
  }

  /** How many requests of a key that reached the handler passed a position in (a, b]. */
  function CountHandled(ch: Chain, qs: seq<Req>, p: nat, key: Key, a: int, b: int): nat {
    if qs == [] then 0
    else
      var q := qs[|qs| - 1];
      CountHandled(ch, qs[..|qs| - 1], p, key, a, b) + One(ReachedHandler(ch, q) && PassedIn(q, p, key, a, b))
  }

  lemma {:induction false} HandledPassed(ch: Chain, qs: seq<Req>, p: nat, key: Key, a: int, b: int)
    ensures CountHandled(ch, qs, p, key, a, b) <= CountPassed(qs, p, key, a, b)
  {
    if qs != [] {
      HandledPassed(ch, qs[..|qs| - 1], p, key, a, b);
    }
  }

  lemma {:induction false} PassedAmongCharges(qs: seq<Req>, order: seq<nat>, p: nat, n: nat, key: Key, a: int, b: int)
    requires p < n <= |order|
    ensures CountPassed(qs, p, key, a, b) <= CountCharges(qs, order, order[p], n, key, a, b)
  {
    if p < n - 1 {
      PassedAmongCharges(qs, order, p, n - 1, key, a, b);
    }
  }

  lemma {:induction false} CountAfterUpdate(qs: seq<Req>, r: nat, q: Req, p: nat, key: Key, a: int, b: int)
    requires r < |qs|
    ensures CountPassed(qs[r := q], p, key, a, b) + One(PassedIn(qs[r], p, key, a, b))
         == CountPassed(qs, p, key, a, b) + One(PassedIn(q, p, key, a, b))
  {
    var n := |qs| - 1;
    if r == n {
      assert qs[r := q][..n] == qs[..n];
    } else {
      CountAfterUpdate(qs[..n], r, q, p, key, a, b);
      assert qs[r := q][..n] == qs[..n][r := q];
    }
  }

  lemma {:induction false} ChargesAfterPass(qs: seq<Req>, r: nat, now: int, order: seq<nat>, l: nat, n: nat,
      key: Key, a: int, b: int)
    requires r < |qs| && n <= |order|
    ensures var q := qs[r];
            CountCharges(qs[r := q.(times := q.times + [now])], order, l, n, key, a, b)
              == CountCharges(qs, order, l, n, key, a, b)
               + One(|q.times| < n && order[|q.times|] == l && q.key == key && a < now <= b)
  {
    if n > 0 {
      var q := qs[r];
      ChargesAfterPass(qs, r, now, order, l, n - 1, key, a, b);
      CountAfterUpdate(qs, r, q.(times := q.times + [now]), n - 1, key, a, b);
    }
  }

  lemma {:induction false} ChargesAfterReject(qs: seq<Req>, r: nat, order: seq<nat>, l: nat, n: nat, key: Key,
      a: int, b: int)
    requires r < |qs| && n <= |order|
    ensures CountCharges(qs[r := qs[r].(rejected := true)], order, l, n, key, a, b)
         == CountCharges(qs, order, l, n, key, a, b)
  {
    if n > 0 {
      ChargesAfterReject(qs, r, order, l, n - 1, key, a, b);
      CountAfterUpdate(qs, r, qs[r].(rejected := true), n - 1, key, a, b);
    }
  }

  lemma {:induction false} ChargesAfterArrival(qs: seq<Req>, q: Req, order: seq<nat>, l: nat, n: nat, key: Key,
      a: int, b: int)
    requires q.times == [] && n <= |order|
    ensures CountCharges(qs + [q], order, l, n, key, a, b) == CountCharges(qs, order, l, n, key, a, b)
  {
    if n > 0 {
      ChargesAfterArrival(qs, q, order, l, n - 1, key, a, b);
      assert (qs + [q])[..|qs|] == qs;
    }
  }

  // ----- the invariant -----

  ghost predicate Timed(ch: Chain, s: State) {
    && |s.events| == |ch.configs|
    && forall l :: 0 <= l < |s.events| ==>
         Clocked(s.events[l]) && forall i :: 0 <= i < |s.events[l]| ==> s.events[l][i].now <= s.clock
  }

  /** A limiter's admissions of a key in (a, b] are the passes of its positions. */
  ghost predicate Charged(ch: Chain, s: State, l: nat, key: Key, a: int, b: int)
    requires |s.events| == |ch.configs| && l < |ch.configs|
  {
    CountIn(Admitted(ch.configs[l], s.events[l], key), a, b)
      == CountCharges(s.requests, ch.order, l, |ch.order|, key, a, b)
  }

  /** A check that lets a request of a key past a position of limiter l at a time in (a, b]. */
  predicate LetsPast(ch: Chain, s: State, r: nat, now: int, l: nat, key: Key, a: int, b: int)
    requires WellFormed(ch) && |s.events| == |ch.configs| && Enabled(ch, s, Check(r, now)) && l < |ch.configs|
  {
    var q := s.requests[r];
    && ch.order[|q.times|] == l && q.key == key && a < now <= b
    && Admits(ch.configs[l], Run(ch.configs[l], s.events[l]), key, now)
  }

  lemma ChargesAfterCheck(ch: Chain, s: State, r: nat, now: int, l: nat, key: Key, a: int, b: int)
    requires WellFormed(ch) && |s.events| == |ch.configs| && Enabled(ch, s, Check(r, now)) && l < |ch.configs|
    ensures CountCharges(Apply(ch, s, Check(r, now)).requests, ch.order, l, |ch.order|, key, a, b)
         == CountCharges(s.requests, ch.order, l, |ch.order|, key, a, b) + One(LetsPast(ch, s, r, now, l, key, a, b))
  {
    var q := s.requests[r];
    var at := ch.order[|q.times|];
    if Admits(ch.configs[at], Run(ch.configs[at], s.events[at]), q.key, now) {
      ChargesAfterPass(s.requests, r, now, ch.order, l, |ch.order|, key, a, b);
    } else {
      ChargesAfterReject(s.requests, r, ch.order, l, |ch.order|, key, a, b);
    }
  }

  lemma AdmissionsAfterCheck(ch: Chain, s: State, r: nat, now: int, l: nat, key: Key, a: int, b: int)
    requires WellFormed(ch) && |s.events| == |ch.configs| && Enabled(ch, s, Check(r, now)) && l < |ch.configs|
    ensures CountIn(Admitted(ch.configs[l], Apply(ch, s, Check(r, now)).events[l], key), a, b)
         == CountIn(Admitted(ch.configs[l], s.events[l], key), a, b) + One(LetsPast(ch, s, r, now, l, key, a, b))
  {
    var q := s.requests[r];
    if ch.order[|q.times|] == l {
      AdmittedAfterCall(ch.configs[l], s.events[l], q.key, now, key, a, b);
    }
  }

  lemma CheckKeepsCharged(ch: Chain, s: State, r: nat, now: int, l: nat, key: Key, a: int, b: int)
    requires WellFormed(ch) && |s.events| == |ch.configs| && Enabled(ch, s, Check(r, now))
    requires l < |ch.configs| && Charged(ch, s, l, key, a, b)
    ensures Charged(ch, Apply(ch, s, Check(r, now)), l, key, a, b)
  {
    ChargesAfterCheck(ch, s, r, now, l, key, a, b);
    AdmissionsAfterCheck(ch, s, r, now, l, key, a, b);
  }

  lemma AdmittedAfterCall(c: Config, es: seq<Event>, caller: Key, now: int, key: Key, a: int, b: int)
    ensures CountIn(Admitted(c, es + [Allow(caller, now)], key), a, b)
         == CountIn(Admitted(c, es, key), a, b)
          + One(caller == key && Admits(c, Run(c, es), key, now) && a < now <= b)
  {
    RunAppend(c, es, Allow(caller, now), key);
    CountInAppend(Admitted(c, es, key), now, a, b);
  }

  lemma CountInAppend(h: seq<int>, now: int, a: int, b: int)
    ensures CountIn(h + [now], a, b) == CountIn(h, a, b) + One(a < now <= b)
  {
    assert (h + [now])[..|h|] == h;
  }

  lemma StepKeepsCharged(ch: Chain, s: State, step: Step, l: nat, key: Key, a: int, b: int)
    requires WellFormed(ch) && |s.events| == |ch.configs| && Enabled(ch, s, step)
    requires l < |ch.configs| && Charged(ch, s, l, key, a, b)
    ensures Charged(ch, Apply(ch, s, step), l, key, a, b)
  {
    match step
    case Arrive(k) => ChargesAfterArrival(s.requests, Req(k, [], false), ch.order, l, |ch.order|, key, a, b);
    case Check(r, now) => CheckKeepsCharged(ch, s, r, now, l, key, a, b);
    case Sweep(m, now) => RunAppend(ch.configs[l], s.events[l], Gc(now), key);
  }

  lemma StepKeepsTimed(ch: Chain, s: State, step: Step)
    requires WellFormed(ch) && Timed(ch, s) && Enabled(ch, s, step)
    ensures Timed(ch, Apply(ch, s, step))
  {
  }

  lemma {:induction false} RunKeeps(ch: Chain, s: State, steps: seq<Step>, t: State, l: nat, key: Key, a: int, b: int)
    requires WellFormed(ch) && Timed(ch, s) && l < |ch.configs| && Charged(ch, s, l, key, a, b)
    requires Reaches(ch, s, steps, t)
    ensures Timed(ch, t) && Charged(ch, t, l, key, a, b)
    decreases |steps|
  {
    if steps != [] {
      StepKeepsTimed(ch, s, steps[0]);
      StepKeepsCharged(ch, s, steps[0], l, key, a, b);
      RunKeeps(ch, Apply(ch, s, steps[0]), steps[1..], t, l, key, a, b);
    }
  }

  lemma {:induction false} NoCharges(order: seq<nat>, l: nat, n: nat, key: Key, a: int, b: int)
    requires n <= |order|
    ensures CountCharges([], order, l, n, key, a, b) == 0
  {
    if n > 0 {
      NoCharges(order, l, n - 1, key, a, b);
    }
  }

  /** A limiter is charged for a request exactly when the request gets past it, and it gets past it
      only after all limiters before it: admissions and passes agree over every time span. */
  lemma ChargedExactly(ch: Chain, s: State, steps: seq<Step>, t: State, l: nat, key: Key, a: int, b: int)
    requires WellFormed(ch) && Init(ch, s) && Reaches(ch, s, steps, t) && l < |ch.configs|
    ensures |t.events| == |ch.configs| && Timed(ch, t)
    ensures CountIn(Admitted(ch.configs[l], t.events[l], key), a, b)
         == CountCharges(t.requests, ch.order, l, |ch.order|, key, a, b)
  {
    NoCharges(ch.order, l, |ch.order|, key, a, b);
    RunKeeps(ch, s, steps, t, l, key, a, b);
  }

  /** However requests overlap, the calls of a key that reach the handler respect the window bound
      of the limiter at every position of the chain, by the time at which it admitted them. */
  lemma HandlerWindowBound(ch: Chain, s: State, steps: seq<Step>, t: State, p: nat, key: Key, a: int)
    requires WellFormed(ch) && Init(ch, s) && Reaches(ch, s, steps, t) && p < |ch.order|
    ensures var c := ch.configs[ch.order[p]];
            CountHandled(ch, t.requests, p, key, a, a + c.window) <= AtLeastZero(c.limit)
  {
    var l := ch.order[p];
    var b := a + ch.configs[l].window;
    ChargedExactly(ch, s, steps, t, l, key, a, b);
    HandledPassed(ch, t.requests, p, key, a, b);
    PassedAmongCharges(t.requests, ch.order, p, |ch.order|, key, a, b);
    WindowBound(ch.configs[l], t.events[l], key, a);
  }

  /** The requests and checks of a run: each arrival is a request of its key, a request is checked
      once for each pass and once more if it was refused, and never beyond the end of the chain. */
  function Arrivals(steps: seq<Step>): seq<Key> {
    if steps == [] then []
    else
      var x := steps[|steps| - 1];
      Arrivals(steps[..|steps| - 1]) + if x.Arrive? then [x.key] else []
  }

  function ChecksOf(steps: seq<Step>, r: nat): seq<int> {
    if steps == [] then []
    else
      var x := steps[|steps| - 1];
      ChecksOf(steps[..|steps| - 1], r) + if x.Check? && x.request == r then [x.now] else []
  }

  lemma {:induction false} ReachesSplit(ch: Chain, s: State, steps: seq<Step>, k: nat, t: State) returns (u: State)
    requires WellFormed(ch) && Timed(ch, s) && Reaches(ch, s, steps, t) && k <= |steps|
    ensures Timed(ch, u) && Reaches(ch, s, steps[..k], u) && Reaches(ch, u, steps[k..], t)
    decreases k
  {
    if k == 0 {
      u := s;
      assert steps[0..] == steps;
    } else {
      StepKeepsTimed(ch, s, steps[0]);
      u := ReachesSplit(ch, Apply(ch, s, steps[0]), steps[1..], k - 1, t);
      assert steps[..k][1..] == steps[1..][..k - 1] && steps[k..] == steps[1..][k - 1..];
    }
  }

  /** What is known of a request after a run with the given arrivals and checks. */
  ghost predicate RequestOk(ch: Chain, qs: seq<Req>, arrivals: seq<Key>, checks: seq<int>, r: nat) {
    && |qs| == |arrivals|
    && (r >= |qs| ==> checks == [])
    && (r < |qs| ==>
          && qs[r].key == arrivals[r] && |qs[r].times| <= |ch.order|
          && |checks| == |qs[r].times| + One(qs[r].rejected) && qs[r].times <= checks
          && (qs[r].rejected ==> |qs[r].times| < |ch.order|))
  }

  lemma RequestsAfter(ch: Chain, u: State, step: Step, arrivals: seq<Key>, checks: seq<int>, r: nat)
    requires WellFormed(ch) && Timed(ch, u) && Enabled(ch, u, step) && RequestOk(ch, u.requests, arrivals, checks, r)
    ensures RequestOk(ch, Apply(ch, u, step).requests, arrivals + if step.Arrive? then [step.key] else [],
                      checks + if step.Check? && step.request == r then [step.now] else [], r)
  {
  }

  /** A request belongs to the key it arrived with; the readings of the limiters that checked it are
      its passes in order, and then the refusal that ended it, if there was one. */
  lemma {:induction false} RequestsExactly(ch: Chain, s: State, steps: seq<Step>, t: State, r: nat)
    requires WellFormed(ch) && Init(ch, s) && Reaches(ch, s, steps, t)
    ensures RequestOk(ch, t.requests, Arrivals(steps), ChecksOf(steps, r), r)
    decreases |steps|
  {
    if steps != [] {
      var l := |steps| - 1;
      var u := ReachesSplit(ch, s, steps, l, t);
      assert steps[l..] == [steps[l]] && steps[l..][1..] == [];
      RequestsExactly(ch, s, steps[..l], u, r);
      RequestsAfter(ch, u, steps[l], Arrivals(steps[..l]), ChecksOf(steps[..l], r), r);
    }
  }

  /** With the pre-built pair, at most 30 calls of a key in any second and 620 in any minute reach
      the handler under the default settings. */
  lemma DefaultBounds(s: State, steps: seq<Step>, t: State, key: Key, a: int)
    requires var cfg := LimiterConfig(10, 600, 20);
             var ch := Chain([PerSecond(cfg), PerMinute(cfg)], [0, 1]);
             Init(ch, s) && Reaches(ch, s, steps, t)
    ensures var cfg := LimiterConfig(10, 600, 20);
            var ch := Chain([PerSecond(cfg), PerMinute(cfg)], [0, 1]);
            && ch.configs == [Config(30, 1_000_000_000), Config(620, 60_000_000_000)]
            && CountHandled(ch, t.requests, 0, key, a, a + SECOND) <= 30
            && CountHandled(ch, t.requests, 1, key, a, a + MINUTE) <= 620
  {
    var cfg := LimiterConfig(10, 600, 20);
    var ch := Chain([PerSecond(cfg), PerMinute(cfg)], [0, 1]);
    HandlerWindowBound(ch, s, steps, t, 0, key, a);
    HandlerWindowBound(ch, s, steps, t, 1, key, a);
  }

  // ----- the middleware's loop -----

  type Tables = map<SlidingWindowLimiter, Table>

  ghost function TablesOf(limiters: seq<SlidingWindowLimiter>): Tables
    reads limiters
  {
    map l | l in limiters :: l.entries
  }

  ghost predicate Cover(limiters: seq<SlidingWindowLimiter>, m: Tables) {
    forall l :: l in limiters ==> l in m
  }

  /** The tables after the first n limiters of a list were asked, one after the other. */
  ghost function TablesAfter(limiters: seq<SlidingWindowLimiter>, m: Tables, key: Key, nows: seq<int>,
      n: nat): (r: Tables)
    requires n <= |limiters| == |nows| && Cover(limiters, m)
    ensures Cover(limiters, r)
  {
    if n == 0 then m
    else
      var l, before := limiters[n - 1], TablesAfter(limiters, m, key, nows, n - 1);
      before[l := AfterAllow(l.Settings(), before[l], key, nows[n - 1])]
  }

  /** The limiter at a position admits the call when its turn comes. */
  ghost predicate Passes(limiters: seq<SlidingWindowLimiter>, m: Tables, key: Key, nows: seq<int>, i: nat)
    requires i < |limiters| == |nows| && Cover(limiters, m)
  {
    Admits(limiters[i].Settings(), TablesAfter(limiters, m, key, nows, i)[limiters[i]], key, nows[i])
  }

  ghost predicate AllPass(limiters: seq<SlidingWindowLimiter>, m: Tables, key: Key, nows: seq<int>, n: nat)
    requires n <= |limiters| == |nows| && Cover(limiters, m)
  {
    forall i :: 0 <= i < n ==> Passes(limiters, m, key, nows, i)
  }

  /** The first k limiters are those all of whose predecessors admit. */
  ghost predicate AskedExactly(limiters: seq<SlidingWindowLimiter>, m: Tables, key: Key, nows: seq<int>, k: nat)
    requires |limiters| == |nows| && Cover(limiters, m)
  {
    && k <= |limiters|
    && (k > 0 ==> AllPass(limiters, m, key, nows, k - 1))
    && (k < |limiters| ==> k > 0 && !Passes(limiters, m, key, nows, k - 1))
  }

  lemma NextPass(limiters: seq<SlidingWindowLimiter>, m: Tables, key: Key, nows: seq<int>, n: nat)
    requires n < |limiters| == |nows| && Cover(limiters, m) && AllPass(limiters, m, key, nows, n)
    ensures AllPass(limiters, m, key, nows, n + 1) <==> Passes(limiters, m, key, nows, n)
    ensures !Passes(limiters, m, key, nows, n) ==>
              AskedExactly(limiters, m, key, nows, n + 1) && !AllPass(limiters, m, key, nows, |limiters|)
  {
  }

  /** One request through a list of limiters, in which one may stand more than once: the handler may
      run when all admit, and each limiter is asked exactly when all before it admitted. */
  method CheckAll(limiters: seq<SlidingWindowLimiter>, key: Key, nows: seq<int>)
    returns (admitted: bool, ghost asked: nat)
    requires |nows| == |limiters|
    modifies limiters
    ensures admitted <==> AllPass(limiters, old(TablesOf(limiters)), key, nows, |limiters|)
    ensures AskedExactly(limiters, old(TablesOf(limiters)), key, nows, asked)
    ensures TablesOf(limiters) == TablesAfter(limiters, old(TablesOf(limiters)), key, nows, asked)
  {
    ghost var m := TablesOf(limiters);
    for n := 0 to |limiters|
      invariant AllPass(limiters, m, key, nows, n)
      invariant TablesOf(limiters) == TablesAfter(limiters, m, key, nows, n)
    {
      var ok := AskNext(limiters, m, key, nows, n);
      NextPass(limiters, m, key, nows, n);
      if !ok {
        return false, n + 1;
      }
    }
    return true, |limiters|;
  }

  /** One turn of the loop. */
  method AskNext(limiters: seq<SlidingWindowLimiter>, ghost m: Tables, key: Key, nows: seq<int>, n: nat)
    returns (ok: bool)
    requires n < |limiters| == |nows| && Cover(limiters, m)
    requires TablesOf(limiters) == TablesAfter(limiters, m, key, nows, n)
    modifies limiters[n]
    ensures ok == Passes(limiters, m, key, nows, n)
    ensures TablesOf(limiters) == TablesAfter(limiters, m, key, nows, n + 1)
  {
    ghost var before := TablesOf(limiters);
    assert before[limiters[n]] == limiters[n].entries;
    ok := limiters[n].Allow(key, nows[n]);
    assert TablesOf(limiters) == before[limiters[n] := limiters[n].entries];
  }
}
