/** The sliding-window rate limiter: a pruning table with a background sweep, against the naive rule
    over the full history. Times are nanoseconds. */
module Limiter {
  type Key = string

  datatype Config = Config(limit: int, window: int)

  type Table = map<Key, seq<int>>

  // ----- what Allow and gc do to the table -----

  /** Drops the leading timestamps that are not after the cutoff. */
  function Prune(ts: seq<int>, cutoff: int): seq<int> {
    if ts == [] || ts[0] > cutoff then ts else Prune(ts[1..], cutoff)
  }

  function Stamps(t: Table, key: Key): seq<int> {
    if key in t then t[key] else []
  }

  predicate Admits(c: Config, t: Table, key: Key, now: int) {
    |Prune(Stamps(t, key), now - c.window)| < c.limit
  }

  function AfterAllow(c: Config, t: Table, key: Key, now: int): Table {
    var kept := Prune(Stamps(t, key), now - c.window);
    t[key := if |kept| < c.limit then kept + [now] else kept]
  }

  function AfterGc(c: Config, t: Table, now: int): Table {
    map key | key in t && Prune(t[key], now - c.window) != [] :: Prune(t[key], now - c.window)
  }

  datatype Event = Allow(key: Key, now: int) | Gc(now: int)

  function After(c: Config, t: Table, e: Event): Table {
    match e
    case Allow(key, now) => AfterAllow(c, t, key, now)
    case Gc(now) => AfterGc(c, t, now)
  }

  /** The table after a run from the empty limiter. */
  function Run(c: Config, es: seq<Event>): Table {
    if es == [] then map[] else After(c, Run(c, es[..|es| - 1]), es[|es| - 1])
  }

  /** The admitted calls of a key after one more event. */
  function HistoryAfter(c: Config, t: Table, h: seq<int>, e: Event, key: Key): seq<int> {
    if e.Allow? && e.key == key && Admits(c, t, key, e.now) then h + [e.now] else h
  }

  /** The times at which the limiter admitted calls of a key, in order. */
  function Admitted(c: Config, es: seq<Event>, key: Key): seq<int> {
    if es == [] then []
    else
      var before := es[..|es| - 1];
      HistoryAfter(c, Run(c, before), Admitted(c, before, key), es[|es| - 1], key)
  }

  /** The limiter's answers to the calls of a key, in order. */
  function Decisions(c: Config, es: seq<Event>, key: Key): seq<bool> {
    if es == [] then []
    else
      var before, e := es[..|es| - 1], es[|es| - 1];
      var d := Decisions(c, before, key);
      if e.Allow? && e.key == key then d + [Admits(c, Run(c, before), key, e.now)] else d
  }

  /** The clock never goes back: it is read under the lock. */
  predicate Clocked(es: seq<Event>) {
    forall i, j :: 0 <= i < j < |es| ==> es[i].now <= es[j].now
  }

  // ----- the naive rule -----

  function CallTimes(es: seq<Event>, key: Key): seq<int> {
    if es == [] then []
    else
      var e := es[|es| - 1];
      CallTimes(es[..|es| - 1], key) + if e.Allow? && e.key == key then [e.now] else []
  }

  /** How many times lie after a. */
  function CountAfter(h: seq<int>, a: int): nat {
    if h == [] then 0 else CountAfter(h[..|h| - 1], a) + if h[|h| - 1] > a then 1 else 0
  }

  /** Fewer than limit admitted calls in the full history lie within the window before now. */
  predicate NaiveAdmits(c: Config, h: seq<int>, now: int) {
    CountAfter(h, now - c.window) < c.limit
  }

  function NaiveAdmitted(c: Config, times: seq<int>): seq<int> {
    if times == [] then []
    else
      var h, now := NaiveAdmitted(c, times[..|times| - 1]), times[|times| - 1];
      if NaiveAdmits(c, h, now) then h + [now] else h
  }

  function NaiveDecisions(c: Config, times: seq<int>): seq<bool> {
    if times == [] then []
    else
      var front := times[..|times| - 1];
      NaiveDecisions(c, front) + [NaiveAdmits(c, NaiveAdmitted(c, front), times[|times| - 1])]
  }

  // ----- the kept timestamps against the full history -----

  predicate Sorted(h: seq<int>) {
    forall i, j :: 0 <= i < j < |h| ==> h[i] <= h[j]
  }

  /** The list is the history without a leading part that is not after the cutoff. */
  predicate Tracks(ts: seq<int>, h: seq<int>, cutoff: int) {
    && |ts| <= |h| && ts == h[|h| - |ts|..]
    && forall i :: 0 <= i < |h| - |ts| ==> h[i] <= cutoff
  }

  lemma {:induction false} PruneIsSuffix(ts: seq<int>, cutoff: int)
    ensures Tracks(Prune(ts, cutoff), ts, cutoff)
    ensures Prune(ts, cutoff) != [] ==> Prune(ts, cutoff)[0] > cutoff
  {
    if ts != [] && ts[0] <= cutoff {
      PruneIsSuffix(ts[1..], cutoff);
      var k := |ts| - |Prune(ts, cutoff)|;
      assert ts[1..][k - 1..] == ts[k..];
      assert forall i :: 0 < i < k ==> ts[i] == ts[1..][i - 1];
    } else {
      assert ts[0..] == ts;
    }
  }

  lemma PruneTracks(ts: seq<int>, h: seq<int>, earlier: int, cutoff: int)
    requires Tracks(ts, h, earlier) && earlier <= cutoff
    ensures Tracks(Prune(ts, cutoff), h, cutoff)
  {
    PruneIsSuffix(ts, cutoff);
    var d, k := |h| - |ts|, |ts| - |Prune(ts, cutoff)|;
    assert h[d..][k..] == h[d + k..];
    assert forall i :: d <= i < d + k ==> h[i] == ts[i - d];
  }

  lemma {:induction false} CountAfterSplit(h: seq<int>, a: int, k: nat)
    requires k <= |h|
    requires forall i :: 0 <= i < k ==> h[i] <= a
    requires forall i :: k <= i < |h| ==> h[i] > a
    ensures CountAfter(h, a) == |h| - k
  {
    if h != [] {
      var front := h[..|h| - 1];
      CountAfterSplit(front, a, if k == |h| then k - 1 else k);
    }
  }

  /** What is left after pruning is what the naive rule counts. */
  lemma PrunedIsCounted(ts: seq<int>, h: seq<int>, cutoff: int)
    requires Sorted(h) && Tracks(ts, h, cutoff)
    ensures |Prune(ts, cutoff)| == CountAfter(h, cutoff)
  {
    PruneTracks(ts, h, cutoff, cutoff);
    PruneIsSuffix(ts, cutoff);
    var kept := Prune(ts, cutoff);
    var k := |h| - |kept|;
    forall i | k <= i < |h| ensures h[i] > cutoff {
      assert kept[0] == h[k];
    }
    CountAfterSplit(h, cutoff, k);
  }

  /** The history is sorted and in the past, and the list tracks it. */
  ghost predicate HistoryOk(h: seq<int>, ts: seq<int>, now: int, cutoff: int) {
    && Sorted(h) && (forall i :: 0 <= i < |h| ==> h[i] <= now)
    && Tracks(ts, h, cutoff)
  }

  lemma AppendOk(h: seq<int>, ts: seq<int>, now: int, cutoff: int)
    requires HistoryOk(h, ts, now, cutoff)
    ensures HistoryOk(h + [now], ts + [now], now, cutoff)
  {
    assert (h + [now])[|h| - |ts|..] == ts + [now];
  }

  lemma PruneOk(h: seq<int>, ts: seq<int>, now: int, cutoff: int)
    requires HistoryOk(h, ts, now, cutoff)
    ensures HistoryOk(h, Prune(ts, cutoff), now, cutoff)
  {
    PruneTracks(ts, h, cutoff, cutoff);
  }

  ghost predicate KeyOk(c: Config, es: seq<Event>, key: Key, now: int) {
    HistoryOk(Admitted(c, es, key), Stamps(Run(c, es), key), now, now - c.window)
  }

  lemma KeyOkLater(c: Config, es: seq<Event>, key: Key, now: int, later: int)
    requires KeyOk(c, es, key, now) && now <= later
    ensures KeyOk(c, es, key, later)
  {
  }

  /** What one event does to a key's list. */
  lemma StampsAfter(c: Config, t: Table, e: Event, key: Key)
    ensures var ts := Stamps(t, key);
            var kept := Prune(ts, e.now - c.window);
            Stamps(After(c, t, e), key) ==
              if e.Allow? && e.key != key then ts
              else if e.Allow? && |kept| < c.limit then kept + [e.now]
              else kept
  {
  }

  lemma RunAppend(c: Config, es: seq<Event>, e: Event, key: Key)
    ensures Run(c, es + [e]) == After(c, Run(c, es), e)
    ensures Admitted(c, es + [e], key) ==
              if e.Allow? && e.key == key && Admits(c, Run(c, es), key, e.now) then Admitted(c, es, key) + [e.now]
              else Admitted(c, es, key)
  {
    assert (es + [e])[..|es|] == es;
  }

  lemma StepOk(h: seq<int>, ts: seq<int>, now: int, cutoff: int, h': seq<int>, ts': seq<int>)
    requires HistoryOk(h, ts, now, cutoff)
    requires || (h' == h && (ts' == ts || ts' == Prune(ts, cutoff)))
             || (h' == h + [now] && ts' == Prune(ts, cutoff) + [now])
    ensures HistoryOk(h', ts', now, cutoff)
  {
    if ts' == ts && h' == h {
    } else {
      PruneOk(h, ts, now, cutoff);
      if h' != h {
        AppendOk(h, Prune(ts, cutoff), now, cutoff);
      }
    }
  }

  /** One event keeps it of any table and history. */
  lemma EventKeepsOk(c: Config, t: Table, h: seq<int>, e: Event, key: Key)
    requires HistoryOk(h, Stamps(t, key), e.now, e.now - c.window)
    ensures HistoryOk(HistoryAfter(c, t, h, e, key), Stamps(After(c, t, e), key), e.now, e.now - c.window)
  {
    StampsAfter(c, t, e, key);
    StepOk(h, Stamps(t, key), e.now, e.now - c.window, HistoryAfter(c, t, h, e, key), Stamps(After(c, t, e), key));
  }

  lemma StepKeepsKeyOk(c: Config, es: seq<Event>, key: Key)
    requires es != [] && KeyOk(c, es[..|es| - 1], key, es[|es| - 1].now)
    ensures KeyOk(c, es, key, es[|es| - 1].now)
  {
    var before, e := es[..|es| - 1], es[|es| - 1];
    EventKeepsOk(c, Run(c, before), Admitted(c, before, key), e, key);
  }

  lemma {:induction false} RunKeepsKeyOk(c: Config, es: seq<Event>, key: Key, now: int)
    requires Clocked(es) && forall i :: 0 <= i < |es| ==> es[i].now <= now
    ensures KeyOk(c, es, key, now)
    decreases |es|
  {
    if es != [] {
      var before, e := es[..|es| - 1], es[|es| - 1];
      RunKeepsKeyOk(c, before, key, e.now);
      StepKeepsKeyOk(c, es, key);
      KeyOkLater(c, es, key, e.now, now);
    }
  }

  // ----- refinement -----

  lemma TrackedDecision(c: Config, t: Table, h: seq<int>, key: Key, now: int)
    requires HistoryOk(h, Stamps(t, key), now, now - c.window)
    ensures Admits(c, t, key, now) == NaiveAdmits(c, h, now)
  {
    PrunedIsCounted(Stamps(t, key), h, now - c.window);
  }

  /** One decision of the table is the naive decision over the whole history. */
  lemma DecisionIsNaive(c: Config, es: seq<Event>, key: Key, now: int)
    requires Clocked(es) && forall i :: 0 <= i < |es| ==> es[i].now <= now
    ensures Admits(c, Run(c, es), key, now) == NaiveAdmits(c, Admitted(c, es, key), now)
  {
    RunKeepsKeyOk(c, es, key, now);
    TrackedDecision(c, Run(c, es), Admitted(c, es, key), key, now);
  }

  /** Over every run, the answers to a key are those of the naive rule applied to the times of the
      key's own calls: sweeps and other keys play no part. */
  lemma {:induction false} Refinement(c: Config, es: seq<Event>, key: Key)
    requires Clocked(es)
    ensures Admitted(c, es, key) == NaiveAdmitted(c, CallTimes(es, key))
    ensures Decisions(c, es, key) == NaiveDecisions(c, CallTimes(es, key))
    decreases |es|
  {
    if es != [] {
      var before, e := es[..|es| - 1], es[|es| - 1];
      Refinement(c, before, key);
      if e.Allow? && e.key == key {
        DecisionIsNaive(c, before, key, e.now);
        var times := CallTimes(before, key) + [e.now];
        assert times[..|times| - 1] == CallTimes(before, key);
      } else {
        assert CallTimes(es, key) == CallTimes(before, key);
      }
    }
  }

  /** Runs that differ only in sweeps and in calls of other keys answer a key alike. */
  lemma SweepsAndOtherKeysDoNotMatter(c: Config, es: seq<Event>, fs: seq<Event>, key: Key)
    requires Clocked(es) && Clocked(fs) && CallTimes(es, key) == CallTimes(fs, key)
    ensures Decisions(c, es, key) == Decisions(c, fs, key)
  {
    Refinement(c, es, key);
    Refinement(c, fs, key);
  }

  // ----- the window bound -----

  /** How many times lie after a and not after b. */
  function CountIn(h: seq<int>, a: int, b: int): nat {
    if h == [] then 0 else CountIn(h[..|h| - 1], a, b) + if a < h[|h| - 1] <= b then 1 else 0
  }

  function AtLeastZero(n: int): nat {
    if n < 0 then 0 else n
  }

  lemma {:induction false} CountInAtMostAfter(h: seq<int>, a: int, b: int, cutoff: int)
    requires cutoff <= a
    ensures CountIn(h, a, b) <= CountAfter(h, cutoff)
  {
    if h != [] {
      CountInAtMostAfter(h[..|h| - 1], a, b, cutoff);
    }
  }

  lemma {:induction false} NaiveWindowBound(c: Config, times: seq<int>, a: int)
    ensures CountIn(NaiveAdmitted(c, times), a, a + c.window) <= AtLeastZero(c.limit)
  {
    if times != [] {
      var front, now := times[..|times| - 1], times[|times| - 1];
      NaiveWindowBound(c, front, a);
      var h := NaiveAdmitted(c, front);
      if NaiveAdmits(c, h, now) {
        assert (h + [now])[..|h|] == h;
        if a < now <= a + c.window {
          CountInAtMostAfter(h, a, a + c.window, now - c.window);
        }
      }
    }
  }

  /** For every instant a, at most limit calls of a key are admitted in (a, a + window]. */
  lemma WindowBound(c: Config, es: seq<Event>, key: Key, a: int)
    requires Clocked(es)
    ensures CountIn(Admitted(c, es, key), a, a + c.window) <= AtLeastZero(c.limit)
  {
    Refinement(c, es, key);
    NaiveWindowBound(c, CallTimes(es, key), a);
  }

  lemma {:induction false} ListLength(c: Config, es: seq<Event>, key: Key)
    ensures |Stamps(Run(c, es), key)| <= AtLeastZero(c.limit)
    decreases |es|
  {
    if es != [] {
      var before, e := es[..|es| - 1], es[|es| - 1];
      ListLength(c, before, key);
      StampsAfter(c, Run(c, before), e, key);
      PruneIsSuffix(Stamps(Run(c, before), key), e.now - c.window);
    }
  }

  /** The list kept for a key is sorted and has at most limit entries. */
  lemma ListBound(c: Config, es: seq<Event>, key: Key)
    requires Clocked(es)
    ensures Sorted(Stamps(Run(c, es), key)) && |Stamps(Run(c, es), key)| <= AtLeastZero(c.limit)
  {
    ListLength(c, es, key);
    if es != [] {
      RunKeepsKeyOk(c, es, key, es[|es| - 1].now);
    }
  }

  // ----- the table, and how many calls get through -----

  /** The times of a sorted history that lie after a. */
  function Recent(h: seq<int>, a: int): seq<int> {
    CountAfterFits(h, a);
    h[|h| - CountAfter(h, a)..]
  }

  lemma {:induction false} CountAfterFits(h: seq<int>, a: int)
    ensures CountAfter(h, a) <= |h|
  {
    if h != [] {
      CountAfterFits(h[..|h| - 1], a);
    }
  }

  lemma PrunedIsRecent(ts: seq<int>, h: seq<int>, now: int, cutoff: int)
    requires HistoryOk(h, ts, now, cutoff)
    ensures Prune(ts, cutoff) == Recent(h, cutoff)
  {
    PruneTracks(ts, h, cutoff, cutoff);
    PrunedIsCounted(ts, h, cutoff);
  }

  lemma ListAfter(c: Config, t: Table, h: seq<int>, e: Event, key: Key)
    requires HistoryOk(h, Stamps(t, key), e.now, e.now - c.window)
    ensures var recent := Recent(h, e.now - c.window);
            Stamps(After(c, t, e), key) ==
              match e
              case Gc(_) => recent
              case Allow(k, now) =>
                if k != key then Stamps(t, key) else if NaiveAdmits(c, h, now) then recent + [now] else recent
  {
    StampsAfter(c, t, e, key);
    PrunedIsRecent(Stamps(t, key), h, e.now, e.now - c.window);
    CountAfterFits(h, e.now - c.window);
  }

  /** The list kept for a key, over every run: a call of the key leaves the admitted times that were
      in the window and its own if it was admitted, a sweep leaves those in the window, and a call of
      another key leaves the list alone. */
  lemma ListExactly(c: Config, es: seq<Event>, key: Key)
    requires es != [] && Clocked(es)
    ensures var before, e := es[..|es| - 1], es[|es| - 1];
            var h := Admitted(c, before, key);
            Stamps(Run(c, es), key) ==
              match e
              case Gc(now) => Recent(h, now - c.window)
              case Allow(k, now) =>
                if k != key then Stamps(Run(c, before), key)
                else if NaiveAdmits(c, h, now) then Recent(h, now - c.window) + [now]
                else Recent(h, now - c.window)
  {
    var before, e := es[..|es| - 1], es[|es| - 1];
    RunKeepsKeyOk(c, before, key, e.now);
    ListAfter(c, Run(c, before), Admitted(c, before, key), e, key);
  }

  lemma KeyAfter(c: Config, t: Table, h: seq<int>, e: Event, key: Key)
    requires HistoryOk(h, Stamps(t, key), e.now, e.now - c.window)
    ensures key in After(c, t, e) <==>
              match e
              case Allow(k, _) => k == key || key in t
              case Gc(now) => CountAfter(h, now - c.window) > 0
  {
    PrunedIsRecent(Stamps(t, key), h, e.now, e.now - c.window);
    CountAfterFits(h, e.now - c.window);
  }

  /** The keys in the table: a call files its key, and a sweep keeps exactly the keys with an admitted
      call in the window. */
  lemma KeysExactly(c: Config, es: seq<Event>, key: Key)
    requires es != [] && Clocked(es)
    ensures var before, e := es[..|es| - 1], es[|es| - 1];
            key in Run(c, es) <==>
              match e
              case Allow(k, _) => k == key || key in Run(c, before)
              case Gc(now) => CountAfter(Admitted(c, before, key), now - c.window) > 0
  {
    var before, e := es[..|es| - 1], es[|es| - 1];
    RunKeepsKeyOk(c, before, key, e.now);
    KeyAfter(c, Run(c, before), Admitted(c, before, key), e, key);
  }

  predicate AllAt(ts: seq<int>, now: int) {
    forall i :: 0 <= i < |ts| ==> ts[i] == now
  }

  lemma {:induction false} TimesAt(es: seq<Event>, key: Key, now: int)
    requires forall i :: 0 <= i < |es| ==> es[i].now == now
    ensures AllAt(CallTimes(es, key), now)
  {
    if es != [] {
      TimesAt(es[..|es| - 1], key, now);
    }
  }

  function Capped(n: nat, limit: int): nat {
    if n <= AtLeastZero(limit) then n else AtLeastZero(limit)
  }

  lemma {:induction false} NaiveLimitIsReached(c: Config, times: seq<int>, now: int)
    requires c.window > 0 && AllAt(times, now)
    ensures AllAt(NaiveAdmitted(c, times), now) && |NaiveAdmitted(c, times)| == Capped(|times|, c.limit)
  {
    if times != [] {
      var h := NaiveAdmitted(c, times[..|times| - 1]);
      NaiveLimitIsReached(c, times[..|times| - 1], now);
      CountAfterSplit(h, now - c.window, 0);
    }
  }

  /** The bound is reached: of the calls of a key at one instant, as many as the limit are admitted,
      and all of them if there are no more than that. */
  lemma LimitIsReached(c: Config, es: seq<Event>, key: Key, now: int)
    requires c.window > 0 && forall i :: 0 <= i < |es| ==> es[i].now == now
    ensures |Admitted(c, es, key)| == Capped(|CallTimes(es, key)|, c.limit)
  {
    Refinement(c, es, key);
    TimesAt(es, key, now);
    NaiveLimitIsReached(c, CallTimes(es, key), now);
  }

  // ----- the object -----

  class SlidingWindowLimiter {
    const limit: int
    const window: int
    var entries: Table

    constructor (limit: int, window: int)
      ensures this.limit == limit && this.window == window && entries == map[]
    {
      this.limit := limit;
      this.window := window;
      entries := map[];
    }

    function Settings(): Config {
      Config(limit, window)
    }

    /** The index of the first timestamp after the cutoff. */
    static method FirstValid(timestamps: seq<int>, cutoff: int) returns (firstValid: nat)
      ensures firstValid <= |timestamps| && timestamps[firstValid..] == Prune(timestamps, cutoff)
    {
      firstValid := 0;
      assert timestamps[0..] == timestamps;
      for i := 0 to |timestamps|
        invariant firstValid == i
        invariant Prune(timestamps, cutoff) == Prune(timestamps[i..], cutoff)
      {
        if timestamps[i] > cutoff {
          break;
        }
        assert timestamps[i..][1..] == timestamps[i + 1..];
        firstValid := i + 1;
      }
    }

    method Allow(key: Key, now: int) returns (allowed: bool)
      modifies this
      ensures allowed == Admits(Settings(), old(entries), key, now)
      ensures entries == AfterAllow(Settings(), old(entries), key, now)
    {
      var timestamps := Stamps(entries, key);
      var firstValid := FirstValid(timestamps, now - window);
      timestamps := timestamps[firstValid..];
      if |timestamps| >= limit {
        entries := entries[key := timestamps];
        return false;
      }
      timestamps := timestamps + [now];
      entries := entries[key := timestamps];
      allowed := true;
    }

    method Collect(now: int)
      modifies this
      ensures entries == AfterGc(Settings(), old(entries), now)
    {
      var cutoff := now - window;
      var before := entries;
      var todo := before.Keys;
      while todo != {}
        invariant todo <= before.Keys
        invariant forall k :: k in entries <==> k in before && (k in todo || Prune(before[k], cutoff) != [])
        invariant forall k :: k in entries ==> entries[k] == if k in todo then before[k] else Prune(before[k], cutoff)
        decreases todo
      {
        var key :| key in todo;
        todo := todo - {key};
        var firstValid := FirstValid(entries[key], cutoff);
        if firstValid >= |entries[key]| {
          entries := entries - {key};
        } else {
          entries := entries[key := entries[key][firstValid..]];
        }
      }
    }
  }

  // ----- the pre-built pair -----

  datatype LimiterConfig = LimiterConfig(perSecond: int, perMinute: int, burst: int)

  const SECOND := 1_000_000_000
  const MINUTE := 60 * SECOND

  function PerSecond(cfg: LimiterConfig): Config {
    Config(cfg.perSecond + cfg.burst, SECOND)
  }

  function PerMinute(cfg: LimiterConfig): Config {
    Config(cfg.perMinute + cfg.burst, MINUTE)
  }

  method NewDefaultLimiter(cfg: LimiterConfig) returns (second: SlidingWindowLimiter, minute: SlidingWindowLimiter)
    ensures fresh(second) && fresh(minute) && second != minute
    ensures second.limit == cfg.perSecond + cfg.burst && second.window == 1_000_000_000 && second.entries == map[]
    ensures minute.limit == cfg.perMinute + cfg.burst && minute.window == 60_000_000_000 && minute.entries == map[]
    ensures second.Settings() == PerSecond(cfg) && minute.Settings() == PerMinute(cfg)
  {
    second := new SlidingWindowLimiter(cfg.perSecond + cfg.burst, SECOND);
    minute := new SlidingWindowLimiter(cfg.perMinute + cfg.burst, MINUTE);
  }
}
