/** The viewer's bound on expensive operations (internal/web/limit.go): a global
    busy slot and one lazily refilled token bucket per session. Times and
    durations are whole nanoseconds. */
module Limiter {
  const SECOND := 1_000_000_000
  const BUSY_RETRY_AFTER := SECOND

  datatype Config = Config(cooldown: int, burst: int, sweepThreshold: nat)
  datatype Budget = Budget(tokens: int, refilled: int)
  datatype Limits = Limits(busy: bool, budgets: map<string, Budget>)
  datatype Answer = Answer(state: Limits, wait: int, admitted: bool)

  function Min(a: int, b: int): int {
    if a < b then a else b
  }

  /** Whole cooldowns elapsed become tokens. A clock that ran backwards yields a
      quotient that is not positive, under truncation and Euclidean division alike. */
  function Refill(c: Config, b: Budget, now: int): Budget
    requires c.cooldown > 0
  {
    var gained := (now - b.refilled) / c.cooldown;
    if gained > 0 then Budget(Min(c.burst, b.tokens + gained), b.refilled + gained * c.cooldown) else b
  }

  function RefillIn(c: Config, b: Budget, now: int): int {
    var next := b.refilled + c.cooldown;
    if next <= now then c.cooldown else next - now
  }

  /** The drop test reads the stored tokens, not the refilled ones. */
  predicate Idle(c: Config, b: Budget, now: int) {
    b.tokens >= c.burst && now - b.refilled >= c.cooldown
  }

  function Swept(c: Config, budgets: map<string, Budget>, now: int): map<string, Budget> {
    if |budgets| <= c.sweepThreshold then budgets
    else map id | id in budgets && !Idle(c, budgets[id], now) :: budgets[id]
  }

  function BucketOf(c: Config, budgets: map<string, Budget>, id: string, now: int): Budget
    requires c.cooldown > 0
  {
    if id in budgets then Refill(c, budgets[id], now) else Budget(c.burst, now)
  }

  /** `begin` as a function of the state. */
  function Begin(c: Config, s: Limits, id: string, now: int): Answer {
    if c.cooldown > 0 then
      var kept := Swept(c, s.budgets, now);
      var b := BucketOf(c, kept, id, now);
      if b.tokens == 0 then Answer(Limits(s.busy, kept[id := b]), RefillIn(c, b, now), false)
      else if s.busy then Answer(Limits(s.busy, kept[id := b]), BUSY_RETRY_AFTER, false)
      else Answer(Limits(true, kept[id := b.(tokens := b.tokens - 1)]), 0, true)
    else if s.busy then Answer(s, BUSY_RETRY_AFTER, false)
    else Answer(s.(busy := true), 0, true)
  }

  class ExpensiveOps {
    const config: Config
    var busy: bool
    var budgets: map<string, Budget>

    function State(): Limits
      reads this
    {
      Limits(busy, budgets)
    }

    constructor (cooldown: int, burst: int, sweepThreshold: nat)
      ensures config == Config(cooldown, burst, sweepThreshold) && State() == Limits(false, map[])
    {
      config := Config(cooldown, burst, sweepThreshold);
      busy := false;
      budgets := map[];
    }

    method SweepLocked(now: int)
      modifies this
      ensures State() == Limits(old(busy), Swept(config, old(budgets), now))
    {
      if |budgets| <= config.sweepThreshold {
        return;
      }
      ghost var before := budgets;
      var todo := budgets.Keys;
      while todo != {}
        invariant busy == old(busy) && todo <= before.Keys
        invariant budgets == map id | id in before && (id in todo || !Idle(config, before[id], now)) :: before[id]
        decreases todo
      {
        var id :| id in todo;
        if budgets[id].tokens >= config.burst && now - budgets[id].refilled >= config.cooldown {
          budgets := budgets - {id};
        }
        todo := todo - {id};
      }
    }

    /** The session's bucket, refilled and written back. */
    method BudgetLocked(id: string, now: int) returns (b: Budget)
      requires config.cooldown > 0
      modifies this
      ensures b == BucketOf(config, old(budgets), id, now)
      ensures State() == Limits(old(busy), old(budgets)[id := b])
    {
      if id !in budgets {
        b := Budget(config.burst, now);
        budgets := budgets[id := b];
        return;
      }
      b := budgets[id];
      var gained := (now - b.refilled) / config.cooldown;
      if gained > 0 {
        b := Budget(Min(config.burst, b.tokens + gained), b.refilled + gained * config.cooldown);
      }
      budgets := budgets[id := b];
    }

    method BeginOp(id: string, now: int) returns (wait: int, admitted: bool)
      modifies this
      ensures Answer(State(), wait, admitted) == Begin(config, old(State()), id, now)
    {
      if config.cooldown > 0 {
        SweepLocked(now);
        var b := BudgetLocked(id, now);
        if b.tokens == 0 {
          return RefillIn(config, b, now), false;
        }
        if busy {
          return BUSY_RETRY_AFTER, false;
        }
        budgets := budgets[id := b.(tokens := b.tokens - 1)];
        busy := true;
        return 0, true;
      }
      if busy {
        return BUSY_RETRY_AFTER, false;
      }
      busy := true;
      return 0, true;
    }

    method EndOp()
      modifies this
      ensures State() == old(State()).(busy := false)
    {
      busy := false;
    }
  }

  // ---- Runs -------------------------------------------------------------------

  datatype Event = Began(id: string, at: int) | Ended

  function After(c: Config, s: Limits, e: Event): Limits {
    match e
    case Began(id, at) => Begin(c, s, id, at).state
    case Ended => s.(busy := false)
  }

  predicate Admits(c: Config, s: Limits, e: Event) {
    e.Began? && Begin(c, s, e.id, e.at).admitted
  }

  /** The clock never runs backwards, starting at `start`. */
  predicate Ordered(events: seq<Event>, start: int)
    decreases |events|
  {
    |events| > 0 ==>
      match events[0]
      case Began(_, at) => start <= at && Ordered(events[1..], at)
      case Ended => Ordered(events[1..], start)
  }

  function Run(c: Config, s: Limits, events: seq<Event>): Limits
    decreases |events|
  {
    if |events| == 0 then s else Run(c, After(c, s, events[0]), events[1..])
  }

  /** How often `id` is admitted at a time in the closed window [from, to]. */
  function Admissions(c: Config, s: Limits, events: seq<Event>, id: string, from: int, to: int): nat
    decreases |events|
  {
    if |events| == 0 then 0 else
      var e := events[0];
      (if Admits(c, s, e) && e.id == id && from <= e.at <= to then 1 else 0)
      + Admissions(c, After(c, s, e), events[1..], id, from, to)
  }

  /** Buckets hold between zero and `burst` tokens and were refilled in the past. */
  ghost predicate Valid(c: Config, s: Limits, now: int) {
    forall id :: id in s.budgets ==> 0 <= s.budgets[id].tokens <= c.burst && s.budgets[id].refilled <= now
  }

  // ---- Division by the cooldown -----------------------------------------------

  lemma ScaleMonotone(a: int, b: int, c: int)
    requires c > 0
    ensures a <= b ==> a * c <= b * c
  {
  }

  lemma DivUnique(x: int, c: int, q: int)
    requires c > 0 && q * c <= x < q * c + c
    ensures x / c == q
  {
    var d := x / c;
    assert d * c <= x < d * c + c;
    ScaleMonotone(d + 1, q, c);
    ScaleMonotone(q + 1, d, c);
  }

  lemma DivShift(x: int, c: int, k: int)
    requires c > 0
    ensures (x - k * c) / c == x / c - k
  {
    var q := x / c;
    assert (q - k) * c == q * c - k * c;
    DivUnique(x - k * c, c, q - k);
  }

  lemma DivMonotone(x: int, y: int, c: int)
    requires c > 0 && x <= y
    ensures x / c <= y / c
  {
    ScaleMonotone(y / c + 1, x / c, c);
  }

  lemma RefillBounds(c: Config, b: Budget, now: int)
    requires c.cooldown > 0 && 0 <= b.tokens <= c.burst && b.refilled <= now
    ensures var f := Refill(c, b, now);
            0 <= f.tokens <= c.burst && b.refilled <= f.refilled <= now < f.refilled + c.cooldown
  {
    var gained := (now - b.refilled) / c.cooldown;
    assert gained * c.cooldown <= now - b.refilled < gained * c.cooldown + c.cooldown;
    DivMonotone(0, now - b.refilled, c.cooldown);
  }

  lemma BeginKeepsValid(c: Config, s: Limits, id: string, now: int, past: int)
    requires c.burst >= 0 && Valid(c, s, past) && past <= now
    ensures Valid(c, Begin(c, s, id, now).state, now)
  {
    if c.cooldown > 0 {
      var kept := Swept(c, s.budgets, now);
      if id in kept {
        RefillBounds(c, kept[id], now);
      }
    }
  }

  // ---- How often a session can be admitted --------------------------------------

  ghost predicate ValidBudget(c: Config, b: Budget, now: int) {
    0 <= b.tokens <= c.burst && b.refilled <= now
  }

  /** Tokens a bucket can still spend up to time `end`, counted from `now`. */
  ghost function Allowance(c: Config, budgets: map<string, Budget>, id: string, now: int, end: int): int
    requires c.cooldown > 0
  {
    var b := BucketOf(c, budgets, id, now);
    b.tokens + (end - b.refilled) / c.cooldown
  }

  lemma AllowanceFormula(c: Config, b: Budget, now: int, end: int)
    requires c.cooldown > 0 && ValidBudget(c, b, now)
    ensures var f, gained := Refill(c, b, now), (now - b.refilled) / c.cooldown;
            f.tokens + (end - f.refilled) / c.cooldown
            == Min(c.burst - gained, b.tokens) + (end - b.refilled) / c.cooldown
  {
    var gained := (now - b.refilled) / c.cooldown;
    DivMonotone(0, now - b.refilled, c.cooldown);
    DivShift(end - b.refilled, c.cooldown, gained);
    assert end - b.refilled - gained * c.cooldown == end - (b.refilled + gained * c.cooldown);
  }

  /** Waiting never adds to what can be spent by `end`: the cap only loses. */
  lemma AllowanceLater(c: Config, s: Limits, id: string, now: int, later: int, end: int)
    requires c.cooldown > 0 && Valid(c, s, now) && now <= later
    ensures Allowance(c, s.budgets, id, later, end) <= Allowance(c, s.budgets, id, now, end)
  {
    if id in s.budgets {
      var b := s.budgets[id];
      AllowanceFormula(c, b, now, end);
      AllowanceFormula(c, b, later, end);
      DivMonotone(now - b.refilled, later - b.refilled, c.cooldown);
    } else {
      DivMonotone(end - later, end - now, c.cooldown);
    }
  }

  /** Dropping a full idle bucket and recreating it later gains nothing. */
  lemma AllowanceSwept(c: Config, s: Limits, id: string, now: int, end: int)
    requires c.cooldown > 0 && Valid(c, s, now)
    ensures Allowance(c, Swept(c, s.budgets, now), id, now, end) <= Allowance(c, s.budgets, id, now, end)
  {
    var kept := Swept(c, s.budgets, now);
    if id in s.budgets && id !in kept {
      var f := Refill(c, s.budgets[id], now);
      RefillBounds(c, s.budgets[id], now);
      DivMonotone(c.cooldown, now - s.budgets[id].refilled, c.cooldown);
      DivUnique(c.cooldown, c.cooldown, 1);
      assert f.tokens == c.burst;
      DivMonotone(end - now, end - f.refilled, c.cooldown);
    }
  }

  /** A freshly refilled bucket is its own refill. */
  lemma RefillSettled(c: Config, b: Budget, now: int)
    requires c.cooldown > 0 && b.refilled <= now < b.refilled + c.cooldown
    ensures Refill(c, b, now) == b
  {
    DivUnique(now - b.refilled, c.cooldown, 0);
  }

  lemma BucketSettled(c: Config, s: Limits, id: string, now: int)
    requires c.cooldown > 0 && c.burst >= 0 && Valid(c, s, now)
    ensures var b := BucketOf(c, Swept(c, s.budgets, now), id, now);
            ValidBudget(c, b, now) && now < b.refilled + c.cooldown
  {
    var kept := Swept(c, s.budgets, now);
    if id in kept {
      RefillBounds(c, kept[id], now);
    }
  }

  /** Every admission of `id` costs it one unit of allowance, and nothing any
      session does adds to it. */
  lemma AllowanceStep(c: Config, s: Limits, x: string, id: string, now: int, end: int)
    requires c.cooldown > 0 && c.burst >= 0 && Valid(c, s, now)
    ensures var a := Begin(c, s, x, now);
            Allowance(c, a.state.budgets, id, now, end) + (if a.admitted && x == id then 1 else 0)
            <= Allowance(c, s.budgets, id, now, end)
  {
    AllowanceSwept(c, s, id, now, end);
    if x == id {
      BucketSettled(c, s, id, now);
      RefillSettled(c, Begin(c, s, x, now).state.budgets[id], now);
    }
  }

  lemma AllowanceBound(c: Config, s: Limits, id: string, now: int, end: int)
    requires c.cooldown > 0 && c.burst >= 0 && Valid(c, s, now) && now <= end
    ensures 0 <= Allowance(c, s.budgets, id, now, end) <= c.burst + (end - now + c.cooldown - 1) / c.cooldown
  {
    var b := BucketOf(c, s.budgets, id, now);
    if id in s.budgets {
      RefillBounds(c, s.budgets[id], now);
    }
    DivMonotone(0, end - b.refilled, c.cooldown);
    DivMonotone(end - b.refilled, end - now + c.cooldown - 1, c.cooldown);
  }

  /** From a moment inside the window, admissions up to its end are bounded by the
      allowance at that moment. */
  lemma {:induction false} AdmissionsWithinAllowance(c: Config, s: Limits, events: seq<Event>, id: string,
                                                     from: int, now: int, end: int)
    requires c.cooldown > 0 && c.burst >= 0 && Valid(c, s, now) && now <= end && Ordered(events, now)
    ensures Admissions(c, s, events, id, from, end) <= Allowance(c, s.budgets, id, now, end)
    decreases |events|
  {
    AllowanceBound(c, s, id, now, end);
    if |events| > 0 {
      match events[0]
      case Ended =>
        AdmissionsWithinAllowance(c, s.(busy := false), events[1..], id, from, now, end);
      case Began(x, at) =>
        var t := Begin(c, s, x, at).state;
        BeginKeepsValid(c, s, x, at, now);
        if at <= end {
          AllowanceLater(c, s, id, now, at, end);
          AllowanceStep(c, s, x, id, at, end);
          AdmissionsWithinAllowance(c, t, events[1..], id, from, at, end);
        } else {
          NoAdmissionsAfter(c, t, events[1..], id, from, at, end);
        }
    }
  }

  lemma {:induction false} NoAdmissionsAfter(c: Config, s: Limits, events: seq<Event>, id: string,
                                             from: int, now: int, end: int)
    requires end < now && Ordered(events, now)
    ensures Admissions(c, s, events, id, from, end) == 0
    decreases |events|
  {
    if |events| > 0 {
      NoAdmissionsAfter(c, After(c, s, events[0]), events[1..], id, from,
                        if events[0].Began? then events[0].at else now, end);
    }
  }

  /** The rate bound: over every run by any number of sessions, dropped and
      recreated buckets included, one session is admitted in any closed window of
      length T at most burst + ceil(T / cooldown) times. */
  lemma {:induction false} AdmissionsBounded(c: Config, s: Limits, events: seq<Event>, id: string,
                                             start: int, from: int, to: int)
    requires c.cooldown > 0 && c.burst >= 0 && Valid(c, s, start) && Ordered(events, start) && from <= to
    ensures Admissions(c, s, events, id, from, to) <= c.burst + (to - from + c.cooldown - 1) / c.cooldown
    decreases |events|
  {
    DivMonotone(0, to - from + c.cooldown - 1, c.cooldown);
    if |events| > 0 {
      match events[0]
      case Ended =>
        AdmissionsBounded(c, s.(busy := false), events[1..], id, start, from, to);
      case Began(x, at) =>
        BeginKeepsValid(c, s, x, at, start);
        if at < from {
          AdmissionsBounded(c, Begin(c, s, x, at).state, events[1..], id, at, from, to);
        } else if at <= to {
          AdmissionsWithinAllowance(c, s, events, id, from, at, to);
          AllowanceBound(c, s, id, at, to);
          DivMonotone(to - at + c.cooldown - 1, to - from + c.cooldown - 1, c.cooldown);
        } else {
          NoAdmissionsAfter(c, Begin(c, s, x, at).state, events[1..], id, from, at, to);
        }
    }
  }

  // ---- One operation at a time ----------------------------------------------------

  /** Operations running after `events`, when `running` were running before. */
  function Running(c: Config, s: Limits, events: seq<Event>, running: int): int
    decreases |events|
  {
    if |events| == 0 then running else
      Running(c, After(c, s, events[0]), events[1..],
              running + if events[0].Ended? then -1 else if Admits(c, s, events[0]) then 1 else 0)
  }

  /** `end` is called only by an operation that was admitted and has not ended. */
  predicate Paired(c: Config, s: Limits, events: seq<Event>, running: int)
    decreases |events|
  {
    |events| > 0 ==>
      && (events[0].Ended? ==> running > 0)
      && Paired(c, After(c, s, events[0]), events[1..],
                running + if events[0].Ended? then -1 else if Admits(c, s, events[0]) then 1 else 0)
  }

  /** At the end of every paired run at most one admitted operation is running,
      and the busy flag says exactly whether one is; with or without a cooldown. */
  lemma {:induction false} OneAtATime(c: Config, s: Limits, events: seq<Event>, running: int)
    requires running == (if s.busy then 1 else 0) && Paired(c, s, events, running)
    ensures Running(c, s, events, running) == if Run(c, s, events).busy then 1 else 0
    decreases |events|
  {
    if |events| > 0 {
      OneAtATime(c, After(c, s, events[0]), events[1..],
                 running + if events[0].Ended? then -1 else if Admits(c, s, events[0]) then 1 else 0);
    }
  }

  // ---- The announced wait is exact ---------------------------------------------------

  /** The bucket a call of `id` at `now` would find. */
  function Found(c: Config, s: Limits, id: string, now: int): Budget
    requires c.cooldown > 0
  {
    BucketOf(c, Swept(c, s.budgets, now), id, now)
  }

  /** `begin` refused because the session's bucket is empty. */
  predicate Empty(c: Config, s: Limits, id: string, now: int)
    requires c.cooldown > 0
  {
    Found(c, s, id, now).tokens == 0
  }

  /** The session holds an empty bucket whose next token is due at `due`. */
  predicate EmptyUntil(c: Config, s: Limits, id: string, due: int) {
    id in s.budgets && s.budgets[id] == Budget(0, due - c.cooldown)
  }

  /** Who is admitted, and what it costs: exactly the sessions that find a token while
      no operation runs, one token each; a refusal costs nothing and says how long to
      wait. Without a cooldown only the running operation counts. */
  lemma AdmittedExactly(c: Config, s: Limits, id: string, now: int)
    requires c.burst > 0 && Valid(c, s, now)
    ensures var a := Begin(c, s, id, now);
            && (a.admitted <==> !s.busy && (c.cooldown > 0 ==> Found(c, s, id, now).tokens > 0))
            && (a.state.busy <==> s.busy || a.admitted)
            && (a.admitted ==> a.wait == 0)
            && (c.cooldown <= 0 ==> a.state.budgets == s.budgets && (!a.admitted ==> a.wait == BUSY_RETRY_AFTER))
    ensures c.cooldown > 0 ==>
              var a, b := Begin(c, s, id, now), Found(c, s, id, now);
              && Found(c, a.state, id, now) == (if a.admitted then b.(tokens := b.tokens - 1) else b)
              && (b.tokens == 0 ==> a.wait == b.refilled + c.cooldown - now > 0)
              && (!a.admitted && b.tokens > 0 ==> a.wait == BUSY_RETRY_AFTER)
  {
    if c.cooldown > 0 {
      BucketSettled(c, s, id, now);
      RefillSettled(c, Begin(c, s, id, now).state.budgets[id], now);
    }
  }

  /** `n` operations of one session, one after another at the same moment. */
  function BackToBack(id: string, now: int, n: nat): seq<Event> {
    if n == 0 then [] else [Began(id, now), Ended] + BackToBack(id, now, n - 1)
  }

  /** A session that finds n tokens while no operation runs is admitted n times in a
      row, and then finds none. */
  lemma {:induction false} TokensAreSpendable(c: Config, s: Limits, id: string, now: int, n: nat)
    requires c.cooldown > 0 && c.burst > 0 && Valid(c, s, now) && !s.busy && n <= Found(c, s, id, now).tokens
    ensures var events := BackToBack(id, now, n);
            && Admissions(c, s, events, id, now, now) == n
            && !Run(c, s, events).busy
            && Found(c, Run(c, s, events), id, now) ==
               Found(c, s, id, now).(tokens := Found(c, s, id, now).tokens - n)
    decreases n
  {
    if n > 0 {
      AdmittedExactly(c, s, id, now);
      BeginKeepsValid(c, s, id, now, now);
      var t, rest := Begin(c, s, id, now).state.(busy := false), BackToBack(id, now, n - 1);
      var events := BackToBack(id, now, n);
      assert events[0] == Began(id, now) && events[1..][0] == Ended && events[1..][1..] == rest;
      TokensAreSpendable(c, t, id, now, n - 1);
    }
  }

  /** A new session finds a full burst. */
  lemma NewSessionIsFull(c: Config, s: Limits, id: string, now: int)
    requires c.cooldown > 0 && id !in s.budgets
    ensures Found(c, s, id, now).tokens == c.burst
  {
  }

  lemma EmptyRefusal(c: Config, s: Limits, id: string, now: int)
    requires c.cooldown > 0 && c.burst > 0 && Valid(c, s, now) && Empty(c, s, id, now)
    ensures var a := Begin(c, s, id, now);
            !a.admitted && 0 < a.wait <= c.cooldown && EmptyUntil(c, a.state, id, now + a.wait)
  {
    BucketSettled(c, s, id, now);
  }

  /** Before the due time every attempt of the session is refused for want of a
      token and told the remaining wait; from then on an attempt finds a token. */
  lemma RetryWhenDue(c: Config, s: Limits, id: string, now: int, due: int)
    requires c.cooldown > 0 && c.burst > 0 && EmptyUntil(c, s, id, due) && due - c.cooldown <= now
    ensures now < due ==>
              Empty(c, s, id, now)
              && Begin(c, s, id, now) == Answer(Begin(c, s, id, now).state, due - now, false)
              && EmptyUntil(c, Begin(c, s, id, now).state, id, due)
    ensures now >= due ==> !Empty(c, s, id, now) && (Begin(c, s, id, now).admitted <==> !s.busy)
  {
    var kept := Swept(c, s.budgets, now);
    assert id in kept && kept[id] == s.budgets[id];
    if now < due {
      RefillSettled(c, kept[id], now);
    } else {
      DivMonotone(c.cooldown, now - kept[id].refilled, c.cooldown);
      DivUnique(c.cooldown, c.cooldown, 1);
    }
  }

  predicate EarlyOnly(events: seq<Event>, id: string, due: int) {
    forall k :: 0 <= k < |events| && events[k].Began? && events[k].id == id ==> events[k].at < due
  }

  /** Nothing other sessions do, and no early retry, moves the due time. */
  lemma {:induction false} EmptyUntilPersists(c: Config, s: Limits, id: string, events: seq<Event>, now: int, due: int)
    requires c.cooldown > 0 && c.burst > 0 && due - c.cooldown <= now
    requires EmptyUntil(c, s, id, due) && Ordered(events, now) && EarlyOnly(events, id, due)
    ensures EmptyUntil(c, Run(c, s, events), id, due)
    ensures Admissions(c, s, events, id, now, due) == 0
    decreases |events|
  {
    if |events| > 0 {
      var t := After(c, s, events[0]);
      match events[0]
      case Ended =>
        EmptyUntilPersists(c, t, id, events[1..], now, due);
      case Began(x, at) =>
        if x == id {
          RetryWhenDue(c, s, id, at, due);
        }
        EmptyUntilPersists(c, t, id, events[1..], at, due);
        AdmissionsFromLater(c, t, events[1..], id, now, at, due);
    }
  }

  lemma {:induction false} AdmissionsFromLater(c: Config, s: Limits, events: seq<Event>, id: string,
                                               from: int, now: int, to: int)
    requires from <= now && Ordered(events, now)
    ensures Admissions(c, s, events, id, from, to) == Admissions(c, s, events, id, now, to)
    decreases |events|
  {
    if |events| > 0 {
      match events[0]
      case Ended => AdmissionsFromLater(c, After(c, s, Ended), events[1..], id, from, now, to);
      case Began(x, at) =>
        var t := After(c, s, events[0]);
        AdmissionsFromLater(c, t, events[1..], id, from, at, to);
        AdmissionsFromLater(c, t, events[1..], id, now, at, to);
    }
  }

  /** An empty-bucket refusal at `now` with wait d, followed by anything in which
      the session retries only before now + d: all those retries are refused, and
      a retry at any time from now + d on finds a token. */
  lemma RefusalIsExact(c: Config, s: Limits, id: string, now: int, events: seq<Event>, retry: int)
    requires c.cooldown > 0 && c.burst > 0 && Valid(c, s, now) && Empty(c, s, id, now)
    requires var a := Begin(c, s, id, now);
             Ordered(events, now) && EarlyOnly(events, id, now + a.wait) && now + a.wait <= retry
    ensures var a := Begin(c, s, id, now);
            && !a.admitted && 0 < a.wait <= c.cooldown
            && Admissions(c, a.state, events, id, now, now + a.wait) == 0
            && !Empty(c, Run(c, a.state, events), id, retry)
            && (Begin(c, Run(c, a.state, events), id, retry).admitted <==> !Run(c, a.state, events).busy)
  {
    var a := Begin(c, s, id, now);
    EmptyRefusal(c, s, id, now);
    EmptyUntilPersists(c, a.state, id, events, now, now + a.wait);
    RetryWhenDue(c, Run(c, a.state, events), id, retry, now + a.wait);
  }

  /** Refilling lazily at any moment in between loses nothing: the remainder of a
      period is kept. */
  lemma RefillTwice(c: Config, b: Budget, now: int, later: int)
    requires c.cooldown > 0 && ValidBudget(c, b, now) && now <= later
    ensures Refill(c, Refill(c, b, now), later) == Refill(c, b, later)
  {
    var gained := (now - b.refilled) / c.cooldown;
    DivMonotone(0, now - b.refilled, c.cooldown);
    DivMonotone(now - b.refilled, later - b.refilled, c.cooldown);
    DivShift(later - b.refilled, c.cooldown, gained);
    var more := (later - b.refilled) / c.cooldown - gained;
    assert (gained + more) * c.cooldown == gained * c.cooldown + more * c.cooldown;
    assert later - Refill(c, b, now).refilled == later - b.refilled - gained * c.cooldown;
  }

  /** Dropping a bucket or keeping it makes no difference to its tokens, nor to
      anything about one that is not full. */
  lemma DropIsInvisible(c: Config, budgets: map<string, Budget>, id: string, later: int)
    requires c.cooldown > 0 && id in budgets && ValidBudget(c, budgets[id], later)
    ensures var b := BucketOf(c, Swept(c, budgets, later), id, later);
            var kept := Refill(c, budgets[id], later);
            b.tokens == kept.tokens && (kept.tokens < c.burst ==> b == kept)
  {
    DivMonotone(0, later - budgets[id].refilled, c.cooldown);
  }

  /** As good as one another: as many tokens, and unless the bucket is full, the next
      one due at the same moment. */
  predicate AsGood(c: Config, a: Budget, b: Budget) {
    a.tokens == b.tokens && (b.tokens < c.burst ==> a == b)
  }

  /** No call of `id` among the events. */
  predicate Away(events: seq<Event>, id: string) {
    forall k :: 0 <= k < |events| && events[k].Began? ==> events[k].id != id
  }

  /** Whatever other sessions do in between, dropping the bucket included, a session
      finds what it would have found without them. */
  lemma OthersDoNotMatter(c: Config, s: Limits, id: string, events: seq<Event>, now: int, later: int)
    requires c.cooldown > 0 && Valid(c, s, now) && now <= later && Away(events, id)
    ensures AsGood(c, Found(c, Run(c, s, events), id, later), Found(c, s, id, later))
  {
    var t := Run(c, s, events);
    if id in s.budgets {
      BucketDroppedExactly(c, s, id, events);
      DropIsInvisible(c, s.budgets, id, later);
      if id in t.budgets {
        DropIsInvisible(c, t.budgets, id, later);
      } else {
        DivMonotone(0, later - s.budgets[id].refilled, c.cooldown);
      }
    } else {
      GoneStaysGone(c, s, id, events);
    }
  }

  /** A refusal because the slot is taken leaves what is found later as good. */
  lemma BusyRefusalAsGood(c: Config, s: Limits, id: string, now: int, later: int)
    requires c.cooldown > 0 && c.burst > 0 && Valid(c, s, now) && now <= later
    requires s.busy && !Empty(c, s, id, now)
    ensures var a := Begin(c, s, id, now);
            !a.admitted && a.wait == BUSY_RETRY_AFTER && a.state.busy
            && AsGood(c, Found(c, a.state, id, later), Found(c, s, id, later))
  {
    var a := Begin(c, s, id, now);
    BucketSettled(c, s, id, now);
    DropIsInvisible(c, a.state.budgets, id, later);
    if id in s.budgets {
      DropIsInvisible(c, s.budgets, id, later);
      RefillTwice(c, s.budgets[id], now, later);
      DivMonotone(0, later - s.budgets[id].refilled, c.cooldown);
    }
    DivMonotone(0, later - now, c.cooldown);
  }

  /** It costs nothing: whatever other sessions do until the next attempt, the session
      then has the very tokens it would have if it had not asked, and unless its
      bucket is full the next one is due at the same moment. */
  lemma BusyRefusalIsFree(c: Config, s: Limits, id: string, now: int, events: seq<Event>, later: int)
    requires c.cooldown > 0 && c.burst > 0 && Valid(c, s, now) && now <= later
    requires s.busy && !Empty(c, s, id, now) && Away(events, id)
    ensures var a := Begin(c, s, id, now);
            var asked, silent := Run(c, a.state, events), Run(c, s, events);
            && !a.admitted && a.wait == BUSY_RETRY_AFTER && a.state.busy
            && AsGood(c, Found(c, asked, id, later), Found(c, silent, id, later))
            && !Empty(c, asked, id, later) && !Empty(c, silent, id, later)
  {
    var a := Begin(c, s, id, now);
    BusyRefusalAsGood(c, s, id, now, later);
    BeginKeepsValid(c, s, id, now, now);
    OthersDoNotMatter(c, a.state, id, events, now, later);
    OthersDoNotMatter(c, s, id, events, now, later);
    NonEmptyStays(c, s, id, now, later);
  }

  lemma NonEmptyStays(c: Config, s: Limits, id: string, now: int, later: int)
    requires c.cooldown > 0 && c.burst > 0 && Valid(c, s, now) && now <= later && !Empty(c, s, id, now)
    ensures !Empty(c, s, id, later)
  {
    if id in Swept(c, s.budgets, later) {
      var b := s.budgets[id];
      DivMonotone(0, now - b.refilled, c.cooldown);
      DivMonotone(now - b.refilled, later - b.refilled, c.cooldown);
    }
  }

  /** An event of another session reclaims the bucket `b`. */
  predicate Reclaims(c: Config, s: Limits, b: Budget, e: Event) {
    && e.Began? && c.cooldown > 0 && |s.budgets| > c.sweepThreshold
    && b.tokens >= c.burst && e.at - b.refilled >= c.cooldown
  }

  lemma {:induction false} GoneStaysGone(c: Config, s: Limits, id: string, events: seq<Event>)
    requires id !in s.budgets
    requires Away(events, id)
    ensures id !in Run(c, s, events).budgets
    decreases |events|
  {
    if |events| > 0 {
      GoneStaysGone(c, After(c, s, events[0]), id, events[1..]);
    }
  }

  /** While its session stays away a bucket is dropped exactly when some call finds
      more buckets than the threshold and this one full, as stored, and a cooldown
      old; until then it is not touched. */
  lemma {:induction false} BucketDroppedExactly(c: Config, s: Limits, id: string, events: seq<Event>)
    requires id in s.budgets
    requires Away(events, id)
    ensures var t := Run(c, s, events);
            && (id !in t.budgets <==>
                exists k :: 0 <= k < |events| && Reclaims(c, Run(c, s, events[..k]), s.budgets[id], events[k]))
            && (id in t.budgets ==> t.budgets[id] == s.budgets[id])
    decreases |events|
  {
    if |events| > 0 {
      var next, rest := After(c, s, events[0]), events[1..];
      assert events[..0] == [];
      forall k | 0 <= k < |rest|
        ensures Run(c, s, events[..k + 1]) == Run(c, next, rest[..k]) && events[k + 1] == rest[k]
      {
        assert events[..k + 1][1..] == rest[..k];
      }
      if Reclaims(c, s, s.budgets[id], events[0]) {
        GoneStaysGone(c, next, id, rest);
      } else {
        BucketDroppedExactly(c, next, id, rest);
        assert forall k :: 0 < k < |events| ==> events[k] == rest[k - 1];
      }
    }
  }

  /** Idle buckets are not all reclaimed: one that was left with a token spent is
      never dropped, however long its session stays away, because the drop test
      reads the tokens as stored. */
  lemma SpentBucketIsKept(c: Config, s: Limits, id: string, events: seq<Event>)
    requires id in s.budgets && s.budgets[id].tokens < c.burst
    requires Away(events, id)
    ensures var t := Run(c, s, events); id in t.budgets && t.budgets[id] == s.budgets[id]
  {
    BucketDroppedExactly(c, s, id, events);
  }

  /** `retryAfterSeconds`. */
  function RetryAfterSeconds(d: int): int {
    var seconds := (d + SECOND - 1) / SECOND;
    if seconds < 1 then 1 else seconds
  }

  /** Waiting the announced Retry-After (delay-seconds, section 10.2.3 of RFC 9110)
      after an empty-bucket refusal is always enough, and overshoots the exact wait
      by less than a second. */
  lemma RetryAfterSuffices(c: Config, s: Limits, id: string, now: int, events: seq<Event>)
    requires c.cooldown > 0 && c.burst > 0 && Valid(c, s, now) && Empty(c, s, id, now)
    requires var a := Begin(c, s, id, now); Ordered(events, now) && EarlyOnly(events, id, now + a.wait)
    ensures var a := Begin(c, s, id, now);
            var wait := RetryAfterSeconds(a.wait) * SECOND;
            a.wait <= wait < a.wait + SECOND && !Empty(c, Run(c, a.state, events), id, now + wait)
  {
    var a := Begin(c, s, id, now);
    EmptyRefusal(c, s, id, now);
    RefusalIsExact(c, s, id, now, events, now + RetryAfterSeconds(a.wait) * SECOND);
  }
}
