/** TokenRefreshBackgroundService: the hosted loop that checks the token on every tick,
    refreshes it shortly before expiry, counts consecutive failures and raises a critical
    alert once they reach the configured maximum.

    The token service the tick resolves is seen only through the results of its calls; they
    come in as a TickInputs value, one per loop iteration. */
module TokenRefresh {
  import opened Wrappers
  import opened Models

  /** What the tick's calls produce: whether creating the service scope threw, and the
      results of GetCurrentTokenAsync, NeedsOAuthFlowRestartAsync, GetRefreshTokenAgeAsync
      (in seconds) and RefreshTokenAsync, with the clock reading in seconds. A result the
      tick does not ask for is ignored. */
  datatype TickInputs = TickInputs(
    scopeFault: Option<Exception>,
    currentToken: Call<Option<OAuthToken>>,
    needsRestart: Call<bool>,
    refreshTokenAge: Call<Option<int>>,
    now: int,
    refreshed: Call<Option<OAuthToken>>)

  /** One tick's effect: the failure counter after it, whether it called RefreshTokenAsync,
      whether it logged a critical alert, and whether an exception escaped it. */
  datatype Outcome = Outcome(failures: nat, refreshAttempted: bool, critical: bool, escaped: bool)

  /** A failure inside the check: the counter goes up by one and alerts at the maximum. */
  function Failure(st: TokenRefreshSettings, f: nat, attempted: bool): Outcome {
    Outcome(f + 1, attempted, f + 1 >= st.maxConsecutiveFailures, false)
  }

  /** Whether the token is close enough to expiry to refresh: the time left is at most
      RefreshBeforeExpiryMinutes. */
  predicate DueForRefresh(st: TokenRefreshSettings, token: OAuthToken, now: int) {
    token.expiresAt - now <= st.refreshBeforeExpiryMinutes * 60
  }

  /** CheckAndRefreshTokens with counter f before the tick. */
  function Check(st: TokenRefreshSettings, f: nat, t: TickInputs): Outcome {
    if t.scopeFault.Some? then Outcome(f, false, false, true)
    else match t.currentToken
      case Threw(_) => Failure(st, f, false)
      case Returned(None) => Outcome(0, false, false, false)
      case Returned(Some(token)) =>
        match t.needsRestart
        case Threw(_) => Failure(st, f, false)
        case Returned(true) =>
          (match t.refreshTokenAge
           case Threw(_) => Failure(st, f, false)
           case Returned(_) => Outcome(0, false, true, false))
        case Returned(false) =>
          if DueForRefresh(st, token, t.now) then
            match t.refreshed
            case Returned(Some(_)) => Outcome(0, true, false, false)
            case Returned(None) => Failure(st, f, true)
            case Threw(_) => Failure(st, f, true)
          else Outcome(0, false, false, false)
  }

  /** The minutes ExecuteAsync sleeps after a tick: the error delay only when an exception
      escaped the tick, the check interval otherwise. */
  function SleepMinutes(st: TokenRefreshSettings, o: Outcome): int {
    if o.escaped then st.errorRetryDelayMinutes else st.checkIntervalMinutes
  }

  /** The counter after a run of ticks, given the counter f before it. */
  function FinalFailures(f: nat, trace: seq<Outcome>): nat {
    if trace == [] then f else trace[|trace| - 1].failures
  }

  /** The outcomes of successive ticks, each starting from the counter the previous left. */
  function Trace(st: TokenRefreshSettings, f: nat, ticks: seq<TickInputs>): (trace: seq<Outcome>)
    ensures |trace| == |ticks|
  {
    if ticks == [] then []
    else
      var before := Trace(st, f, ticks[..|ticks| - 1]);
      before + [Check(st, FinalFailures(f, before), ticks[|ticks| - 1])]
  }

  // ---- One tick ----

  /** With no current token the counter is reset and nothing is refreshed. */
  lemma NoTokenResets(st: TokenRefreshSettings, f: nat, t: TickInputs)
    requires t.scopeFault.None? && t.currentToken == Returned(None)
    ensures Check(st, f, t) == Outcome(0, false, false, false)
  {
  }

  /** A needed restart alerts, resets the counter and does not refresh, however near the
      expiry: it is checked first. */
  lemma RestartAlerts(st: TokenRefreshSettings, f: nat, t: TickInputs)
    requires t.scopeFault.None? && t.currentToken.Returned? && t.currentToken.value.Some?
    requires t.needsRestart == Returned(true) && t.refreshTokenAge.Returned?
    ensures Check(st, f, t) == Outcome(0, false, true, false)
  {
  }

  /** A refresh is attempted exactly when a token exists, no restart is needed, and the
      time left is at most the threshold (the boundary included). */
  lemma RefreshAttemptedIff(st: TokenRefreshSettings, f: nat, t: TickInputs)
    ensures Check(st, f, t).refreshAttempted <==>
      && t.scopeFault.None?
      && t.currentToken.Returned? && t.currentToken.value.Some?
      && t.needsRestart == Returned(false)
      && t.currentToken.value.value.expiresAt - t.now <= st.refreshBeforeExpiryMinutes * 60
  {
  }

  /** A refresh that returns a token resets the counter. */
  lemma RefreshSuccessResets(st: TokenRefreshSettings, f: nat, t: TickInputs)
    requires Check(st, f, t).refreshAttempted
    requires t.refreshed.Returned? && t.refreshed.value.Some?
    ensures Check(st, f, t) == Outcome(0, true, false, false)
  {
  }

  /** A refresh that returns none, or throws, adds exactly one failure, and alerts exactly
      when the new count reaches the maximum. */
  lemma RefreshFailureCounts(st: TokenRefreshSettings, f: nat, t: TickInputs)
    requires Check(st, f, t).refreshAttempted
    requires !(t.refreshed.Returned? && t.refreshed.value.Some?)
    ensures Check(st, f, t).failures == f + 1
    ensures Check(st, f, t).critical <==> f + 1 >= st.maxConsecutiveFailures
  {
  }

  /** A token not near expiry resets the counter without refreshing. */
  lemma HealthyResets(st: TokenRefreshSettings, f: nat, t: TickInputs)
    requires t.scopeFault.None? && t.currentToken.Returned? && t.currentToken.value.Some?
    requires t.needsRestart == Returned(false)
    requires t.currentToken.value.value.expiresAt - t.now > st.refreshBeforeExpiryMinutes * 60
    ensures Check(st, f, t) == Outcome(0, false, false, false)
  {
  }

  /** An exception thrown by a token service query inside the check adds one failure and
      alerts at the maximum; it does not escape the tick. */
  lemma QueryExceptionCounts(st: TokenRefreshSettings, f: nat, t: TickInputs)
    requires t.scopeFault.None?
    requires || t.currentToken.Threw?
             || (t.currentToken.Returned? && t.currentToken.value.Some? && t.needsRestart.Threw?)
             || (t.currentToken.Returned? && t.currentToken.value.Some? && t.needsRestart == Returned(true)
                 && t.refreshTokenAge.Threw?)
    ensures Check(st, f, t) == Outcome(f + 1, false, f + 1 >= st.maxConsecutiveFailures, false)
  {
  }

  /** The counter after a tick is 0, unchanged or one more; only a failure to create the
      scope lets an exception escape, and that tick leaves the counter as it was. */
  lemma CounterSteps(st: TokenRefreshSettings, f: nat, t: TickInputs)
    ensures var o := Check(st, f, t);
      (o.failures == 0 || o.failures == f || o.failures == f + 1)
      && (o.escaped <==> t.scopeFault.Some?)
      && (o.escaped ==> o.failures == f && !o.refreshAttempted && !o.critical)
  {
  }

  /** A counted failure alerts exactly when the count reaches the maximum; a reset alerts only
      for a needed restart. */
  lemma CriticalIff(st: TokenRefreshSettings, f: nat, t: TickInputs)
    ensures var o := Check(st, f, t);
      o.critical <==>
        (o.failures == f + 1 && !o.escaped && f + 1 >= st.maxConsecutiveFailures)
        || (t.scopeFault.None? && t.currentToken.Returned? && t.currentToken.value.Some?
            && t.needsRestart == Returned(true) && t.refreshTokenAge.Returned?)
  {
  }

  // ---- Runs of ticks ----

  /** A tick whose refresh is due and fails. */
  predicate FailingTick(st: TokenRefreshSettings, t: TickInputs) {
    && t.scopeFault.None?
    && t.currentToken.Returned? && t.currentToken.value.Some?
    && t.needsRestart == Returned(false)
    && DueForRefresh(st, t.currentToken.value.value, t.now)
    && t.refreshed == Returned(None)
  }

  /** Over a run of failing refreshes the counter climbs by one per tick, and tick i alerts
      exactly when f + i + 1 reaches the maximum. */
  lemma {:induction false} FailingRun(st: TokenRefreshSettings, f: nat, ticks: seq<TickInputs>)
    requires forall i :: 0 <= i < |ticks| ==> FailingTick(st, ticks[i])
    ensures var trace := Trace(st, f, ticks);
      forall i :: 0 <= i < |ticks| ==>
        trace[i].failures == f + i + 1 && trace[i].refreshAttempted
        && (trace[i].critical <==> f + i + 1 >= st.maxConsecutiveFailures)
  {
    if ticks != [] {
      var n := |ticks| - 1;
      var init := ticks[..n];
      assert forall i :: 0 <= i < |init| ==> init[i] == ticks[i];
      FailingRun(st, f, init);
      var before := Trace(st, f, init);
      assert |init| == n;
      if n > 0 {
        assert 0 <= n - 1 < |init|;
        assert Trace(st, f, init)[n - 1].failures == f + (n - 1) + 1;
      }
      assert FinalFailures(f, before) == f + n;
      assert Check(st, f + n, ticks[n]) == Failure(st, f + n, true);
      var trace := Trace(st, f, ticks);
      assert trace == before + [Check(st, f + n, ticks[n])];
      forall i | 0 <= i < |ticks|
        ensures trace[i].failures == f + i + 1 && trace[i].refreshAttempted
        ensures trace[i].critical <==> f + i + 1 >= st.maxConsecutiveFailures
      {
        if i < n {
          assert trace[i] == before[i];
          assert before[i].failures == f + i + 1 && before[i].refreshAttempted;
          assert before[i].critical <==> f + i + 1 >= st.maxConsecutiveFailures;
        } else {
          assert trace[i] == Failure(st, f + n, true);
        }
      }
    }
  }

  /** With the default settings and a fresh counter, three failing refreshes in a row alert
      first on the third, and a fourth alerts again. */
  lemma AlertOnThirdFailure(ticks: seq<TickInputs>)
    requires |ticks| == 4
    requires forall i :: 0 <= i < 4 ==> FailingTick(DefaultRefreshSettings, ticks[i])
    ensures var trace := Trace(DefaultRefreshSettings, 0, ticks);
      !trace[0].critical && !trace[1].critical && trace[2].critical && trace[3].critical
      && trace[2].failures == 3
  {
    FailingRun(DefaultRefreshSettings, 0, ticks);
  }

  /** The background service: settings and the consecutive-failure counter. */
  class RefreshService {
    const settings: TokenRefreshSettings
    var consecutiveFailures: nat

    constructor (settings: TokenRefreshSettings)
      ensures this.settings == settings && consecutiveFailures == 0
    {
      this.settings := settings;
      consecutiveFailures := 0;
    }

    /** CheckAndRefreshTokens: one tick, updating the counter as Check says. */
    method CheckAndRefreshTokens(t: TickInputs) returns (refreshAttempted: bool, critical: bool, escaped: bool)
      modifies this
      ensures Check(settings, old(consecutiveFailures), t)
              == Outcome(consecutiveFailures, refreshAttempted, critical, escaped)
    {
      refreshAttempted, critical, escaped := false, false, false;
      if t.scopeFault.Some? {
        // CreateScope runs outside the try, so its exception leaves the tick.
        escaped := true;
        return;
      }
      var caught := false;
      if t.currentToken.Threw? {
        caught := true;
      } else if t.currentToken.value.None? {
        consecutiveFailures := 0;
      } else if t.needsRestart.Threw? {
        caught := true;
      } else if t.needsRestart.value {
        if t.refreshTokenAge.Threw? {
          caught := true;
        } else {
          critical := true;
          consecutiveFailures := 0;
        }
      } else if DueForRefresh(settings, t.currentToken.value.value, t.now) {
        refreshAttempted := true;
        if t.refreshed.Threw? {
          caught := true;
        } else if t.refreshed.value.Some? {
          consecutiveFailures := 0;
        } else {
          consecutiveFailures := consecutiveFailures + 1;
          critical := consecutiveFailures >= settings.maxConsecutiveFailures;
        }
      } else {
        consecutiveFailures := 0;
      }
      if caught {
        consecutiveFailures := consecutiveFailures + 1;
        critical := consecutiveFailures >= settings.maxConsecutiveFailures;
      }
    }

    /** ExecuteAsync over the ticks that run before cancellation: each tick's outcome and the
        minutes slept after it. */
    method ExecuteAsync(ticks: seq<TickInputs>) returns (trace: seq<Outcome>, sleeps: seq<int>)
      modifies this
      ensures trace == Trace(settings, old(consecutiveFailures), ticks)
      ensures consecutiveFailures == FinalFailures(old(consecutiveFailures), trace)
      ensures |sleeps| == |ticks|
      ensures forall i :: 0 <= i < |ticks| ==> sleeps[i] == SleepMinutes(settings, trace[i])
    {
      ghost var f0 := consecutiveFailures;
      trace, sleeps := [], [];
      var i := 0;
      while i < |ticks|
        invariant 0 <= i <= |ticks|
        invariant trace == Trace(settings, f0, ticks[..i])
        invariant consecutiveFailures == FinalFailures(f0, trace)
        invariant |sleeps| == i
        invariant forall k :: 0 <= k < i ==> sleeps[k] == SleepMinutes(settings, trace[k])
      {
        var attempted, critical, escaped := CheckAndRefreshTokens(ticks[i]);
        var o := Outcome(consecutiveFailures, attempted, critical, escaped);
        assert ticks[..i + 1][..i] == ticks[..i];
        trace := trace + [o];
        if escaped {
          sleeps := sleeps + [settings.errorRetryDelayMinutes];
        } else {
          sleeps := sleeps + [settings.checkIntervalMinutes];
        }
        i := i + 1;
      }
      assert ticks[..|ticks|] == ticks;
    }
  }
}
