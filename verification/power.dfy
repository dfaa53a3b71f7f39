/**
 * The power sheriff of the Muntjac board (power-sheriff.c): drivers that need
 * the high-power mode ask for it and later release it; a counter of the
 * requests not yet released decides when the low-power mode may be granted
 * again. Each call ends by asking the low-power manager for a maximum power
 * mode (`lpm_set_max_pm`), or, on a release, possibly asking nothing.
 */
module PowerSheriff {

  /** The maximum power modes the sheriff asks for: POWER_SHERIFF_HIGH_POWER (LPM_PM0) and POWER_SHERIFF_LOW_POWER. */
  datatype Mode = High | Low

  /** The two entry points: power_sheriff_high_power and power_sheriff_low_power. */
  datatype Call = HighPower | LowPower

  /** high_power_requests after the calls, starting from 0. It is not clamped. */
  function Count(calls: seq<Call>): int
  {
    if calls == [] then 0
    else
      var c := Count(calls[..|calls| - 1]);
      if calls[|calls| - 1] == HighPower then c + 1 else c - 1
  }

  /** The modes asked of the low-power manager by the calls, in order. */
  function Requests(calls: seq<Call>): seq<Mode>
  {
    if calls == [] then []
    else
      var init := calls[..|calls| - 1];
      if calls[|calls| - 1] == HighPower then Requests(init) + [High]
      else if Count(calls) <= 0 then Requests(init) + [Low]
      else Requests(init)
  }

  /** Every prefix of the calls releases no more requests than it made. */
  predicate Balanced(calls: seq<Call>)
  {
    forall k :: 0 <= k <= |calls| ==> Count(calls[..k]) >= 0
  }

  /** The mode the low-power manager was last asked for, when it was asked anything. */
  predicate LastIsHigh(calls: seq<Call>)
  {
    Requests(calls) != [] && Requests(calls)[|Requests(calls)| - 1] == High
  }

  /**
   * Starting from no requests, as long as no release comes without a
   * request before it, the last mode asked for is the high-power mode
   * exactly when some request is still unreleased.
   */
  lemma {:induction false} LastRequestTracksCount(calls: seq<Call>)
    requires Balanced(calls)
    ensures LastIsHigh(calls) <==> Count(calls) > 0
    decreases |calls|
  {
    if calls != [] {
      var init := calls[..|calls| - 1];
      assert Balanced(init) by {
        forall k | 0 <= k <= |init|
          ensures Count(init[..k]) >= 0
        {
          assert init[..k] == calls[..k];
        }
      }
      assert calls[..|calls|] == calls;
      LastRequestTracksCount(init);
    }
  }

  /** One call appended: the count moves by one and at most one mode is asked for. */
  lemma CallStep(calls: seq<Call>, c: Call)
    ensures Count(calls + [c]) == Count(calls) + (if c == HighPower then 1 else -1)
    ensures c == HighPower ==> Requests(calls + [c]) == Requests(calls) + [High]
    ensures c == LowPower && Count(calls) <= 1 ==> Requests(calls + [c]) == Requests(calls) + [Low]
    ensures c == LowPower && Count(calls) > 1 ==> Requests(calls + [c]) == Requests(calls)
  {
    assert (calls + [c])[..|calls|] == calls;
  }

  /**
   * The counter is not clamped: a release with no request before it drives
   * it below zero, and a request after that leaves it at zero although the
   * high-power mode was the last one asked for.
   */
  lemma UnmatchedRelease()
    ensures Count([LowPower]) == -1 && Requests([LowPower]) == [Low]
    ensures Count([LowPower, HighPower]) == 0 && LastIsHigh([LowPower, HighPower])
  {
    assert [LowPower, HighPower][..1] == [LowPower];
  }

  /** The sheriff's static state, with the calls made so far and the modes asked of the low-power manager. */
  class Sheriff {
    /** high_power_requests; a volatile int, held here unbounded. */
    var requests: int
    /** The arguments of every lpm_set_max_pm call, in order. */
    var asked: seq<Mode>
    /** The calls made since start-up. */
    ghost var calls: seq<Call>

    ghost predicate Valid()
      reads this
    {
      requests == Count(calls) && asked == Requests(calls)
    }

    /** The counter starts at 0 (line 6). */
    constructor ()
      ensures Valid() && calls == [] && requests == 0 && asked == []
    {
      requests := 0;
      asked := [];
      calls := [];
    }

    /** power_sheriff_high_power (lines 16-20): one more request, and the high-power mode is asked for. */
    method HighPower()
      requires Valid()
      modifies this
      ensures Valid() && calls == old(calls) + [Call.HighPower]
      ensures requests == old(requests) + 1 && asked == old(asked) + [High]
    {
      CallStep(calls, Call.HighPower);
      requests := requests + 1;
      asked := asked + [High];
      calls := calls + [Call.HighPower];
    }

    /** power_sheriff_low_power (lines 8-14): one request released; low power is asked for once none is left. */
    method LowPower()
      requires Valid()
      modifies this
      ensures Valid() && calls == old(calls) + [Call.LowPower]
      ensures requests == old(requests) - 1
      ensures asked == old(asked) + if requests <= 0 then [Low] else []
    {
      CallStep(calls, Call.LowPower);
      requests := requests - 1;
      if requests <= 0 {
        asked := asked + [Low];
      }
      calls := calls + [Call.LowPower];
    }
  }
}
