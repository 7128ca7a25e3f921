/**
 * The alert cooldown of `WebAppInterface.postMessage`: one `lastNotifyTime` field for
 * the whole activity; an alert becomes a notification only when more than 60000 ms
 * have passed since the last delivered one, and only a delivery moves the field.
 */
module Cooldown {

  /** `NOTIFY_COOLDOWN_MS`. */
  const NotifyCooldownMs: int := 60000

  /** The notification shown to the user. */
  datatype Notification = Notification(title: string, text: string)

  /** The strict test `currentTime - lastNotifyTime > NOTIFY_COOLDOWN_MS`. */
  predicate CooledDown(lastNotifyTime: int, now: int) {
    now - lastNotifyTime > NotifyCooldownMs
  }

  /** Holds `lastNotifyTime`; `System.currentTimeMillis()` is passed in as `now`. */
  class CooldownGate {
    var lastNotifyTime: int

    constructor ()
      ensures lastNotifyTime == 0
    {
      lastNotifyTime := 0;
    }

    /** Decides one alert; a delivered alert restarts the cooldown at `now`. */
    method Admit(now: int) returns (delivered: bool)
      modifies this
      ensures delivered == CooledDown(old(lastNotifyTime), now)
      ensures lastNotifyTime == if delivered then now else old(lastNotifyTime)
    {
      delivered := now - lastNotifyTime > NotifyCooldownMs;
      if delivered {
        lastNotifyTime := now;
      }
    }

    /**
     * Alerts arriving at `times`, in order, each decided by `Admit`: the decisions are
     * `Decisions` from the starting `lastNotifyTime`, so the spacing lemmas below hold
     * of what the gate delivers.
     */
    method AdmitAll(times: seq<int>) returns (ds: seq<bool>)
      modifies this
      ensures ds == Decisions(old(lastNotifyTime), times)
    {
      ds := [];
      var i := 0;
      while i < |times|
        invariant 0 <= i <= |times|
        invariant ds + Decisions(lastNotifyTime, times[i..]) == Decisions(old(lastNotifyTime), times)
      {
        DecisionsStep(lastNotifyTime, times, i);
        var delivered := Admit(times[i]);
        ds := ds + [delivered];
        i := i + 1;
      }
      assert times[i..] == [];
    }
  }

  /** Deciding the alert at `i` first, then the ones after it. */
  lemma DecisionsStep(lastNotifyTime: int, times: seq<int>, i: nat)
    requires i < |times|
    ensures var delivered := CooledDown(lastNotifyTime, times[i]);
            Decisions(lastNotifyTime, times[i..])
            == [delivered] + Decisions(if delivered then times[i] else lastNotifyTime, times[i + 1..])
  {
    assert times[i..][1..] == times[i + 1..];
  }

  /** The decisions for alerts arriving at `times`, in order, from `lastNotifyTime`. */
  function Decisions(lastNotifyTime: int, times: seq<int>): seq<bool>
    decreases |times|
  {
    if times == [] then []
    else
      var delivered := CooledDown(lastNotifyTime, times[0]);
      [delivered] + Decisions(if delivered then times[0] else lastNotifyTime, times[1..])
  }

  lemma {:induction false} DecisionsLength(lastNotifyTime: int, times: seq<int>)
    ensures |Decisions(lastNotifyTime, times)| == |times|
    decreases |times|
  {
    if times != [] {
      var l := if CooledDown(lastNotifyTime, times[0]) then times[0] else lastNotifyTime;
      DecisionsLength(l, times[1..]);
    }
  }

  /** Every delivered alert comes more than the cooldown after the starting `lastNotifyTime`. */
  lemma {:induction false} DeliveredAfterStart(lastNotifyTime: int, times: seq<int>)
    ensures |Decisions(lastNotifyTime, times)| == |times|
    ensures forall j :: 0 <= j < |times| && Decisions(lastNotifyTime, times)[j] ==>
              times[j] - lastNotifyTime > NotifyCooldownMs
    decreases |times|
  {
    DecisionsLength(lastNotifyTime, times);
    if times != [] {
      var delivered := CooledDown(lastNotifyTime, times[0]);
      var l := if delivered then times[0] else lastNotifyTime;
      var ds := Decisions(lastNotifyTime, times);
      DeliveredAfterStart(l, times[1..]);
      forall j | 1 <= j < |times| && ds[j] ensures times[j] - lastNotifyTime > NotifyCooldownMs {
        assert ds[j] == Decisions(l, times[1..])[j - 1];
        assert times[j] == times[1..][j - 1];
      }
    }
  }

  /**
   * Any two delivered alerts are more than the cooldown apart, whatever the order in
   * which the alerts arrive.
   */
  lemma {:induction false} DeliveriesAreSpaced(lastNotifyTime: int, times: seq<int>)
    ensures |Decisions(lastNotifyTime, times)| == |times|
    ensures forall i, j :: 0 <= i < j < |times| && Decisions(lastNotifyTime, times)[i] && Decisions(lastNotifyTime, times)[j] ==>
              times[j] - times[i] > NotifyCooldownMs
    decreases |times|
  {
    DecisionsLength(lastNotifyTime, times);
    if times != [] {
      var delivered := CooledDown(lastNotifyTime, times[0]);
      var l := if delivered then times[0] else lastNotifyTime;
      var ds := Decisions(lastNotifyTime, times);
      var rest := Decisions(l, times[1..]);
      DeliveriesAreSpaced(l, times[1..]);
      DeliveredAfterStart(l, times[1..]);
      forall i, j | 0 <= i < j < |times| && ds[i] && ds[j]
        ensures times[j] - times[i] > NotifyCooldownMs
      {
        assert ds[j] == rest[j - 1] && times[j] == times[1..][j - 1];
        if i > 0 {
          assert ds[i] == rest[i - 1] && times[i] == times[1..][i - 1];
        }
      }
    }
  }

  /**
   * Alerts that all arrive within one cooldown period of each other produce at most
   * one notification.
   */
  lemma AtMostOneWithinCooldown(lastNotifyTime: int, times: seq<int>, start: int)
    requires forall i :: 0 <= i < |times| ==> start <= times[i] <= start + NotifyCooldownMs
    ensures |Decisions(lastNotifyTime, times)| == |times|
    ensures forall i, j :: 0 <= i < j < |times| && Decisions(lastNotifyTime, times)[i] ==>
              !Decisions(lastNotifyTime, times)[j]
  {
    DeliveriesAreSpaced(lastNotifyTime, times);
  }
}
