/**
 * The connectivity monitor of `connection_status`
 * (actors/lib/instance_setup.rb): the `@offline_timer` field and the
 * request forwarder's offline mode. The 30-second grace timer is an
 * explicit expiry event.
 */
module Connectivity {

  /** The statuses the broker reports. */
  datatype Status = Connected | Deconnected

  /**
   * The `@offline_timer` field: nil, holding a pending timer, or still holding
   * a timer that has already fired (the field is not cleared when it fires).
   */
  datatype Timer = NoTimer | Armed | Fired

  /** The timer field together with the forwarder's offline mode. */
  datatype Monitor = Monitor(timer: Timer, offline: bool)

  /** What can happen to the monitor: a status notice, or the grace period running out. */
  datatype Event = Notice(status: Status) | GraceExpired

  /**
   * `connection_status`: a `:deconnected` notice starts a timer only when the
   * field holds none (`||=`); any other status cancels and clears the timer
   * and disables offline mode.
   */
  function OnStatus(m: Monitor, status: Status): Monitor
  {
    if status == Deconnected then
      if m.timer == NoTimer then m.(timer := Armed) else m
    else Monitor(NoTimer, false)
  }

  /** The timer's block: enables offline mode; the field keeps the fired timer. */
  function OnExpiry(m: Monitor): Monitor
  {
    if m.timer == Armed then Monitor(Fired, true) else m
  }

  function Step(m: Monitor, e: Event): Monitor
  {
    match e
    case Notice(s) => OnStatus(m, s)
    case GraceExpired => OnExpiry(m)
  }

  /** The monitor after a sequence of events. */
  function Run(m: Monitor, events: seq<Event>): Monitor
    decreases |events|
  {
    if events == [] then m else Run(Step(m, events[0]), events[1..])
  }

  /**
   * A `:deconnected` notice never replaces a held timer, so repeating it
   * changes nothing; with no timer held it arms one and leaves offline mode alone.
   */
  lemma DeconnectedSpec(m: Monitor)
    ensures m.timer != NoTimer ==> OnStatus(m, Deconnected) == m
    ensures m.timer == NoTimer ==> OnStatus(m, Deconnected) == Monitor(Armed, m.offline)
    ensures OnStatus(OnStatus(m, Deconnected), Deconnected) == OnStatus(m, Deconnected)
  {
  }

  /** Any other status leaves no timer and offline mode off, whatever came before. */
  lemma ConnectedSpec(m: Monitor)
    ensures OnStatus(m, Connected) == Monitor(NoTimer, false)
  {
  }

  /** Without the grace period running out, offline mode is never switched on. */
  lemma {:induction false} NoExpiryNoOffline(m: Monitor, events: seq<Event>)
    requires !m.offline
    requires forall k :: 0 <= k < |events| ==> events[k] != GraceExpired
    ensures !Run(m, events).offline
    decreases |events|
  {
    if events != [] {
      NoExpiryNoOffline(Step(m, events[0]), events[1..]);
    }
  }

  /**
   * Once the timer has fired, further `:deconnected` notices and expiries
   * leave the monitor as it is: no second timer until another status arrives.
   */
  lemma {:induction false} FiredIsHeld(events: seq<Event>)
    requires forall k :: 0 <= k < |events| ==> events[k] != Notice(Connected)
    ensures Run(Monitor(Fired, true), events) == Monitor(Fired, true)
    decreases |events|
  {
    if events != [] {
      assert Step(Monitor(Fired, true), events[0]) == Monitor(Fired, true);
      FiredIsHeld(events[1..]);
    }
  }

  /**
   * A disconnection followed by a reconnection before expiry leaves offline
   * mode off; one left alone until expiry turns it on.
   */
  lemma GraceScenarios()
    ensures Run(Monitor(NoTimer, false), [Notice(Deconnected), Notice(Connected)]) == Monitor(NoTimer, false)
    ensures Run(Monitor(NoTimer, false), [Notice(Deconnected), GraceExpired]) == Monitor(Fired, true)
  {
    assert [Notice(Deconnected), Notice(Connected)][1..] == [Notice(Connected)];
    assert [Notice(Deconnected), GraceExpired][1..] == [GraceExpired];
  }
}
