/** NetConfig: the station link-event state machine driven by the Wi-Fi and IP
    events, the wait of connect_station on its two event bits, and the fixed
    access-point configuration of publish_ap. ESP-IDF calls appear only as the
    success flags they return. */
module NetConfig {
  import opened Common

  const AP_SSID: string := "ESP32-AP"

  /** NETCONFIG_RECONNECT_ATTEMPTS: negative means reconnect without limit. */
  const RECONNECT_ATTEMPTS: int := -1

  /** wifi_auth_mode_t ordinal of WIFI_AUTH_OPEN. */
  const WIFI_AUTH_OPEN: uint8 := 0

  /** The static retry_count together with the two bits of the event group. */
  datatype LinkState = LinkState(retries: nat, connected: bool, failed: bool)

  /** The events sta_event_handler distinguishes; `OtherEvent` is any other
      Wi-Fi event delivered through the ESP_EVENT_ANY_ID registration. */
  datatype StaEvent = StaStart | StaDisconnected | GotIp | OtherEvent

  /** The next state, and whether esp_wifi_connect was issued. */
  datatype Transition = Transition(next: LinkState, connect: bool)

  predicate UnderBudget(max: int, retries: nat) {
    max < 0 || retries < max
  }

  /** sta_event_handler. */
  function OnEvent(max: int, s: LinkState, e: StaEvent): (t: Transition)
    ensures e == StaStart ==> t.connect && t.next == s
    ensures e == StaDisconnected && UnderBudget(max, s.retries) ==>
              t.connect && t.next == s.(retries := s.retries + 1)
    ensures e == StaDisconnected && !UnderBudget(max, s.retries) ==>
              !t.connect && t.next == s.(failed := true)
    ensures e == GotIp ==> !t.connect && t.next == s.(retries := 0, connected := true)
    ensures e == OtherEvent ==> !t.connect && t.next == s
    ensures t.next.retries < s.retries ==> e == GotIp
  {
    match e
    case StaStart => Transition(s, true)
    case StaDisconnected =>
      if UnderBudget(max, s.retries) then Transition(s.(retries := s.retries + 1), true)
      else Transition(s.(failed := true), false)
    case GotIp => Transition(s.(retries := 0, connected := true), false)
    case OtherEvent => Transition(s, false)
  }

  /** The state after a sequence of events and the number of connects issued. */
  datatype Trace = Trace(state: LinkState, connects: nat)

  function RunEvents(max: int, s: LinkState, events: seq<StaEvent>): (r: Trace)
    ensures r.connects <= |events|
    decreases |events|
  {
    if |events| == 0 then Trace(s, 0)
    else
      var t := OnEvent(max, s, events[0]);
      var rest := RunEvents(max, t.next, events[1..]);
      Trace(rest.state, rest.connects + (if t.connect then 1 else 0))
  }

  function Repeat(e: StaEvent, n: nat): (r: seq<StaEvent>)
    ensures |r| == n && forall i :: 0 <= i < n ==> r[i] == e
  {
    if n == 0 then [] else [e] + Repeat(e, n - 1)
  }

  lemma {:induction false} RunEventsAppend(max: int, s: LinkState, a: seq<StaEvent>, b: seq<StaEvent>)
    ensures var ra := RunEvents(max, s, a);
      var rb := RunEvents(max, ra.state, b);
      RunEvents(max, s, a + b) == Trace(rb.state, ra.connects + rb.connects)
    decreases |a|
  {
    if |a| > 0 {
      assert (a + b)[0] == a[0];
      assert (a + b)[1..] == a[1..] + b;
      RunEventsAppend(max, OnEvent(max, s, a[0]).next, a[1..], b);
    } else {
      assert a + b == b;
    }
  }

  /** While under budget each disconnect reconnects and adds exactly one to the
      counter, setting neither bit. */
  lemma {:induction false} DisconnectsUnderBudget(max: int, s: LinkState, k: nat)
    requires max < 0 || s.retries + k <= max
    ensures RunEvents(max, s, Repeat(StaDisconnected, k)) == Trace(s.(retries := s.retries + k), k)
    decreases k
  {
    if k > 0 {
      var evs := Repeat(StaDisconnected, k);
      assert evs[1..] == Repeat(StaDisconnected, k - 1);
      DisconnectsUnderBudget(max, s.(retries := s.retries + 1), k - 1);
    }
  }

  /** With a budget of N >= 0 and the counter at 0, N disconnects each reconnect;
      the (N+1)-th sets the fail bit and reconnects no more. */
  lemma RetryBudget(n: nat, s: LinkState)
    requires s.retries == 0
    ensures RunEvents(n, s, Repeat(StaDisconnected, n)) == Trace(s.(retries := n), n)
    ensures RunEvents(n, s, Repeat(StaDisconnected, n + 1)) == Trace(s.(retries := n, failed := true), n)
  {
    DisconnectsUnderBudget(n, s, n);
    var evs := Repeat(StaDisconnected, n + 1);
    assert evs == Repeat(StaDisconnected, n) + [StaDisconnected];
    RunEventsAppend(n, s, Repeat(StaDisconnected, n), [StaDisconnected]);
  }

  /** From a fresh state: the start event and N+1 losses make exactly N+1
      association attempts, after which the fail bit is set. */
  lemma AttemptsBeforeFailure(n: nat)
    ensures RunEvents(n, LinkState(0, false, false), [StaStart] + Repeat(StaDisconnected, n + 1))
         == Trace(LinkState(n, false, true), n + 1)
  {
    var initial := LinkState(0, false, false);
    RetryBudget(n, initial);
    RunEventsAppend(n, initial, [StaStart], Repeat(StaDisconnected, n + 1));
  }

  /** With a negative budget the fail bit is never set, whatever the events. */
  lemma {:induction false} UnlimitedNeverFails(max: int, s: LinkState, events: seq<StaEvent>)
    requires max < 0
    ensures RunEvents(max, s, events).state.failed == s.failed
    decreases |events|
  {
    if |events| > 0 {
      UnlimitedNeverFails(max, OnEvent(max, s, events[0]).next, events[1..]);
    }
  }

  /** The firmware's own budget (NETCONFIG_RECONNECT_ATTEMPTS) never fails. */
  lemma FirmwareNeverFails(s: LinkState, events: seq<StaEvent>)
    ensures RunEvents(RECONNECT_ATTEMPTS, s, events).state.failed == s.failed
  {
    UnlimitedNeverFails(RECONNECT_ATTEMPTS, s, events);
  }

  /** retry_count only goes down through GotIp: without one it never decreases. */
  lemma {:induction false} RetriesNeverDropWithoutGotIp(max: int, s: LinkState, events: seq<StaEvent>)
    requires GotIp !in events
    ensures RunEvents(max, s, events).state.retries >= s.retries
    decreases |events|
  {
    if |events| > 0 {
      assert events[0] != GotIp;
      assert forall i :: 0 <= i < |events| - 1 ==> events[1..][i] == events[i + 1];
      RetriesNeverDropWithoutGotIp(max, OnEvent(max, s, events[0]).next, events[1..]);
    }
  }

  /* ---------- the wait of connect_station ---------- */

  datatype Bits = Bits(connected: bool, failed: bool)

  predicate HasBit(s: LinkState) {
    s.connected || s.failed
  }

  function BitsOf(s: LinkState): Bits {
    Bits(s.connected, s.failed)
  }

  /** No state reached after the first j events, for every j < k, holds a bit. */
  predicate QuietUpTo(max: int, s: LinkState, events: seq<StaEvent>, k: nat) {
    forall j :: 0 <= j < k && j <= |events| ==> !HasBit(RunEvents(max, s, events[..j]).state)
  }

  /** The states after the first j events from `s`, seen from the state after the
      first event. */
  lemma PrefixShift(max: int, s: LinkState, events: seq<StaEvent>)
    requires |events| > 0
    ensures forall j :: 1 <= j <= |events| ==>
      RunEvents(max, s, events[..j]).state == RunEvents(max, OnEvent(max, s, events[0]).next, events[1..][..j - 1]).state
  {
    forall j | 1 <= j <= |events|
      ensures RunEvents(max, s, events[..j]).state == RunEvents(max, OnEvent(max, s, events[0]).next, events[1..][..j - 1]).state
    {
      var p := events[..j];
      assert p[0] == events[0] && p[1..] == events[1..][..j - 1];
    }
  }

  /** Quiet for k + 1 prefixes of the events is: quiet now, and quiet for k prefixes
      of the rest after the first event. */
  lemma QuietShift(max: int, s: LinkState, events: seq<StaEvent>, k: nat)
    requires |events| > 0 && k <= |events|
    ensures QuietUpTo(max, s, events, k + 1) <==>
      !HasBit(s) && QuietUpTo(max, OnEvent(max, s, events[0]).next, events[1..], k)
  {
    var next := OnEvent(max, s, events[0]).next;
    PrefixShift(max, s, events);
    assert events[..0] == [];
    if QuietUpTo(max, s, events, k + 1) {
      forall j | 0 <= j < k && j <= |events[1..]|
        ensures !HasBit(RunEvents(max, next, events[1..][..j]).state)
      {
        assert !HasBit(RunEvents(max, s, events[..j + 1]).state);
      }
    }
    if !HasBit(s) && QuietUpTo(max, next, events[1..], k) {
      forall j | 0 <= j < k + 1 && j <= |events|
        ensures !HasBit(RunEvents(max, s, events[..j]).state)
      {
        if j > 0 {
          assert !HasBit(RunEvents(max, next, events[1..][..j - 1]).state);
        }
      }
    }
  }

  /** The waiter is released by the first state with a bit set (bits already set
      when the wait begins count too); it stays asleep if no event sets one. */
  datatype Wake = Woken(bits: Bits, state: LinkState) | Asleep(state: LinkState)

  function WaitForBits(max: int, s: LinkState, events: seq<StaEvent>): (w: Wake)
    ensures w.Woken? ==> HasBit(w.state) && w.bits == BitsOf(w.state)
    ensures w.Asleep? ==> w.state == RunEvents(max, s, events).state && !HasBit(w.state)
    decreases |events|
  {
    if HasBit(s) then Woken(BitsOf(s), s)
    else if |events| == 0 then Asleep(s)
    else WaitForBits(max, OnEvent(max, s, events[0]).next, events[1..])
  }

  /** The waiter wakes in the state after the shortest prefix of the events whose
      state holds a bit, and sleeps exactly when no prefix's state holds one. */
  lemma {:induction false} WaitFirstBit(max: int, s: LinkState, events: seq<StaEvent>)
    ensures var w := WaitForBits(max, s, events);
      w.Woken? ==> exists k :: 0 <= k <= |events| && QuietUpTo(max, s, events, k) &&
                               w.state == RunEvents(max, s, events[..k]).state
    ensures WaitForBits(max, s, events).Asleep? <==> QuietUpTo(max, s, events, |events| + 1)
    decreases |events|
  {
    var w := WaitForBits(max, s, events);
    assert events[..0] == [];
    if HasBit(s) {
      assert HasBit(RunEvents(max, s, events[..0]).state);
      assert w.state == RunEvents(max, s, events[..0]).state;
    } else if |events| == 0 {
    } else {
      var next := OnEvent(max, s, events[0]).next;
      WaitFirstBit(max, next, events[1..]);
      QuietShift(max, s, events, |events|);
      if w.Woken? {
        var k' :| 0 <= k' <= |events[1..]| && QuietUpTo(max, next, events[1..], k') &&
                  w.state == RunEvents(max, next, events[1..][..k']).state;
        QuietShift(max, s, events, k');
        PrefixShift(max, s, events);
        assert w.state == RunEvents(max, s, events[..k' + 1]).state;
      }
    }
  }

  /** With a negative budget the waiter is only ever released by the connected bit. */
  lemma {:induction false} UnlimitedWakesOnlyConnected(max: int, s: LinkState, events: seq<StaEvent>)
    requires max < 0 && !s.failed
    ensures WaitForBits(max, s, events).Woken? ==> WaitForBits(max, s, events).bits == Bits(true, false)
    decreases |events|
  {
    if !s.connected && |events| > 0 {
      UnlimitedWakesOnlyConnected(max, OnEvent(max, s, events[0]).next, events[1..]);
    }
  }

  datatype LinkStatus = Connected | ConnectFailed | UnexpectedBits

  /** The checks after the wait: the connected bit takes precedence. */
  function Interpret(bits: Bits): (r: LinkStatus)
    ensures r == Connected <==> bits.connected
    ensures r == ConnectFailed <==> !bits.connected && bits.failed
  {
    if bits.connected then Connected
    else if bits.failed then ConnectFailed
    else UnexpectedBits
  }

  /** Success flags of the ESP-IDF calls connect_station makes. */
  datatype StaSetup = StaSetup(
    netifInit: bool, eventLoop: bool, wifiInit: bool, registerHandlers: bool,
    setMode: bool, setConfig: bool, start: bool, unregisterHandlers: bool)

  /** The setup calls up to esp_wifi_set_config succeeded, so the record is applied. */
  predicate ConfigApplied(setup: StaSetup) {
    && setup.netifInit && setup.eventLoop && setup.wifiInit && setup.registerHandlers
    && setup.setMode && setup.setConfig
  }

  predicate SetupOk(setup: StaSetup) {
    ConfigApplied(setup) && setup.start
  }

  /** Either connect_station returned (with the outcome it logged, if it waited),
      or its wait was never released; either way with the station configuration
      applied, if setup got that far. */
  datatype ConnectResult =
    | Returned(ok: bool, status: Option<LinkStatus>, retries: nat, applied: Option<StaConfig>)
    | Blocked(retries: nat, applied: Option<StaConfig>)

  /** NetConfig::connect_station with the process-lifetime retry counter `retries`
      and the events delivered after the interface starts. A new event group
      holds no bits; the counter is not reset. */
  function ConnectStation(max: int, setup: StaSetup, ssid: string, psk: string, security: uint8,
                          retries: nat, events: seq<StaEvent>): (r: ConnectResult)
    ensures r.applied.Some? <==> ConfigApplied(setup)
    ensures r.applied.Some? ==> r.applied.value == StationConfig(ssid, psk, security)
    ensures r.Returned? ==> (r.ok <==> SetupOk(setup) && setup.unregisterHandlers)
    ensures r.Returned? && r.ok ==> r.status.Some? && r.status.value != UnexpectedBits
    ensures r.Returned? && r.status.None? ==> !SetupOk(setup)
    ensures !SetupOk(setup) ==> r.Returned? && !r.ok && r.status.None? && r.retries == retries
    ensures r.Blocked? <==> SetupOk(setup) && QuietUpTo(max, LinkState(retries, false, false), events, |events| + 1)
    ensures r.Returned? && SetupOk(setup) ==>
      exists k :: 0 <= k <= |events| && QuietUpTo(max, LinkState(retries, false, false), events, k) &&
        var st := RunEvents(max, LinkState(retries, false, false), events[..k]).state;
        HasBit(st) && r.status == Some(Interpret(BitsOf(st))) && r.retries == st.retries
    ensures SetupOk(setup) && events == [] ==> r.Blocked? && r.retries == retries
    ensures max < 0 && r.Returned? ==> r.status != Some(ConnectFailed)
  {
    var applied := if ConfigApplied(setup) then Some(StationConfig(ssid, psk, security)) else None;
    if !SetupOk(setup) then Returned(false, None, retries, applied)
    else
      var initial := LinkState(retries, false, false);
      var w := WaitForBits(max, initial, events);
      WaitFirstBit(max, initial, events);
      assert max < 0 && w.Woken? ==> w.bits == Bits(true, false) by {
        if max < 0 { UnlimitedWakesOnlyConnected(max, initial, events); }
      }
      match w
      case Asleep(st) => Blocked(st.retries, applied)
      case Woken(bits, st) => Returned(setup.unregisterHandlers, Some(Interpret(bits)), st.retries, applied)
  }

  /** A setup whose calls all succeed, with `unregister` the result of the final
      handler unregistration. */
  function AllOk(unregister: bool): StaSetup {
    StaSetup(true, true, true, true, true, true, true, unregister)
  }

  /** Disconnects under budget pass without releasing the waiter. */
  lemma {:induction false} WaitDisconnects(max: int, s: LinkState, k: nat, rest: seq<StaEvent>)
    requires !HasBit(s) && (max < 0 || s.retries + k <= max)
    ensures WaitForBits(max, s, Repeat(StaDisconnected, k) + rest) == WaitForBits(max, s.(retries := s.retries + k), rest)
    decreases k
  {
    var evs := Repeat(StaDisconnected, k) + rest;
    if k == 0 {
      assert evs == rest;
    } else {
      assert evs[0] == StaDisconnected;
      assert evs[1..] == Repeat(StaDisconnected, k - 1) + rest;
      WaitDisconnects(max, s.(retries := s.retries + 1), k - 1, rest);
    }
  }

  /** With a budget of N >= 0, the start event and N+1 losses release the waiter
      with the fail bit: connect_station returns the failed outcome after N retries. */
  lemma BudgetExhaustedFails(n: nat, unregister: bool, ssid: string, psk: string, security: uint8)
    ensures ConnectStation(n, AllOk(unregister), ssid, psk, security, 0, [StaStart] + Repeat(StaDisconnected, n + 1))
         == Returned(unregister, Some(ConnectFailed), n, Some(StationConfig(ssid, psk, security)))
  {
    var s0 := LinkState(0, false, false);
    var evs := [StaStart] + Repeat(StaDisconnected, n + 1);
    assert evs[0] == StaStart && evs[1..] == Repeat(StaDisconnected, n + 1);
    assert Repeat(StaDisconnected, n + 1) == Repeat(StaDisconnected, n) + [StaDisconnected];
    WaitDisconnects(n, s0, n, [StaDisconnected]);
    var last := LinkState(n, false, false);
    assert [StaDisconnected][1..] == [];
    assert WaitForBits(n, last, [StaDisconnected]) == Woken(Bits(false, true), LinkState(n, false, true));
  }

  /** When the first event that sets a bit is GotIp, connect_station returns the
      connected outcome with the counter back at 0. */
  lemma GotIpConnects(max: int, setup: StaSetup, ssid: string, psk: string, security: uint8,
                      retries: nat, pre: seq<StaEvent>, rest: seq<StaEvent>)
    requires SetupOk(setup) && QuietUpTo(max, LinkState(retries, false, false), pre, |pre| + 1)
    ensures ConnectStation(max, setup, ssid, psk, security, retries, pre + [GotIp] + rest)
         == Returned(setup.unregisterHandlers, Some(Connected), 0, Some(StationConfig(ssid, psk, security)))
  {
    var s0 := LinkState(retries, false, false);
    var evs := pre + [GotIp] + rest;
    var st := RunEvents(max, s0, pre).state;
    assert pre[..|pre|] == pre;
    assert !HasBit(st) by { assert !HasBit(RunEvents(max, s0, pre[..|pre|]).state); }
    forall j | 0 <= j <= |pre| ensures evs[..j] == pre[..j] { }
    assert evs[..|pre| + 1] == pre + [GotIp];
    RunEventsAppend(max, s0, pre, [GotIp]);
    var connected := st.(retries := 0, connected := true);
    assert RunEvents(max, s0, evs[..|pre| + 1]).state == connected;
    assert !QuietUpTo(max, s0, evs, |evs| + 1) by {
      assert HasBit(RunEvents(max, s0, evs[..|pre| + 1]).state);
    }
    var w := WaitForBits(max, s0, evs);
    WaitFirstBit(max, s0, evs);
    var k :| 0 <= k <= |evs| && QuietUpTo(max, s0, evs, k) && w.state == RunEvents(max, s0, evs[..k]).state;
    assert k == |pre| + 1;
    assert w.state == connected;
  }

  /** The station configuration record built before the mode is set: strncpy
      into 32- and 64-byte fields. */
  datatype StaConfig = StaConfig(ssid: string, password: string, authThreshold: uint8, pmfCapable: bool, pmfRequired: bool)

  /** strncpy into an n-byte field: the first n characters, or all of a shorter text. */
  function Truncate(s: string, n: nat): (r: string)
    ensures r <= s && |r| <= n
    ensures |s| <= n ==> r == s
    ensures |s| > n ==> r == s[..n]
  {
    if |s| <= n then s else s[..n]
  }

  function StationConfig(ssid: string, psk: string, security: uint8): (c: StaConfig)
    ensures |c.ssid| <= 32 && c.ssid <= CStr(ssid) && (|CStr(ssid)| <= 32 ==> c.ssid == CStr(ssid))
    ensures |CStr(ssid)| > 32 ==> c.ssid == CStr(ssid)[..32]
    ensures |c.password| <= 64 && c.password <= CStr(psk) && (|CStr(psk)| <= 64 ==> c.password == CStr(psk))
    ensures |CStr(psk)| > 64 ==> c.password == CStr(psk)[..64]
    ensures c.authThreshold == security && c.pmfCapable && !c.pmfRequired
  {
    StaConfig(Truncate(CStr(ssid), 32), Truncate(CStr(psk), 64), security, true, false)
  }

  /* ---------- publish_ap ---------- */

  datatype ApSetup = ApSetup(
    netifInit: bool, eventLoop: bool, wifiInit: bool, registerHandler: bool,
    setMode: bool, setConfig: bool, start: bool)

  datatype ApConfig = ApConfig(
    ssid: string, ssidLen: nat, authMode: uint8, channel: nat, hidden: bool,
    maxConnection: nat, beaconInterval: nat)

  /** Whether publish_ap succeeded, and the configuration applied if it got that far. */
  datatype ApResult = ApResult(ok: bool, applied: Option<ApConfig>)

  /** NetConfig::publish_ap: a failed handler registration is only a warning. */
  function PublishAp(setup: ApSetup): (r: ApResult)
    ensures r.ok <==> setup.netifInit && setup.eventLoop && setup.wifiInit && setup.setMode && setup.setConfig && setup.start
    ensures r.applied.Some? <==> setup.netifInit && setup.eventLoop && setup.wifiInit && setup.setMode && setup.setConfig
    ensures r.applied.Some? ==>
      var c := r.applied.value;
      c.ssid == "ESP32-AP" && c.ssidLen == 8 && c.authMode == WIFI_AUTH_OPEN && c.channel == 1 &&
      !c.hidden && c.maxConnection == 4 && c.beaconInterval == 100
  {
    var cfg := ApConfig(AP_SSID, |AP_SSID|, WIFI_AUTH_OPEN, 1, false, 4, 100);
    if !(setup.netifInit && setup.eventLoop && setup.wifiInit && setup.setMode) then ApResult(false, None)
    else if !setup.setConfig then ApResult(false, None)
    else ApResult(setup.start, Some(cfg))
  }
}
