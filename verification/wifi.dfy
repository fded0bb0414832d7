/**
 The Wi-Fi station connect/retry state machine: the link-event handler, which
 issues connect requests and keeps a bounded retry counter, and the outcome
 test that `wifi_init_sta` makes once the CONNECTED or FAIL bit has been set.
 */
module Wifi {
  import opened Options

  /** `MAX_RETRY` (src/main.c:18): how many reconnects a run of disconnects may issue. */
  const MaxRetry: nat := 5

  /** The link events that reach the handler. It is registered for every
      Wi-Fi event, so events other than START and DISCONNECTED arrive too. */
  datatype Event = StaStart | StaDisconnected | GotIp | OtherWifiEvent

  /** The retry counter and the two event-group bits the handler sets. */
  datatype WifiState = WifiState(retry: nat, connectedBit: bool, failBit: bool)

  /** The state after one event, and whether the handler called connect. */
  datatype Step = Step(next: WifiState, connect: bool)

  /** The state at boot: counter zero, fresh event group with no bits. */
  const Init := WifiState(0, false, false)

  /** The counter never exceeds its bound. */
  predicate Valid(s: WifiState)
  {
    s.retry <= MaxRetry
  }

  /** Event-group bits are only ever set, never cleared. */
  predicate BitsGrow(s: WifiState, t: WifiState)
  {
    (s.connectedBit ==> t.connectedBit) && (s.failBit ==> t.failBit)
  }

  /** The event handler. */
  function Handle(s: WifiState, e: Event): (r: Step)
    ensures r.connect <==> e == StaStart || (e == StaDisconnected && s.retry < MaxRetry)
    ensures r.connect && e == StaDisconnected ==> r.next.retry == s.retry + 1
    ensures e != StaDisconnected && e != GotIp ==> r.next == s
    ensures e == StaDisconnected && s.retry >= MaxRetry ==>
              r.next.retry == s.retry && r.next.failBit && !r.connect
    ensures e == GotIp ==> r.next.retry == 0 && r.next.connectedBit && !r.connect
    ensures r.next.connectedBit != s.connectedBit ==> e == GotIp
    ensures r.next.failBit != s.failBit ==> e == StaDisconnected && s.retry >= MaxRetry
    ensures BitsGrow(s, r.next)
    ensures Valid(s) ==> Valid(r.next)
  {
    match e
    case StaStart => Step(s, true)
    case StaDisconnected =>
      if s.retry < MaxRetry then Step(s.(retry := s.retry + 1), true)
      else Step(s.(failBit := true), false)
    case GotIp => Step(s.(retry := 0, connectedBit := true), false)
    case OtherWifiEvent => Step(s, false)
  }

  /** The state after a sequence of events, and how many connects were issued. */
  datatype RunResult = RunResult(final: WifiState, connects: nat)

  /**
   The events delivered to the handler in order. `connects` counts the events
   whose handling called connect: every STA_START does, and no more than one
   call per event is made.
   */
  function Run(s: WifiState, evs: seq<Event>): (r: RunResult)
    ensures multiset(evs)[StaStart] <= r.connects <= |evs|
    ensures |evs| == 0 ==> r == RunResult(s, 0)
    decreases |evs|
  {
    if |evs| == 0 then RunResult(s, 0)
    else
      assert evs == [evs[0]] + evs[1..];
      assert multiset(evs) == multiset([evs[0]]) + multiset(evs[1..]);
      var st := Handle(s, evs[0]);
      var rest := Run(st.next, evs[1..]);
      RunResult(rest.final, rest.connects + (if st.connect then 1 else 0))
  }

  /** `n` disconnect events in a row. */
  function Disconnects(n: nat): (evs: seq<Event>)
    ensures |evs| == n
    ensures forall i :: 0 <= i < n ==> evs[i] == StaDisconnected
  {
    seq(n, _ => StaDisconnected)
  }

  function Min(a: int, b: int): int
  {
    if a <= b then a else b
  }

  /** The counter stays within its bound over any sequence of events, and
      the bits, once set, stay set. */
  lemma {:induction false} RunKeepsInvariant(s: WifiState, evs: seq<Event>)
    requires Valid(s)
    ensures Valid(Run(s, evs).final)
    ensures BitsGrow(s, Run(s, evs).final)
    decreases |evs|
  {
    if |evs| > 0 {
      RunKeepsInvariant(Handle(s, evs[0]).next, evs[1..]);
    }
  }

  /** Event-group bits, once set, stay set over any sequence of events. */
  lemma {:induction false} RunBitsGrow(s: WifiState, evs: seq<Event>)
    ensures BitsGrow(s, Run(s, evs).final)
    decreases |evs|
  {
    if |evs| > 0 {
      RunBitsGrow(Handle(s, evs[0]).next, evs[1..]);
    }
  }

  /**
   A run of `n` disconnects with no GOT_IP in between: the first
   `MaxRetry - retry` of them each issue one reconnect and raise the counter;
   every later one issues nothing, sets FAIL and leaves the counter at the bound.
   */
  lemma {:induction false} DisconnectStorm(s: WifiState, n: nat)
    requires Valid(s)
    ensures Run(s, Disconnects(n)).connects == Min(n, MaxRetry - s.retry)
    ensures Run(s, Disconnects(n)).final.retry == Min(s.retry + n, MaxRetry)
    ensures Run(s, Disconnects(n)).final.failBit <==> s.failBit || s.retry + n > MaxRetry
    ensures Run(s, Disconnects(n)).final.connectedBit == s.connectedBit
    decreases n
  {
    if n > 0 {
      var evs := Disconnects(n);
      assert evs[0] == StaDisconnected;
      assert evs[1..] == Disconnects(n - 1);
      DisconnectStorm(Handle(s, StaDisconnected).next, n - 1);
    }
  }

  /** From boot: five disconnects issue five reconnects without failing; the
      sixth and every later one issue no connect and set FAIL. */
  lemma RetryScenario(n: nat)
    ensures n <= MaxRetry ==>
              Run(Init, Disconnects(n)) == RunResult(WifiState(n, false, false), n)
    ensures n > MaxRetry ==>
              Run(Init, Disconnects(n)) == RunResult(WifiState(MaxRetry, false, true), MaxRetry)
  {
    DisconnectStorm(Init, n);
  }

  /** No event of the sequence resets the counter. */
  predicate NoGotIp(evs: seq<Event>)
  {
    forall i :: 0 <= i < |evs| ==> evs[i] != GotIp
  }

  /**
   Reconnect budget: while no address is acquired, the handler issues at most
   `MaxRetry - retry` connects beyond one per START event.
   */
  lemma {:induction false} ConnectBudget(s: WifiState, evs: seq<Event>)
    requires Valid(s)
    requires NoGotIp(evs)
    ensures Run(s, evs).connects <= MaxRetry - s.retry + multiset(evs)[StaStart]
    ensures Run(s, evs).final.retry >= s.retry
    decreases |evs|
  {
    if |evs| > 0 {
      assert evs == [evs[0]] + evs[1..];
      assert multiset(evs) == multiset([evs[0]]) + multiset(evs[1..]);
      var t := Handle(s, evs[0]).next;
      assert NoGotIp(evs[1..]) by {
        forall i | 0 <= i < |evs[1..]| ensures evs[1..][i] != GotIp {
          assert evs[1..][i] == evs[i + 1];
        }
      }
      ConnectBudget(t, evs[1..]);
    }
  }

  /** GOT_IP resets the counter, so a full fresh budget of retries follows it. */
  lemma GotIpRestoresBudget(s: WifiState)
    ensures Run(s, [GotIp] + Disconnects(MaxRetry)).connects == MaxRetry
    ensures Run(s, [GotIp] + Disconnects(MaxRetry)).final.retry == MaxRetry
  {
    var t := Handle(s, GotIp).next;
    var evs := [GotIp] + Disconnects(MaxRetry);
    assert evs[1..] == Disconnects(MaxRetry);
    DisconnectStorm(t, MaxRetry);
  }

  /** What `wifi_init_sta` reports once its wait returns. */
  datatype LinkOutcome = Connected | Failed | Unexpected

  /** The outcome test on the returned bits: CONNECTED is tested first. */
  function Outcome(s: WifiState): (o: LinkOutcome)
    ensures o == Connected <==> s.connectedBit
    ensures o == Failed <==> s.failBit && !s.connectedBit
    ensures o == Unexpected <==> !s.connectedBit && !s.failBit
  {
    if s.connectedBit then Connected
    else if s.failBit then Failed
    else Unexpected
  }

  /** The wait returns as soon as either bit is set. */
  predicate Resolved(s: WifiState)
  {
    s.connectedBit || s.failBit
  }

  /**
   The state the wait observes when it returns: events are handled one by one
   until a bit is set. None when the events run out first (the wait has no
   timeout and blocks forever).
   */
  function WaitBits(s: WifiState, evs: seq<Event>): (r: Option<WifiState>)
    ensures r.Some? ==> Resolved(r.value)
    ensures r.None? <==> !Resolved(Run(s, evs).final)
    decreases |evs|
  {
    if Resolved(s) then
      RunBitsGrow(s, evs);
      Some(s)
    else if |evs| == 0 then None
    else WaitBits(Handle(s, evs[0]).next, evs[1..])
  }

  /**
   The state the wait returns is the state after the shortest prefix of the
   events that sets a bit: if `k` events set one and no shorter prefix does,
   the wait returns the state after exactly those `k` events.
   */
  lemma {:induction false} WaitBitsFirstResolvedPrefix(s: WifiState, evs: seq<Event>, k: nat)
    requires k <= |evs|
    requires Resolved(Run(s, evs[..k]).final)
    requires forall j :: 0 <= j < k ==> !Resolved(Run(s, evs[..j]).final)
    ensures WaitBits(s, evs) == Some(Run(s, evs[..k]).final)
    decreases k
  {
    assert evs[..0] == [];
    if k > 0 {
      assert !Resolved(Run(s, evs[..0]).final);
      var t := Handle(s, evs[0]).next;
      var rest := evs[1..];
      forall j | 0 <= j <= k - 1
        ensures Run(s, evs[..j + 1]).final == Run(t, rest[..j]).final
      {
        assert evs[..j + 1][0] == evs[0];
        assert evs[..j + 1][1..] == rest[..j];
      }
      forall j | 0 <= j < k - 1
        ensures !Resolved(Run(t, rest[..j]).final)
      {
        assert !Resolved(Run(s, evs[..j + 1]).final);
      }
      WaitBitsFirstResolvedPrefix(t, rest, k - 1);
    }
  }

  /** The result of `wifi_init_sta` for the link events that occur during its wait. */
  function InitSta(evs: seq<Event>): (r: Option<LinkOutcome>)
    ensures r != Some(Unexpected)
  {
    match WaitBits(Init, evs)
    case Some(t) => Some(Outcome(t))
    case None => None
  }

  /**
   The wait reports failure only after at least `MaxRetry + 1 - retry`
   disconnects: the counter must climb to the bound and one more disconnect
   must find it there.
   */
  lemma {:induction false} FailNeedsDisconnects(s: WifiState, evs: seq<Event>)
    requires Valid(s) && !Resolved(s)
    requires WaitBits(s, evs).Some? && Outcome(WaitBits(s, evs).value) == Failed
    ensures multiset(evs)[StaDisconnected] >= MaxRetry + 1 - s.retry
    decreases |evs|
  {
    assert evs == [evs[0]] + evs[1..];
    assert multiset(evs) == multiset([evs[0]]) + multiset(evs[1..]);
    var t := Handle(s, evs[0]).next;
    if !Resolved(t) {
      FailNeedsDisconnects(t, evs[1..]);
    }
  }

  /**
   The wait under a run of disconnects: it returns exactly when the counter,
   already at its bound, meets one more disconnect, and then sees FAIL alone.
   */
  lemma {:induction false} WaitUnderDisconnects(s: WifiState, n: nat)
    requires Valid(s) && !Resolved(s)
    ensures s.retry + n > MaxRetry ==>
              WaitBits(s, Disconnects(n)) == Some(WifiState(MaxRetry, false, true))
    ensures s.retry + n <= MaxRetry ==> WaitBits(s, Disconnects(n)) == None
    decreases n
  {
    if n > 0 {
      var evs := Disconnects(n);
      assert evs[0] == StaDisconnected;
      assert evs[1..] == Disconnects(n - 1);
      var t := Handle(s, StaDisconnected).next;
      if !Resolved(t) {
        WaitUnderDisconnects(t, n - 1);
      }
    }
  }

  /** Boot scenarios: START then GOT_IP connects; START then six disconnects
      fails; START then five disconnects leaves the wait blocked. */
  lemma InitStaScenarios()
    ensures InitSta([StaStart, GotIp]) == Some(Connected)
    ensures InitSta([StaStart] + Disconnects(MaxRetry + 1)) == Some(Failed)
    ensures InitSta([StaStart] + Disconnects(MaxRetry)) == None
  {
    var d6 := [StaStart] + Disconnects(MaxRetry + 1);
    assert d6[1..] == Disconnects(MaxRetry + 1);
    WaitUnderDisconnects(Init, MaxRetry + 1);
    var d5 := [StaStart] + Disconnects(MaxRetry);
    assert d5[1..] == Disconnects(MaxRetry);
    WaitUnderDisconnects(Init, MaxRetry);
  }
}
