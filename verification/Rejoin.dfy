/** The rejoin machine of main.c on values: the network signals, the one reconnect alarm
    and the decision to erase or to reconnect, over whole runs in time. */
module Rejoin {
  import opened CTypes

  const RECONNECT_MS: nat := 220000

  /** The usb_dc_status_code for a configured device. */
  const USB_DC_CONFIGURED: uint16 := 3

  datatype Signal = DeviceReboot | Steering | Leave | Other

  /** saveFlag is zigbee_conf_state_save; usb is the last USB status code; alarms are the
      deadlines of pending Recon_timer_cb alarms. */
  datatype Node = Node(saveFlag: bool, connected: bool, usb: uint16, alarms: seq<nat>)

  datatype Event =
    | Sig(signal: Signal, ok: bool)
    | UsbStatus(code: uint16)
    | ResetLocal
    | Restart
    | Expire(joined: bool)

  /** The calls into the stack and the system that an event leads to. */
  datatype Call = UserInputIndicate | ResetViaLocalAction | NvramErase | ColdReboot

  type Calls = seq<Call>

  const NOTHING: Calls := []
  const CONNECT: Calls := [UserInputIndicate]
  const RESET: Calls := [ResetViaLocalAction, UserInputIndicate]
  const ERASE: Calls := [NvramErase, ColdReboot]

  const POWER_UP: Node := Node(false, false, 0, [])

  /** zi_reboot: all alarms are cancelled and one is set. */
  function Rearm(n: Node, now: nat): Node {
    n.(alarms := [now + RECONNECT_MS])
  }

  /** zigbee_status_update: DeviceReboot falls through to Steering. */
  function OnSignal(n: Node, signal: Signal, ok: bool, now: nat): Node {
    match signal
    case DeviceReboot => Rearm(n.(saveFlag := true, connected := ok), now)
    case Steering => Rearm(n.(connected := ok), now)
    case Leave => Rearm(n, now).(saveFlag := true, connected := false)
    case Other => n
  }

  /** Recon_timer_cb's decision. */
  function Decide(n: Node, joined: bool): Calls {
    if joined then NOTHING
    else if n.saveFlag && n.usb != USB_DC_CONFIGURED then ERASE
    else CONNECT
  }

  /** An alarm goes off only when it is due. */
  predicate Possible(n: Node, e: Event, now: nat) {
    e.Expire? ==> n.alarms != [] && n.alarms[0] <= now
  }

  function Do(n: Node, e: Event): Calls {
    match e
    case Expire(joined) => Decide(n, joined)
    case ResetLocal => RESET
    case _ => NOTHING
  }

  function Next(n: Node, e: Event, now: nat): Node
    requires Possible(n, e, now)
  {
    match e
    case Sig(signal, ok) => OnSignal(n, signal, ok, now)
    case UsbStatus(code) => n.(usb := code)
    case ResetLocal => n.(saveFlag := false)
    case Restart => POWER_UP
    case Expire(joined) =>
      if ColdReboot in Decide(n, joined) then POWER_UP else n.(alarms := n.alarms[1..])
  }

  // Whole runs.

  datatype Option<T> = None | Some(value: T)

  /** Events with the times they happen at. */
  type Run = seq<(nat, Event)>

  /** The state after a run from power-up, if every event was possible when it came. */
  function After(run: Run): Option<Node> {
    if run == [] then Some(POWER_UP)
    else
      var last := |run| - 1;
      match After(run[..last])
      case None => None
      case Some(n) =>
        if Possible(n, run[last].1, run[last].0) then Some(Next(n, run[last].1, run[last].0)) else None
  }

  /** Whether event k of a run reboots the device: a restart or a timer-driven erase. */
  predicate Reboots(run: Run, k: nat)
    requires k < |run|
  {
    var before := After(run[..k]);
    run[k].1.Restart? || (before.Some? && ColdReboot in Do(before.value, run[k].1))
  }

  /** Event j sets something that no event after it clears and no reboot resets. */
  ghost predicate SetAt(run: Run, sets: Event -> bool, clears: Event -> bool, j: nat) {
    && j < |run| && sets(run[j].1)
    && forall k | j < k < |run| :: !clears(run[k].1) && !Reboots(run, k)
  }

  ghost predicate SetSince(run: Run, sets: Event -> bool, clears: Event -> bool) {
    exists j: nat :: SetAt(run, sets, clears, j)
  }

  lemma {:induction false} SetAtExtends(run: Run, sets: Event -> bool, clears: Event -> bool, j: nat)
    requires run != [] && j < |run| - 1
    ensures var last := |run| - 1;
      SetAt(run, sets, clears, j)
      <==> SetAt(run[..last], sets, clears, j) && !clears(run[last].1) && !Reboots(run, last)
  {
    var last := |run| - 1;
    forall k | j < k < last
      ensures run[..last][..k] == run[..k] && (Reboots(run[..last], k) <==> Reboots(run, k))
    {
      assert run[..last][..k] == run[..k];
    }
  }

  /** One event more. */
  lemma {:induction false} SetSinceStep(run: Run, sets: Event -> bool, clears: Event -> bool)
    requires run != []
    ensures var last := |run| - 1;
      SetSince(run, sets, clears)
      <==> sets(run[last].1)
           || (SetSince(run[..last], sets, clears) && !clears(run[last].1) && !Reboots(run, last))
  {
    var last := |run| - 1;
    if sets(run[last].1) {
      assert SetAt(run, sets, clears, last);
    } else if SetSince(run, sets, clears) {
      var j: nat :| SetAt(run, sets, clears, j);
      SetAtExtends(run, sets, clears, j);
    } else if SetSince(run[..last], sets, clears) {
      var j: nat :| SetAt(run[..last], sets, clears, j);
      SetAtExtends(run, sets, clears, j);
    }
  }

  // What the events say.

  predicate Rearms(e: Event) {
    e.Sig? && e.signal != Other
  }

  predicate SetsFlag(e: Event) {
    e.Sig? && (e.signal == DeviceReboot || e.signal == Leave)
  }

  predicate ResetsFlag(e: Event) {
    e.ResetLocal?
  }

  /** A signal that reports success: a leave never does. */
  predicate Succeeds(e: Event) {
    Rearms(e) && e.signal != Leave && e.ok
  }

  predicate Expires(e: Event) {
    e.Expire?
  }

  predicate ReportsUsb(e: Event) {
    e.UsbStatus?
  }

  function Reports(code: uint16): Event -> bool {
    (e: Event) => e == UsbStatus(code)
  }

  function CountRearms(run: Run): nat {
    if run == [] then 0
    else CountRearms(run[..|run| - 1]) + if Rearms(run[|run| - 1].1) then 1 else 0
  }

  function CountExpiries(run: Run): nat {
    if run == [] then 0
    else CountExpiries(run[..|run| - 1]) + if run[|run| - 1].1.Expire? then 1 else 0
  }

  /** The places of a run where such an event is. */
  ghost function Places(run: Run, p: Event -> bool): set<nat> {
    set j: nat | j < |run| && p(run[j].1)
  }

  /** The two counts are numbers of places. */
  lemma {:induction false} CountsAreCardinalities(run: Run)
    ensures CountRearms(run) == |Places(run, Rearms)|
    ensures CountExpiries(run) == |Places(run, Expires)|
    decreases |run|
  {
    if run == [] {
    } else {
      var n := |run| - 1;
      CountsAreCardinalities(run[..n]);
      LastPlace(run, Rearms);
      LastPlace(run, Expires);
    }
  }

  lemma LastPlace(run: Run, p: Event -> bool)
    requires run != []
    ensures var n := |run| - 1;
      |Places(run, p)| == |Places(run[..n], p)| + if p(run[n].1) then 1 else 0
  {
    var n := |run| - 1;
    assert Places(run, p) == Places(run[..n], p) + if p(run[n].1) then {n} else {};
  }

  /** The deadline is 220000 ms after the latest signal, and that came since power-up. */
  ghost predicate DueAfterLatest(run: Run, deadline: nat) {
    exists j: nat :: SetAt(run, Rearms, Rearms, j) && deadline == run[j].0 + RECONNECT_MS
  }

  lemma {:induction false} DeadlineStep(run: Run, deadline: nat)
    requires run != [] && After(run).Some? && After(run).value.alarms == [deadline]
    requires !Rearms(run[|run| - 1].1) ==> DueAfterLatest(run[..|run| - 1], deadline)
    ensures DueAfterLatest(run, deadline)
  {
    var last := |run| - 1;
    if Rearms(run[last].1) {
      assert SetAt(run, Rearms, Rearms, last);
    } else {
      var j: nat :| SetAt(run[..last], Rearms, Rearms, j) && deadline == run[..last][j].0 + RECONNECT_MS;
      SetAtExtends(run, Rearms, Rearms, j);
    }
  }

  lemma {:induction false} AlarmCount(run: Run)
    requires After(run).Some?
    ensures |After(run).value.alarms| <= 1
    ensures CountExpiries(run) + |After(run).value.alarms| <= CountRearms(run)
    decreases |run|
  {
    if run == [] {
    } else {
      AlarmCount(run[..|run| - 1]);
    }
  }

  lemma {:induction false} AlarmDeadline(run: Run)
    requires After(run).Some? && After(run).value.alarms != []
    ensures DueAfterLatest(run, After(run).value.alarms[0])
    decreases |run|
  {
    if run == [] {
    } else {
      var before := run[..|run| - 1];
      AlarmCount(before);
      AlarmCount(run);
      if !Rearms(run[|run| - 1].1) {
        AlarmDeadline(before);
      }
      DeadlineStep(run, After(run).value.alarms[0]);
    }
  }

  /** At every time at most one alarm is pending; its deadline is always 220000 ms after
      the latest signal; and no signal leads to more than one expiry. */
  lemma {:induction false} OneAlarm(run: Run)
    requires After(run).Some?
    ensures var n := After(run).value;
      && |n.alarms| <= 1
      && (n.alarms != [] ==> DueAfterLatest(run, n.alarms[0]))
      && CountExpiries(run) + |n.alarms| <= CountRearms(run)
  {
    AlarmCount(run);
    if After(run).value.alarms != [] {
      AlarmDeadline(run);
    }
  }

  /** An alarm is pending exactly when a steering, reboot or leave signal has come with
      neither an expiry nor a reboot of the device after it. */
  lemma {:induction false} AlarmPending(run: Run)
    requires After(run).Some?
    ensures After(run).value.alarms != [] <==> SetSince(run, Rearms, Expires)
    decreases |run|
  {
    if run == [] {
    } else {
      AlarmPending(run[..|run| - 1]);
      AlarmCount(run[..|run| - 1]);
      SetSinceStep(run, Rearms, Expires);
    }
  }

  /** The saved flag is set exactly when some reboot or leave signal has neither a local
      reset nor a reboot of the device after it. */
  lemma {:induction false} FlagMeaning(run: Run)
    requires After(run).Some?
    ensures After(run).value.saveFlag <==> SetSince(run, SetsFlag, ResetsFlag)
    decreases |run|
  {
    if run == [] {
    } else {
      FlagMeaning(run[..|run| - 1]);
      SetSinceStep(run, SetsFlag, ResetsFlag);
    }
  }

  /** The connect-status register shows success exactly when the latest signal since
      power-up reported it. */
  lemma {:induction false} StatusMeaning(run: Run)
    requires After(run).Some?
    ensures After(run).value.connected <==> SetSince(run, Succeeds, Rearms)
    decreases |run|
  {
    if run == [] {
    } else {
      StatusMeaning(run[..|run| - 1]);
      SetSinceStep(run, Succeeds, Rearms);
    }
  }

  /** The USB state is a status code exactly when the latest callback since power-up
      reported it (or, for code 0, when there was none). */
  lemma {:induction false} UsbMeaning(run: Run, code: uint16)
    requires After(run).Some? && code != 0
    ensures After(run).value.usb == code <==> SetSince(run, Reports(code), ReportsUsb)
    decreases |run|
  {
    if run == [] {
    } else {
      UsbMeaning(run[..|run| - 1], code);
      SetSinceStep(run, Reports(code), ReportsUsb);
    }
  }

  /** The decision at every expiry, in terms of the run alone: the network data are erased
      exactly when the node has not joined, the latest USB status is not "configured", and
      a reboot or leave signal has come since power-up and since the latest local reset;
      otherwise a node that has not joined reconnects. */
  lemma {:induction false} EraseExactly(run: Run, joined: bool)
    requires After(run).Some?
    ensures var configured := SetSince(run, Reports(USB_DC_CONFIGURED), ReportsUsb);
      var calls := Do(After(run).value, Expire(joined));
      && (calls == ERASE <==> !joined && !configured && SetSince(run, SetsFlag, ResetsFlag))
      && (calls == CONNECT <==> !joined && (configured || !SetSince(run, SetsFlag, ResetsFlag)))
      && (calls == NOTHING <==> joined)
  {
    FlagMeaning(run);
    UsbMeaning(run, USB_DC_CONFIGURED);
  }

  /** Erasing is safe over whole runs: besides, the latest steering, reboot or leave signal
      is 220000 ms old, and so is every one before it if time never runs backwards. */
  lemma {:induction false} EraseSafe(run: Run, joined: bool, now: nat)
    requires After(run).Some? && Possible(After(run).value, Expire(joined), now)
    requires Do(After(run).value, Expire(joined)) == ERASE
    ensures !joined && !SetSince(run, Reports(USB_DC_CONFIGURED), ReportsUsb)
    ensures SetSince(run, SetsFlag, ResetsFlag)
    ensures exists j: nat :: SetAt(run, Rearms, Rearms, j) && run[j].0 + RECONNECT_MS <= now
    ensures (forall j, k | 0 <= j < k < |run| :: run[j].0 <= run[k].0) ==>
              forall j | 0 <= j < |run| && Rearms(run[j].1) :: run[j].0 + RECONNECT_MS <= now
  {
    OneAlarm(run);
    EraseExactly(run, joined);
    var latest: nat :| SetAt(run, Rearms, Rearms, latest) && run[latest].0 + RECONNECT_MS <= now;
    assert forall j | latest < j < |run| :: !Rearms(run[j].1);
  }

  /** A steering, reboot or leave signal at any time leaves exactly one alarm, 220000 ms
      later, whatever came before. */
  lemma {:induction false} SignalSetsAlarm(run: Run, signal: Signal, ok: bool, now: nat)
    requires After(run).Some? && signal != Other
    ensures var longer := run + [(now, Sig(signal, ok))];
      After(longer).Some? && After(longer).value.alarms == [now + 220000]
  {
    var longer := run + [(now, Sig(signal, ok))];
    assert longer[..|longer| - 1] == run;
  }

  /** What that alarm does when it goes off before the node has joined: after a reboot or
      leave signal from power-up it erases the network data and reboots, in that order, and
      the device is as at power-up; after steering, or with USB configured, it indicates the
      button and no alarm is left. */
  lemma {:induction false} ExpiryHappens(signal: Signal, ok: bool, code: uint16, now: nat)
    requires signal != Other
    ensures var run := [(now, UsbStatus(code)), (now, Sig(signal, ok))];
      var all := run + [(now + 220000, Expire(false))];
      && After(run).Some? && After(all).Some?
      && if signal != Steering && code != 3
         then Do(After(run).value, Expire(false)) == [NvramErase, ColdReboot] && After(all).value == POWER_UP
         else Do(After(run).value, Expire(false)) == [UserInputIndicate] && After(all).value.alarms == []
  {
    var usb := [(now, UsbStatus(code))];
    var run := [(now, UsbStatus(code)), (now, Sig(signal, ok))];
    var all := run + [(now + 220000, Expire(false))];
    assert usb[..0] == [] && After(usb[..0]) == Some(POWER_UP);
    assert run[..1] == usb;
    assert all[..2] == run;
  }

  /** Nothing is called after a reboot, and no reboot comes without an erase before it. */
  lemma {:induction false} RebootIsLast(n: Node, e: Event, k: nat)
    requires k < |Do(n, e)| && Do(n, e)[k] == ColdReboot
    ensures k == |Do(n, e)| - 1 && NvramErase in Do(n, e)[..k]
  {
    assert Do(n, e) == [NvramErase, ColdReboot];
    assert Do(n, e)[..1] == [NvramErase];
  }

  /** A local reset calls the reset of the stack, then indicates the button, always. */
  lemma ResetCalls(n: Node)
    ensures Do(n, ResetLocal) == [ResetViaLocalAction, UserInputIndicate]
  {
  }

  /** The handlers of main.c in place over their variables. */
  class Handlers {
    var zigbeeConfStateSave: bool
    var connectStatus: bool
    var usbState: uint16
    var alarms: seq<nat>

    constructor ()
      ensures State() == POWER_UP
    {
      zigbeeConfStateSave, connectStatus, usbState, alarms := false, false, 0, [];
    }

    function State(): Node
      reads this
    {
      Node(zigbeeConfStateSave, connectStatus, usbState, alarms)
    }

    /** zi_reboot */
    method ZiReboot(now: nat)
      modifies this`alarms
      ensures State() == Rearm(old(State()), now)
    {
      alarms := [];
      alarms := alarms + [now + RECONNECT_MS];
    }

    /** zigbee_status_update */
    method StatusUpdate(sig: Signal, ok: bool, now: nat)
      modifies this
      ensures State() == Next(old(State()), Sig(sig, ok), now)
    {
      match sig
      case DeviceReboot =>
        zigbeeConfStateSave := true;
        connectStatus := ok;
        ZiReboot(now);
      case Steering =>
        connectStatus := ok;
        ZiReboot(now);
      case Leave =>
        zigbeeConfStateSave := true;
        ZiReboot(now);
        connectStatus := false;
      case Other =>
    }

    /** func_erase: the reboot puts the variables back to their power-up values. */
    method FuncErase() returns (calls: Calls)
      modifies this
      ensures calls == ERASE && State() == POWER_UP
    {
      calls := [NvramErase];
      calls := calls + [ColdReboot];
      zigbeeConfStateSave, connectStatus, usbState, alarms := false, false, 0, [];
    }

    /** Recon_timer_cb */
    method ReconTimerCb(joined: bool, now: nat) returns (calls: Calls)
      requires Possible(State(), Expire(joined), now)
      modifies this
      ensures calls == Do(old(State()), Expire(joined))
      ensures State() == Next(old(State()), Expire(joined), now)
    {
      alarms := alarms[1..];
      calls := [];
      if !joined {
        if zigbeeConfStateSave && usbState != USB_DC_CONFIGURED {
          calls := FuncErase();
        } else {
          calls := [UserInputIndicate];
        }
      }
    }

    /** func_reset_local */
    method FuncResetLocal(now: nat) returns (calls: Calls)
      modifies this
      ensures calls == Do(old(State()), ResetLocal) && State() == Next(old(State()), ResetLocal, now)
    {
      zigbeeConfStateSave := false;
      calls := [ResetViaLocalAction];
      calls := calls + [UserInputIndicate];
    }

    /** usb_cb */
    method UsbCb(cbStatus: uint16, now: nat)
      modifies this
      ensures State() == Next(old(State()), UsbStatus(cbStatus), now)
    {
      usbState := cbStatus;
    }
  }
}
