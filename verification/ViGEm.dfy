/** The ViGEm client library: virtual gamepads plugged into the numbered slots of a bus.

    The driver's answers are parameters: the serials it refuses, how the wait request ends
    and whether an unplug request succeeds.  The driver itself is trusted for one thing:
    it never accepts a serial that this handle already holds. */
module ViGEm {

  const TARGETS_MAX: nat := 65535

  datatype Error =
    | NoError
    | BusNotFound
    | NoFreeSlot
    | InvalidTarget
    | RemovalFailed
    | AlreadyConnected
    | TargetUninitialized
    | TargetNotPluggedIn
    | BusVersionMismatch
    | BusAccessFailed
    | BusAlreadyConnected
    | BusInvalidHandle

  datatype State = New | Initialized | Connected | Disconnected

  datatype Kind = Xbox360Wired | DualShock4Wired

  /** The fields of a target object. */
  datatype Fields = Fields(
    serialNo: nat,
    state: State,
    kind: Kind,
    vendorId: nat,
    productId: nat,
    waitReadyUnsupported: bool)

  function Allocated(kind: Kind): Fields {
    match kind
    case Xbox360Wired => Fields(0, Initialized, kind, 0x045E, 0x028E, false)
    case DualShock4Wired => Fields(0, Initialized, kind, 0x054C, 0x05C4, false)
  }

  /** How the request that waits for the device ends. */
  datatype Wait = Ready | InvalidParameter | Failed

  /** The driver's answers to one call of `add`. */
  datatype Answers = Answers(refused: set<nat>, wait: Wait, unplugged: bool)

  // ---------------------------------------------------------------- one call, on values

  /** The slots plugged through one bus handle, each with the target that owns it. */
  type Slots<T> = map<nat, T>

  predicate Accepts<T(==)>(slots: Slots<T>, refused: set<nat>, serial: nat) {
    serial !in slots && serial !in refused
  }

  ghost predicate SomeAccepted<T>(slots: Slots<T>, refused: set<nat>) {
    exists s :: 1 <= s <= TARGETS_MAX && Accepts(slots, refused, s)
  }

  /** The first serial from `from` on that the driver accepts, or one past the last. */
  function FirstAccepted<T(==)>(slots: Slots<T>, refused: set<nat>, from: nat): (s: nat)
    requires from <= TARGETS_MAX + 1
    ensures from <= s <= TARGETS_MAX + 1
    ensures s <= TARGETS_MAX ==> Accepts(slots, refused, s)
    ensures forall k :: from <= k < s ==> !Accepts(slots, refused, k)
    decreases TARGETS_MAX + 1 - from
  {
    if from > TARGETS_MAX || Accepts(slots, refused, from) then from
    else FirstAccepted(slots, refused, from + 1)
  }

  datatype Outcome<T> = Outcome(error: Error, slots: Slots<T>, target: Fields)

  function AddSpec<T(==)>(open: bool, slots: Slots<T>, target: Fields, me: T, answers: Answers): Outcome<T> {
    if !open then Outcome(BusNotFound, slots, target)
    else if target.state == New then Outcome(TargetUninitialized, slots, target)
    else if target.state == Connected then Outcome(AlreadyConnected, slots, target)
    else
      var s := FirstAccepted(slots, answers.refused, 1);
      var tried := target.(serialNo := s);
      if s > TARGETS_MAX then Outcome(NoFreeSlot, slots, tried)
      else
        var plugged := slots[s := me];
        match answers.wait
        case Ready => Outcome(NoError, plugged, tried.(state := Connected))
        case InvalidParameter =>
          Outcome(NoError, plugged, tried.(state := Connected, waitReadyUnsupported := true))
        case Failed => RemoveSpec(open, plugged, tried, answers.unplugged)
  }

  function RemoveSpec<T(==)>(open: bool, slots: Slots<T>, target: Fields, unplugged: bool): Outcome<T> {
    if !open then Outcome(BusNotFound, slots, target)
    else if target.state == New then Outcome(TargetUninitialized, slots, target)
    else if target.state != Connected then Outcome(TargetNotPluggedIn, slots, target)
    else if unplugged then Outcome(NoError, slots - {target.serialNo}, target.(state := Disconnected))
    else Outcome(RemovalFailed, slots, target)
  }

  /** The device a report for `target` lands on, if any. */
  function Reached<T(==)>(open: bool, slots: Slots<T>, target: Fields): set<T> {
    if open && target.serialNo != 0 && target.serialNo in slots then {slots[target.serialNo]} else {}
  }

  function UpdateError(open: bool, target: Fields, denied: bool): Error {
    if !open then BusNotFound
    else if target.serialNo == 0 || denied then InvalidTarget
    else NoError
  }

  /** What came of one bus device found while connecting. */
  datatype Probe = DetailFailed | OpenFailed | VersionMismatch | Compatible

  /** `handles` counts the handles opened so far; `listed` says that the list of devices has
      not been destroyed. */
  datatype Link = Link(error: Error, open: bool, handles: nat, listed: bool)

  /** One device: a handle that is still open is overwritten by the next attempt, and a
      failed detail query destroys the list that is being enumerated. */
  function Tried(link: Link, probe: Probe): Link {
    match probe
    case DetailFailed => link.(error := BusNotFound, listed := false)
    case OpenFailed => link.(error := BusAccessFailed, open := false)
    case VersionMismatch => link.(error := BusVersionMismatch, open := true, handles := link.handles + 1)
    case Compatible => link.(error := NoError, open := true, handles := link.handles + 1)
  }

  /** The state after the first `n` devices; the enumeration stops at a compatible one, and
      finds nothing in a list that has been destroyed. */
  function Scanned(probes: seq<Probe>, n: nat): Link
    requires n <= |probes|
  {
    if n == 0 then Link(BusNotFound, false, 0, true)
    else
      var before := Scanned(probes, n - 1);
      if before.error == NoError || !before.listed then before else Tried(before, probes[n - 1])
  }

  // ---------------------------------------------------------------- the library

  /** Windows event handles, the open handles to bus drivers, the log of freed targets, and
      how often a device list was used after it had been destroyed. */
  class Os {
    var events: set<nat>
    var next: nat
    var busHandles: set<BusHandle>
    var freedTargets: seq<Target>
    var listMisuses: nat

    ghost predicate Valid()
      reads this
    {
      forall e :: e in events ==> e < next
    }

    constructor ()
      ensures Valid() && events == {} && busHandles == {} && freedTargets == [] && listMisuses == 0
    {
      events, next, busHandles, freedTargets, listMisuses := {}, 0, {}, [], 0;
    }

    /** `None` when the system has no event to give. */
    method CreateEvent() returns (h: EventHandle)
      requires Valid()
      modifies this`events, this`next
      ensures Valid()
      ensures h.None? ==> events == old(events)
      ensures h.Event? ==> h.id !in old(events) && events == old(events) + {h.id}
    {
      var available: bool := *;
      h := None;
      if available {
        h := Event(next);
        events := events + {next};
        next := next + 1;
      }
    }

    method CloseEvent(h: EventHandle)
      requires Valid()
      modifies this`events
      ensures Valid() && events == if h.Event? then old(events) - {h.id} else old(events)
    {
      if h.Event? {
        events := events - {h.id};
      }
    }

    method OpenBus() returns (h: BusHandle)
      modifies this`busHandles
      ensures fresh(h) && h.slots == map[]
      ensures h !in old(busHandles) && busHandles == old(busHandles) + {h}
    {
      h := new BusHandle();
      busHandles := busHandles + {h};
    }

    /** A destroyed list has no more devices to give. */
    method Enumerate(list: DeviceList, memberIndex: nat) returns (found: bool)
      modifies this`listMisuses
      ensures found <==> list.live && memberIndex < |list.devices|
      ensures listMisuses == old(listMisuses) + (if list.live then 0 else 1)
    {
      if !list.live {
        listMisuses := listMisuses + 1;
      }
      found := list.live && memberIndex < |list.devices|;
    }

    method DestroyList(list: DeviceList)
      modifies list, this`listMisuses
      ensures !list.live && list.devices == old(list.devices)
      ensures listMisuses == old(listMisuses) + (if old(list.live) then 0 else 1)
    {
      if !list.live {
        listMisuses := listMisuses + 1;
      }
      list.live := false;
    }
  }

  /** The bus devices present when connecting started. */
  class DeviceList {
    var devices: seq<Probe>
    var live: bool

    constructor (devices: seq<Probe>)
      ensures this.devices == devices && live
    {
      this.devices, live := devices, true;
    }
  }

  datatype EventHandle = None | Event(id: nat)

  class Target {
    var serialNo: nat
    var state: State
    var kind: Kind
    var vendorId: nat
    var productId: nat
    var waitReadyUnsupported: bool

    function View(): Fields
      reads this
    {
      Fields(serialNo, state, kind, vendorId, productId, waitReadyUnsupported)
    }

    constructor (kind: Kind)
      ensures View() == Allocated(kind)
      ensures serialNo == 0 && state == Initialized && this.kind == kind && !waitReadyUnsupported
      ensures kind == Xbox360Wired ==> vendorId == 0x045E && productId == 0x028E
      ensures kind == DualShock4Wired ==> vendorId == 0x054C && productId == 0x05C4
    {
      serialNo, state, this.kind, waitReadyUnsupported := 0, Initialized, kind, false;
      vendorId := if kind == Xbox360Wired then 0x045E else 0x054C;
      productId := if kind == Xbox360Wired then 0x028E else 0x05C4;
    }
  }

  /** One open handle to the bus driver, with the devices plugged through it. */
  class BusHandle {
    var slots: Slots<Target>

    constructor ()
      ensures slots == map[]
    {
      slots := map[];
    }

    method PlugIn(serial: nat, target: Target, refused: set<nat>) returns (ok: bool)
      modifies this
      ensures ok == Accepts(old(slots), refused, serial)
      ensures slots == if ok then old(slots)[serial := target] else old(slots)
    {
      ok := serial !in slots && serial !in refused;
      if ok {
        slots := slots[serial := target];
      }
    }
  }

  class Client {
    var hBusDevice: BusHandle?

    constructor ()
      ensures hBusDevice == null
    {
      hBusDevice := null;
    }
  }

  function Open(vigem: Client): bool
    reads vigem
  {
    vigem.hBusDevice != null
  }

  function SlotsOf(vigem: Client): Slots<Target>
    reads vigem, vigem.hBusDevice
  {
    if vigem.hBusDevice == null then map[] else vigem.hBusDevice.slots
  }

  /** Every handle this call opened stays open; those that are not the client's when it
      returns are lost. */
  method Connect(vigem: Client?, probes: seq<Probe>, os: Os) returns (error: Error)
    requires os.Valid()
    modifies vigem, os
    ensures os.Valid() && os.events == old(os.events) && os.freedTargets == old(os.freedTargets)
    ensures vigem == null ==> error == BusInvalidHandle
    ensures vigem != null && old(Open(vigem)) ==>
              error == BusAlreadyConnected && vigem.hBusDevice == old(vigem.hBusDevice)
    ensures vigem == null || old(Open(vigem)) ==>
              os.busHandles == old(os.busHandles) && os.listMisuses == old(os.listMisuses)
    ensures vigem != null && !old(Open(vigem)) ==>
              var link := Scanned(probes, |probes|);
              error == link.error && Open(vigem) == link.open && SlotsOf(vigem) == map[] &&
              os.listMisuses == old(os.listMisuses) + (if link.listed then 0 else 2)
    ensures vigem != null && !old(Open(vigem)) ==>
              old(os.busHandles) <= os.busHandles &&
              |os.busHandles - old(os.busHandles)| == Scanned(probes, |probes|).handles &&
              |os.busHandles - old(os.busHandles) - {vigem.hBusDevice}| == LostHandles(probes) &&
              (Open(vigem) ==> vigem.hBusDevice in os.busHandles - old(os.busHandles))
  {
    if vigem == null {
      return BusInvalidHandle;
    }
    error := BusNotFound;
    if vigem.hBusDevice != null {
      return BusAlreadyConnected;
    }
    hide Scanned, Gained, LostHandles;
    var list := new DeviceList(probes);
    ghost var mine;
    error, mine := OpenFirstCompatible(vigem, list, os);
    os.DestroyList(list);
    HandlesCounted(old(os.busHandles), os.busHandles, mine, vigem.hBusDevice);
  }

  /** The client after `n` devices, with `mine` the handles opened for them. */
  ghost predicate Scanning(vigem: Client, list: DeviceList, n: nat, error: Error, mine: set<BusHandle>)
    reads vigem, vigem.hBusDevice, list
  {
    n <= |list.devices| &&
    Link(error, Open(vigem), |mine|, list.live) == Scanned(list.devices, n) &&
    (vigem.hBusDevice != null ==> vigem.hBusDevice.slots == map[] && vigem.hBusDevice in mine)
  }

  /** The enumeration loop of `vigem_connect`; `mine` is the set of handles it opened. */
  method OpenFirstCompatible(vigem: Client, list: DeviceList, os: Os)
    returns (error: Error, ghost mine: set<BusHandle>)
    requires os.Valid() && list.live && !Open(vigem)
    modifies vigem, list, os
    ensures os.Valid() && os.events == old(os.events) && os.freedTargets == old(os.freedTargets)
    ensures list.devices == old(list.devices) && Scanning(vigem, list, |list.devices|, error, mine)
    ensures os.listMisuses == old(os.listMisuses) + (if list.live then 0 else 1)
    ensures Gained(old(os.busHandles), os.busHandles, mine)
  {
    error, mine := BusNotFound, {};
    GainedNothing(os.busHandles);
    var memberIndex := 0;
    var found := os.Enumerate(list, memberIndex);
    hide Scanned, Gained;
    while found
      invariant list.devices == old(list.devices) && Scanning(vigem, list, memberIndex, error, mine)
      invariant error != NoError && (found <==> memberIndex < |list.devices| && list.live)
      invariant os.Valid() && os.events == old(os.events) && os.freedTargets == old(os.freedTargets)
      invariant os.listMisuses == old(os.listMisuses) + (if list.live then 0 else 1)
      invariant Gained(old(os.busHandles), os.busHandles, mine)
      decreases |list.devices| - memberIndex
    {
      error, mine := TryDevice(vigem, list, memberIndex, error, os, mine, old(os.busHandles));
      memberIndex := memberIndex + 1;
      if error == NoError {
        break;
      }
      found := os.Enumerate(list, memberIndex);
    }
    ScanStops(list.devices, memberIndex, |list.devices|);
  }

  /** One round of the loop. */
  method TryDevice(vigem: Client, list: DeviceList, n: nat, error: Error, os: Os,
                   ghost mine: set<BusHandle>, ghost before: set<BusHandle>)
    returns (error': Error, ghost mine': set<BusHandle>)
    requires os.Valid() && list.live && n < |list.devices| && error != NoError
    requires Scanning(vigem, list, n, error, mine) && Gained(before, os.busHandles, mine)
    modifies vigem, list, os
    ensures os.Valid() && os.events == old(os.events) && os.freedTargets == old(os.freedTargets)
    ensures os.listMisuses == old(os.listMisuses) && list.devices == old(list.devices)
    ensures Scanning(vigem, list, n + 1, error', mine') && Gained(before, os.busHandles, mine')
    ensures error' == NoError ==> list.live
  {
    var probe := list.devices[n];
    ScannedStep(list.devices, n);
    mine' := mine;
    hide Scanned, Gained;
    if probe == DetailFailed {
      os.DestroyList(list);
      return BusNotFound, mine';
    }
    error', mine' := OpenDevice(vigem, probe, os, mine, before);
  }

  method OpenDevice(vigem: Client, probe: Probe, os: Os, ghost mine: set<BusHandle>, ghost before: set<BusHandle>)
    returns (error: Error, ghost mine': set<BusHandle>)
    requires os.Valid() && probe != DetailFailed && Gained(before, os.busHandles, mine)
    modifies vigem, os`events, os`next, os`busHandles
    ensures os.Valid() && os.events == old(os.events) && Gained(before, os.busHandles, mine')
    ensures Link(error, Open(vigem), |mine'|, true) == Tried(Link(error, old(Open(vigem)), |mine|, true), probe)
    ensures vigem.hBusDevice != null ==> vigem.hBusDevice.slots == map[] && vigem.hBusDevice in mine'
  {
    hide Gained;
    if probe == OpenFailed {
      vigem.hBusDevice := null;
      return BusAccessFailed, mine;
    }
    ghost var handles := os.busHandles;
    var bus := os.OpenBus();
    GainedOne(before, handles, mine, bus);
    vigem.hBusDevice := bus;
    mine' := mine + {bus};
    error := CheckVersion(probe, os);
  }

  method CheckVersion(probe: Probe, os: Os) returns (error: Error)
    requires os.Valid()
    modifies os`events, os`next
    ensures os.Valid() && os.events == old(os.events)
    ensures error == if probe == Compatible then NoError else BusVersionMismatch
  {
    var event := os.CreateEvent();
    error := if probe == Compatible then NoError else BusVersionMismatch;
    os.CloseEvent(event);
  }

  ghost predicate Gained(before: set<BusHandle>, after: set<BusHandle>, more: set<BusHandle>) {
    after == before + more && more !! before
  }

  lemma GainedNothing(s: set<BusHandle>)
    ensures Gained(s, s, {})
  {
  }

  lemma GainedOne(before: set<BusHandle>, after: set<BusHandle>, mine: set<BusHandle>, x: BusHandle)
    requires Gained(before, after, mine) && x !in after
    ensures Gained(before, after + {x}, mine + {x}) && |mine + {x}| == |mine| + 1
  {
  }

  lemma HandlesCounted(before: set<BusHandle>, after: set<BusHandle>, mine: set<BusHandle>, left: BusHandle?)
    requires Gained(before, after, mine) && (left != null ==> left in mine)
    ensures before <= after && |after - before| == |mine|
    ensures |after - before - {left}| == |mine| - (if left == null then 0 else 1)
    ensures left != null ==> left in after - before
  {
    assert after - before == mine;
    if left == null {
      assert mine - {left} == mine;
    }
  }

  /** Closing the handle destroys its devices; no target object is touched. */
  method Disconnect(vigem: Client?, os: Os)
    modifies vigem, os`busHandles
    ensures vigem == null ==> os.busHandles == old(os.busHandles)
    ensures vigem != null ==>
              !Open(vigem) && SlotsOf(vigem) == map[] &&
              os.busHandles == old(os.busHandles) - {old(vigem.hBusDevice)}
  {
    if vigem != null && vigem.hBusDevice != null {
      os.busHandles := os.busHandles - {vigem.hBusDevice};
      vigem.hBusDevice := null;
    }
  }

  method TargetFree(target: Target?, os: Os)
    modifies os`freedTargets
    ensures os.freedTargets == if target == null then old(os.freedTargets) else old(os.freedTargets) + [target]
  {
    if target != null {
      os.freedTargets := os.freedTargets + [target];
    }
  }

  method TargetAdd(vigem: Client?, target: Target?, answers: Answers, os: Os) returns (error: Error)
    requires os.Valid()
    modifies target, if vigem == null then null else vigem.hBusDevice, os`events, os`next
    ensures os.Valid() && os.events == old(os.events)
    ensures vigem == null ==> error == BusInvalidHandle
    ensures vigem != null && target == null ==> error == InvalidTarget && SlotsOf(vigem) == old(SlotsOf(vigem))
    ensures vigem == null && target != null ==> target.View() == old(target.View())
    ensures vigem != null && target != null ==>
              Outcome(error, SlotsOf(vigem), target.View())
              == AddSpec<Target>(old(Open(vigem)), old(SlotsOf(vigem)), old(target.View()), target, answers)
  {
    error := NoFreeSlot;
    var plugInEvent := os.CreateEvent();
    var waitEvent := os.CreateEvent();
    if vigem == null {
      error := BusInvalidHandle;
    } else if target == null {
      error := InvalidTarget;
    } else if vigem.hBusDevice == null {
      error := BusNotFound;
    } else if target.state == New {
      error := TargetUninitialized;
    } else if target.state == Connected {
      error := AlreadyConnected;
    } else {
      error := SearchSlot(vigem, target, answers, os);
    }
    os.CloseEvent(plugInEvent);
    os.CloseEvent(waitEvent);
  }

  /** The serial search at the heart of `add`. */
  method SearchSlot(vigem: Client, target: Target, answers: Answers, os: Os) returns (error: Error)
    requires os.Valid()
    requires vigem.hBusDevice != null && target.state != New && target.state != Connected
    modifies target, vigem.hBusDevice, os`events, os`next
    ensures os.Valid() && os.events == old(os.events)
    ensures Outcome(error, SlotsOf(vigem), target.View())
         == AddSpec(true, old(SlotsOf(vigem)), old(target.View()), target, answers)
  {
    error := NoFreeSlot;
    target.serialNo := 1;
    while target.serialNo <= TARGETS_MAX
      invariant 1 <= target.serialNo <= TARGETS_MAX + 1
      invariant target.View() == old(target.View()).(serialNo := target.serialNo)
      invariant vigem.hBusDevice.slots == old(vigem.hBusDevice.slots)
      invariant FirstAccepted(old(SlotsOf(vigem)), answers.refused, 1)
             == FirstAccepted(old(SlotsOf(vigem)), answers.refused, target.serialNo)
      invariant os.Valid() && os.events == old(os.events)
      decreases TARGETS_MAX + 1 - target.serialNo
    {
      var plugged := vigem.hBusDevice.PlugIn(target.serialNo, target, answers.refused);
      if plugged {
        if answers.wait == Ready {
          target.state := Connected;
          error := NoError;
          break;
        }
        if answers.wait == InvalidParameter {
          target.state := Connected;
          target.waitReadyUnsupported := true;
          error := NoError;
          break;
        }
        error := TargetRemove(vigem, target, answers.unplugged, os);
        break;
      }
      target.serialNo := target.serialNo + 1;
    }
  }

  method TargetRemove(vigem: Client?, target: Target?, unplugged: bool, os: Os) returns (error: Error)
    requires os.Valid()
    modifies target, if vigem == null then null else vigem.hBusDevice, os`events, os`next
    ensures os.Valid() && os.events == old(os.events)
    ensures vigem == null ==> error == BusInvalidHandle
    ensures vigem != null && target == null ==> error == InvalidTarget && SlotsOf(vigem) == old(SlotsOf(vigem))
    ensures vigem == null && target != null ==> target.View() == old(target.View())
    ensures vigem != null && target != null ==>
              Outcome(error, SlotsOf(vigem), target.View())
              == RemoveSpec(old(Open(vigem)), old(SlotsOf(vigem)), old(target.View()), unplugged)
  {
    if vigem == null {
      return BusInvalidHandle;
    }
    if target == null {
      return InvalidTarget;
    }
    if vigem.hBusDevice == null {
      return BusNotFound;
    }
    if target.state == New {
      return TargetUninitialized;
    }
    if target.state != Connected {
      return TargetNotPluggedIn;
    }
    var event := os.CreateEvent();
    if unplugged {
      vigem.hBusDevice.slots := vigem.hBusDevice.slots - {target.serialNo};
      target.state := Disconnected;
      os.CloseEvent(event);
      return NoError;
    }
    os.CloseEvent(event);
    return RemovalFailed;
  }

  /** Submitting a report; `reached` is the device the driver handed it to. */
  method TargetUpdate(vigem: Client?, target: Target?, denied: bool, os: Os)
    returns (error: Error, reached: set<Target>)
    requires os.Valid()
    modifies os`events, os`next
    ensures os.Valid() && os.events == old(os.events)
    ensures vigem == null ==> error == BusInvalidHandle && reached == {}
    ensures vigem != null && target == null ==> error == InvalidTarget && reached == {}
    ensures vigem != null && target != null ==>
              error == UpdateError(Open(vigem), target.View(), denied) &&
              reached == if denied then {} else Reached(Open(vigem), SlotsOf(vigem), target.View())
    ensures vigem != null && target != null ==>
              (error == BusNotFound <==> !Open(vigem)) &&
              (error == InvalidTarget <==> Open(vigem) && (target.serialNo == 0 || denied)) &&
              (error == NoError <==> Open(vigem) && target.serialNo != 0 && !denied) &&
              (forall owner: Target :: owner in reached <==>
                error == NoError && target.serialNo in SlotsOf(vigem) && SlotsOf(vigem)[target.serialNo] == owner)
  {
    reached := {};
    if vigem == null {
      return BusInvalidHandle, reached;
    }
    if target == null {
      return InvalidTarget, reached;
    }
    if vigem.hBusDevice == null {
      return BusNotFound, reached;
    }
    if target.serialNo == 0 {
      return InvalidTarget, reached;
    }
    var event := os.CreateEvent();
    if !denied && target.serialNo in vigem.hBusDevice.slots {
      reached := {vigem.hBusDevice.slots[target.serialNo]};
    }
    os.CloseEvent(event);
    error := if denied then InvalidTarget else NoError;
  }

  // ---------------------------------------------------------------- connecting

  lemma ScannedStep(probes: seq<Probe>, n: nat)
    requires n < |probes| && Scanned(probes, n).error != NoError && Scanned(probes, n).listed
    ensures Scanned(probes, n + 1) == Tried(Scanned(probes, n), probes[n])
  {
  }

  lemma {:induction false} ScanStops(probes: seq<Probe>, n: nat, k: nat)
    requires n <= k <= |probes|
    requires n == k || Scanned(probes, n).error == NoError || !Scanned(probes, n).listed
    ensures Scanned(probes, k) == Scanned(probes, n)
  {
    if n < k {
      ScanStops(probes, n, k - 1);
    }
  }

  /** The device at which the enumeration ends, or the number of devices. */
  function StopsAt(probes: seq<Probe>, from: nat := 0): (k: nat)
    requires from <= |probes|
    ensures from <= k <= |probes|
    ensures forall i :: from <= i < k ==> probes[i] == OpenFailed || probes[i] == VersionMismatch
    ensures k < |probes| ==> probes[k] == DetailFailed || probes[k] == Compatible
    decreases |probes| - from
  {
    if from == |probes| || probes[from] == DetailFailed || probes[from] == Compatible then from
    else StopsAt(probes, from + 1)
  }

  predicate FindsCompatible(probes: seq<Probe>) {
    var k := StopsAt(probes); k < |probes| && probes[k] == Compatible
  }

  /** Some device turns out as `p`, and none before it as `q`. */
  predicate Precedes(probes: seq<Probe>, p: Probe, q: Probe) {
    exists i :: 0 <= i < |probes| && probes[i] == p && q !in probes[..i]
  }

  function Mismatches(probes: seq<Probe>): nat {
    multiset(probes[..StopsAt(probes)])[VersionMismatch]
  }

  /** The error of `connect` is told by the device at which the enumeration ended, or else by
      the last one. */
  lemma ConnectError(probes: seq<Probe>)
    ensures var k := StopsAt(probes);
            Scanned(probes, |probes|).error ==
              if k < |probes| then (if probes[k] == Compatible then NoError else BusNotFound)
              else if k == 0 then BusNotFound
              else if probes[k - 1] == OpenFailed then BusAccessFailed
              else BusVersionMismatch
  {
    var k := StopsAt(probes);
    ErrorBeforeStop(probes, k);
    BeforeStop(probes, k);
    if k < |probes| {
      ScannedStep(probes, k);
      ScanStops(probes, k + 1, |probes|);
    }
  }

  lemma ErrorBeforeStop(probes: seq<Probe>, n: nat)
    requires n <= StopsAt(probes)
    ensures Scanned(probes, n).error ==
              if n == 0 then BusNotFound
              else if probes[n - 1] == OpenFailed then BusAccessFailed
              else BusVersionMismatch
  {
    if n > 0 {
      BeforeStop(probes, n - 1);
    }
  }

  lemma MismatchesIs(probes: seq<Probe>)
    ensures Mismatches(probes) == multiset(probes[..StopsAt(probes)])[VersionMismatch]
  {
  }

  /** Every handle to a device of another version is lost, except one that was opened last
      when no compatible device turned up. */
  function LostHandles(probes: seq<Probe>): (lost: nat)
    ensures var link := Scanned(probes, |probes|);
            link.handles == lost + (if link.open then 1 else 0)
  {
    var k := StopsAt(probes);
    ConnectOutcome(probes);
    assert k > 0 && probes[k - 1] == VersionMismatch ==> VersionMismatch in probes[..k];
    if !FindsCompatible(probes) && k > 0 && probes[k - 1] == VersionMismatch then Mismatches(probes) - 1
    else Mismatches(probes)
  }

  /** Connecting succeeds exactly when some device is compatible and the detail query failed
      for none before it.  The handle it leaves is open in that case, and also after a
      failure if the last device it tried to open had another version, although the caller
      was told the connection failed.  The list of devices is used after it was destroyed
      exactly when the detail query failed for some device and none before it was
      compatible. */
  lemma ConnectOutcome(probes: seq<Probe>)
    ensures var link, k := Scanned(probes, |probes|), StopsAt(probes);
            (link.error == NoError <==> Precedes(probes, Compatible, DetailFailed)) &&
            (!link.listed <==> Precedes(probes, DetailFailed, Compatible)) &&
            (link.open <==> FindsCompatible(probes) || (k > 0 && probes[k - 1] == VersionMismatch)) &&
            link.handles == Mismatches(probes) + (if FindsCompatible(probes) then 1 else 0)
  {
    hide Scanned, StopsAt, Mismatches, Precedes;
    var k := StopsAt(probes);
    BeforeStop(probes, k);
    MismatchesIs(probes);
    StopMeans(probes);
    if k < |probes| {
      ScannedStep(probes, k);
      ScanStops(probes, k + 1, |probes|);
    }
  }

  lemma StopMeans(probes: seq<Probe>)
    ensures var k := StopsAt(probes);
            (FindsCompatible(probes) <==> Precedes(probes, Compatible, DetailFailed)) &&
            (k < |probes| && probes[k] == DetailFailed <==> Precedes(probes, DetailFailed, Compatible))
  {
    var k := StopsAt(probes);
    if k < |probes| {
      assert Compatible !in probes[..k] && DetailFailed !in probes[..k];
      forall i | k < i < |probes|
        ensures probes[k] in probes[..i]
      {
        assert probes[..i][k] == probes[k];
      }
    }
  }

  lemma {:induction false} BeforeStop(probes: seq<Probe>, n: nat)
    requires n <= StopsAt(probes)
    ensures var link := Scanned(probes, n);
            link.error != NoError && link.listed &&
            (link.open <==> n > 0 && probes[n - 1] == VersionMismatch) &&
            link.handles == multiset(probes[..n])[VersionMismatch]
  {
    if n > 0 {
      BeforeStop(probes, n - 1);
      assert probes[..n] == probes[..n - 1] + [probes[n - 1]];
    }
  }

  // ---------------------------------------------------------------- runs of calls

  type Id = nat

  /** A client, its targets and the bus.  `current` is the history of the open handle: the
      targets it connected and has not removed since. */
  datatype World = World(open: bool, slots: Slots<Id>, targets: map<Id, Fields>, current: set<Id>)

  datatype Call =
    | CallConnect(probes: seq<Probe>)
    | CallDisconnect
    | CallAlloc(id: Id, kind: Kind)
    | CallFree(id: Id)
    | CallAdd(id: Id, answers: Answers)
    | CallRemove(id: Id, unplugged: bool)
    | CallUpdate(id: Id, denied: bool)

  predicate Enabled(w: World, c: Call) {
    match c
    case CallConnect(_) => true
    case CallDisconnect => true
    case CallAlloc(id, _) => id !in w.targets && id !in w.slots.Values
    case CallFree(id) => id in w.targets
    case CallAdd(id, _) => id in w.targets
    case CallRemove(id, _) => id in w.targets
    case CallUpdate(id, _) => id in w.targets
  }

  function Next(w: World, c: Call): World
    requires Enabled(w, c)
  {
    match c
    case CallConnect(probes) => if w.open then w else w.(open := Scanned(probes, |probes|).open)
    case CallDisconnect => World(false, map[], w.targets, {})
    case CallAlloc(id, kind) => w.(targets := w.targets[id := Allocated(kind)])
    case CallFree(id) => w.(targets := w.targets - {id}, current := w.current - {id})
    case CallAdd(id, answers) =>
      var o := AddSpec(w.open, w.slots, w.targets[id], id, answers);
      World(w.open, o.slots, w.targets[id := o.target],
            if o.error == NoError then w.current + {id} else w.current)
    case CallRemove(id, unplugged) =>
      var o := RemoveSpec(w.open, w.slots, w.targets[id], unplugged);
      World(w.open, o.slots, w.targets[id := o.target],
            if o.error == NoError then w.current - {id} else w.current)
    case CallUpdate(_, _) => w
  }

  /** A target that says CONNECTED but was connected through a handle closed since. */
  predicate Stale(w: World, id: Id) {
    id in w.targets && w.targets[id].state == Connected && id !in w.current
  }

  predicate Owns(w: World, id: Id)
    requires id in w.targets
  {
    var s := w.targets[id].serialNo;
    1 <= s <= TARGETS_MAX && s in w.slots && w.slots[s] == id
  }

  ghost predicate Inv(w: World) {
    (!w.open ==> w.slots == map[] && w.current == {}) &&
    (forall s :: s in w.slots ==> 1 <= s <= TARGETS_MAX) &&
    (forall id :: id in w.current ==> id in w.targets && w.targets[id].state == Connected && Owns(w, id)) &&
    (forall id :: Stale(w, id) ==> OwnsNothing(w, id))
  }

  ghost predicate OwnsNothing(w: World, id: Id) {
    forall s :: s in w.slots ==> w.slots[s] != id
  }

  /** Every call keeps ownership, except unplugging through a stale target. */
  lemma NextKeepsInv(w: World, c: Call)
    requires Inv(w) && Enabled(w, c)
    requires c.CallRemove? ==> !Stale(w, c.id)
    ensures Inv(Next(w, c))
  {
    match c
    case CallAdd(id, answers) => AddKeepsInv(w, id, answers);
    case CallRemove(id, unplugged) => RemoveKeepsInv(w, id, unplugged);
    case CallDisconnect =>
    case _ =>
      forall id | Stale(Next(w, c), id)
        ensures OwnsNothing(Next(w, c), id)
      {
        assert Stale(w, id);
      }
  }

  lemma AddKeepsInv(w: World, id: Id, answers: Answers)
    requires Inv(w) && id in w.targets
    ensures Inv(Next(w, CallAdd(id, answers)))
  {
    var o := AddSpec(w.open, w.slots, w.targets[id], id, answers);
    AddPlugsIn(w.open, w.slots, w.targets[id], id, answers);
    AddRange(w.open, w.slots, w.targets[id], id, answers);
    hide AddSpec;
    var w' := Next(w, CallAdd(id, answers));
    forall other | Stale(w', other)
      ensures OwnsNothing(w', other)
    {
      assert Stale(w, other);
    }
  }

  lemma RemoveKeepsInv(w: World, id: Id, unplugged: bool)
    requires Inv(w) && id in w.targets && !Stale(w, id)
    ensures Inv(Next(w, CallRemove(id, unplugged)))
  {
    var w' := Next(w, CallRemove(id, unplugged));
    forall other | Stale(w', other)
      ensures OwnsNothing(w', other)
    {
      assert Stale(w, other);
    }
  }

  /** Exactly when unplugging through a stale target takes a slot from its owner. */
  lemma StaleRemoval(w: World, id: Id)
    requires Inv(w) && Stale(w, id) && w.open
    ensures Inv(Next(w, CallRemove(id, true))) <==>
            forall other :: other in w.current ==> w.targets[other].serialNo != w.targets[id].serialNo
  {
    var w' := Next(w, CallRemove(id, true));
    assert w'.current == w.current;
    if other :| other in w.current && w.targets[other].serialNo == w.targets[id].serialNo {
      assert other in w'.current && !Owns(w', other);
    } else {
      forall other | Stale(w', other)
        ensures OwnsNothing(w', other)
      {
        assert Stale(w, other);
      }
    }
  }

  predicate Runs(w: World, calls: seq<Call>)
    decreases |calls|
  {
    calls == [] || (Enabled(w, calls[0]) && Runs(Next(w, calls[0]), calls[1..]))
  }

  function Run(w: World, calls: seq<Call>): World
    requires Runs(w, calls)
    decreases |calls|
  {
    if calls == [] then w else Run(Next(w, calls[0]), calls[1..])
  }

  /** No call of the run removes a target that is stale at that moment. */
  predicate NeverRemovesStale(w: World, calls: seq<Call>)
    requires Runs(w, calls)
    decreases |calls|
  {
    calls == [] ||
    ((calls[0].CallRemove? ==> !Stale(w, calls[0].id)) &&
     NeverRemovesStale(Next(w, calls[0]), calls[1..]))
  }

  lemma {:induction false} RunKeepsOwnership(w: World, calls: seq<Call>)
    requires Inv(w) && Runs(w, calls) && NeverRemovesStale(w, calls)
    ensures Inv(Run(w, calls))
    decreases |calls|
  {
    if calls != [] {
      NextKeepsInv(w, calls[0]);
      RunKeepsOwnership(Next(w, calls[0]), calls[1..]);
    }
  }

  ghost predicate NoneStale(w: World) {
    forall id :: id in w.targets ==> !Stale(w, id)
  }

  predicate NoDisconnect(calls: seq<Call>) {
    CallDisconnect !in calls
  }

  /** Without a disconnect, whatever else is called in whatever order: every CONNECTED
      target owns its slot, no two share a serial, and a report sent to one reaches that
      one's device and no other. */
  lemma {:induction false} ConnectedTargetsOwnTheirSlots(w: World, calls: seq<Call>)
    requires Inv(w) && NoneStale(w) && Runs(w, calls) && NoDisconnect(calls)
    ensures var w' := Run(w, calls);
            Inv(w') && NoneStale(w') &&
            (forall id :: id in w'.targets && w'.targets[id].state == Connected ==>
              Owns(w', id) && Reached(w'.open, w'.slots, w'.targets[id]) == {id}) &&
            (forall a, b | a in w'.targets && b in w'.targets && a != b ::
              w'.targets[a].state == Connected && w'.targets[b].state == Connected ==>
                w'.targets[a].serialNo != w'.targets[b].serialNo)
    decreases |calls|
  {
    if calls == [] {
      forall id | id in w.targets && w.targets[id].state == Connected
        ensures Owns(w, id)
      {
        assert !Stale(w, id);
      }
    } else {
      NextKeepsInv(w, calls[0]);
      StaysFresh(w, calls[0]);
      ConnectedTargetsOwnTheirSlots(Next(w, calls[0]), calls[1..]);
    }
  }

  lemma StaysFresh(w: World, c: Call)
    requires Inv(w) && NoneStale(w) && Enabled(w, c) && c != CallDisconnect
    ensures NoneStale(Next(w, c))
  {
    forall id | id in Next(w, c).targets
      ensures !Stale(Next(w, c), id)
    {
      if id in w.targets {
        assert !Stale(w, id);
      }
    }
  }

  /** Across disconnects a CONNECTED target owns its slot if and only if it was connected
      through the handle that is open now. */
  lemma ConnectedOwnsIffCurrent(w: World, id: Id)
    requires Inv(w) && id in w.targets && w.targets[id].state == Connected
    ensures Owns(w, id) <==> id in w.current
  {
    if id !in w.current {
      assert Stale(w, id);
    }
  }

  // ---------------------------------------------------------------- the slot search

  /** The search stops at the least accepted serial; it reports that no slot is free
      exactly when all are refused, and then only the serial number has changed. */
  lemma AddFindsLeastSerial<T>(slots: Slots<T>, target: Fields, me: T, answers: Answers)
    requires target.state == Initialized || target.state == Disconnected
    ensures var o := AddSpec(true, slots, target, me, answers);
            (o.error == NoFreeSlot <==>
              forall s :: 1 <= s <= 65535 ==> !Accepts(slots, answers.refused, s)) &&
            (o.error == NoFreeSlot ==> o.slots == slots && o.target == target.(serialNo := 65536)) &&
            (o.error != NoFreeSlot ==>
              o.slots == slots[o.target.serialNo := me] &&
              1 <= o.target.serialNo <= TARGETS_MAX && o.target.serialNo !in slots &&
              (forall s :: 1 <= s < o.target.serialNo ==> !Accepts(slots, answers.refused, s)))
  {
    var s := FirstAccepted(slots, answers.refused, 1);
    hide FirstAccepted;
    assert s > TARGETS_MAX || Accepts(slots, answers.refused, s);
  }

  /** When `add` succeeds, and what that means for the target. */
  lemma AddSucceedsIff<T>(open: bool, slots: Slots<T>, target: Fields, me: T, answers: Answers)
    ensures var o := AddSpec(open, slots, target, me, answers);
            (o.error == NoError <==>
              open && (target.state == Initialized || target.state == Disconnected) &&
              answers.wait != Failed &&
              SomeAccepted(slots, answers.refused)) &&
            (o.error == NoError <==> o.target.state == Connected != target.state) &&
            (o.target.waitReadyUnsupported <==>
              target.waitReadyUnsupported || (o.error == NoError && answers.wait == InvalidParameter)) &&
            (o.target.kind, o.target.vendorId, o.target.productId)
              == (target.kind, target.vendorId, target.productId)
  {
    var s := FirstAccepted(slots, answers.refused, 1);
    assert s <= TARGETS_MAX ==> Accepts(slots, answers.refused, s);
  }

  /** The error of `add`, by the checks in their order; the first three change nothing. */
  lemma AddErrors<T>(open: bool, slots: Slots<T>, target: Fields, me: T, answers: Answers)
    ensures var o := AddSpec(open, slots, target, me, answers);
            o.error == (if !open then BusNotFound
                        else if target.state == New then TargetUninitialized
                        else if target.state == Connected then AlreadyConnected
                        else if !SomeAccepted(slots, answers.refused) then NoFreeSlot
                        else if answers.wait == Failed then TargetNotPluggedIn
                        else NoError) &&
            (o.error in {BusNotFound, TargetUninitialized, AlreadyConnected} ==> o.slots == slots && o.target == target)
  {
    var s := FirstAccepted(slots, answers.refused, 1);
    hide FirstAccepted;
    assert s > TARGETS_MAX || Accepts(slots, answers.refused, s);
  }

  /** The error of `remove`; only success changes anything, and then exactly the target's slot
      becomes free and its state DISCONNECTED. */
  lemma RemoveErrors<T>(open: bool, slots: Slots<T>, target: Fields, unplugged: bool)
    ensures var o := RemoveSpec(open, slots, target, unplugged);
            o.error == (if !open then BusNotFound
                        else if target.state == New then TargetUninitialized
                        else if target.state == Initialized || target.state == Disconnected then TargetNotPluggedIn
                        else if !unplugged then RemovalFailed
                        else NoError) &&
            (o.error != NoError ==> o.slots == slots && o.target == target) &&
            (o.error == NoError ==>
              o.target == target.(state := Disconnected) &&
              forall s :: (s in o.slots <==> s in slots && s != target.serialNo) && (s in o.slots ==> o.slots[s] == slots[s]))
  {
  }

  /** After a failed wait the removal is a no-op, because the target is not CONNECTED: the
      call fails, the target keeps its state, and the slot stays taken. */
  lemma FailedWaitKeepsSlot(w: World, id: Id, answers: Answers)
    requires Inv(w) && w.open && id in w.targets && answers.wait == Failed
    requires w.targets[id].state == Initialized || w.targets[id].state == Disconnected
    requires SomeAccepted(w.slots, answers.refused)
    ensures var w' := Next(w, CallAdd(id, answers));
            AddSpec(w.open, w.slots, w.targets[id], id, answers).error == TargetNotPluggedIn &&
            w'.targets[id].state == w.targets[id].state && w'.current == w.current &&
            Stray(w', w'.targets[id].serialNo)
  {
  }

  /** A slot that is taken, but by no target connected through the open handle. */
  ghost predicate Stray(w: World, s: nat) {
    s in w.slots && forall id :: id in w.current && id in w.targets ==> w.targets[id].serialNo != s
  }

  /** Nothing short of a disconnect releases such a slot, or gives it to another target. */
  lemma {:induction false} StraySlotsAreNeverReleased(w: World, calls: seq<Call>, s: nat)
    requires Inv(w) && NoneStale(w) && Runs(w, calls) && NoDisconnect(calls)
    requires Stray(w, s)
    ensures var w' := Run(w, calls); Stray(w', s) && w'.slots[s] == w.slots[s]
    decreases |calls|
  {
    if calls != [] {
      NextKeepsInv(w, calls[0]);
      StaysFresh(w, calls[0]);
      StrayStays(w, calls[0], s);
      StraySlotsAreNeverReleased(Next(w, calls[0]), calls[1..], s);
    }
  }

  lemma StrayStays(w: World, c: Call, s: nat)
    requires Inv(w) && NoneStale(w) && Enabled(w, c) && c != CallDisconnect && Stray(w, s)
    ensures var w' := Next(w, c); Stray(w', s) && w'.slots[s] == w.slots[s]
  {
    if c.CallRemove? {
      assert !Stale(w, c.id);
    }
  }

  // ---------------------------------------------------------------- where reports land

  /** `lost` lists exactly the stray slots, each with the target that plugged it in. */
  ghost predicate Accounts(w: World, lost: map<nat, Id>) {
    (forall s :: s in lost <==> Stray(w, s)) &&
    (forall s :: s in lost ==> w.slots[s] == lost[s])
  }

  /** The caller's own account of the slots it has lost: an `add` that failed once the device
      was plugged in, and a target freed while it was connected, each lose one; closing the
      bus gives all of them back. */
  function LostNext(w: World, lost: map<nat, Id>, c: Call): map<nat, Id>
    requires Enabled(w, c)
  {
    match c
    case CallAdd(id, answers) =>
      var o := AddSpec(w.open, w.slots, w.targets[id], id, answers);
      if o.error == TargetNotPluggedIn then lost[o.target.serialNo := id] else lost
    case CallFree(id) => if id in w.current then lost[w.targets[id].serialNo := id] else lost
    case CallDisconnect => map[]
    case _ => lost
  }

  function LostAfter(w: World, lost: map<nat, Id>, calls: seq<Call>): map<nat, Id>
    requires Runs(w, calls)
    decreases |calls|
  {
    if calls == [] then lost else LostAfter(Next(w, calls[0]), LostNext(w, lost, calls[0]), calls[1..])
  }

  /** The owner of slot `s`, when it is connected on it. */
  predicate OwnerConnected(w: World, s: nat) {
    s in w.slots && w.slots[s] in w.current && w.slots[s] in w.targets &&
    w.targets[w.slots[s]].serialNo == s
  }

  lemma StrayByOwner(w: World, s: nat)
    requires Inv(w)
    ensures Stray(w, s) <==> s in w.slots && !OwnerConnected(w, s)
  {
    forall id | id in w.current && w.targets[id].serialNo == s
      ensures s in w.slots && w.slots[s] == id
    {
      assert Owns(w, id);
    }
  }

  lemma OwnersChange(w: World, lost: map<nat, Id>, c: Call, s: nat)
    requires Inv(w) && Enabled(w, c) && (c.CallRemove? ==> !Stale(w, c.id))
    requires s in lost <==> s in w.slots && !OwnerConnected(w, s)
    requires s in lost ==> w.slots[s] == lost[s]
    ensures var w', lost' := Next(w, c), LostNext(w, lost, c);
            (s in lost' <==> s in w'.slots && !OwnerConnected(w', s)) &&
            (s in lost' ==> w'.slots[s] == lost'[s])
  {
    match c
    case CallAdd(id, answers) => OwnersChangeByAdd(w, lost, id, answers, s);
    case CallRemove(id, _) => assert id in w.current ==> Owns(w, id);
    case CallFree(id) => assert id in w.current ==> Owns(w, id);
    case _ =>
  }

  lemma OwnersChangeByAdd(w: World, lost: map<nat, Id>, id: Id, answers: Answers, s: nat)
    requires Inv(w) && id in w.targets
    requires s in lost <==> s in w.slots && !OwnerConnected(w, s)
    requires s in lost ==> w.slots[s] == lost[s]
    ensures var c := CallAdd(id, answers);
            var w', lost' := Next(w, c), LostNext(w, lost, c);
            (s in lost' <==> s in w'.slots && !OwnerConnected(w', s)) &&
            (s in lost' ==> w'.slots[s] == lost'[s])
  {
    var o := AddSpec(w.open, w.slots, w.targets[id], id, answers);
    AddPlugsIn(w.open, w.slots, w.targets[id], id, answers);
    hide AddSpec, Inv;
  }

  lemma AddRange<T>(open: bool, slots: Slots<T>, target: Fields, me: T, answers: Answers)
    ensures var o := AddSpec(open, slots, target, me, answers);
            (o.slots != slots ==> open && 1 <= o.target.serialNo <= TARGETS_MAX) &&
            (o.error == NoError ==> o.target.state == Connected) &&
            (o.error != NoError ==> o.target.state == target.state)
  {
  }

  /** What `add` does to the slots, by its result. */
  lemma AddPlugsIn<T>(open: bool, slots: Slots<T>, target: Fields, me: T, answers: Answers)
    ensures var o := AddSpec(open, slots, target, me, answers);
            if o.error == NoError || o.error == TargetNotPluggedIn
            then o.target.serialNo !in slots && o.slots == slots[o.target.serialNo := me] && target.state != Connected
            else o.slots == slots && (target.state == Connected ==> o.target == target)
  {
  }

  /** Slots are lost by failed waits and by freeing connected targets, and in no other way. */
  lemma AccountsKept(w: World, lost: map<nat, Id>, c: Call)
    requires Inv(w) && Accounts(w, lost) && Enabled(w, c)
    requires c.CallRemove? ==> !Stale(w, c.id)
    ensures Accounts(Next(w, c), LostNext(w, lost, c))
  {
    NextKeepsInv(w, c);
    var w', lost' := Next(w, c), LostNext(w, lost, c);
    forall s
      ensures s in lost' <==> Stray(w', s)
      ensures s in lost' ==> w'.slots[s] == lost'[s]
    {
      StrayByOwner(w, s);
      StrayByOwner(w', s);
      assert s in lost <==> Stray(w, s);
      OwnersChange(w, lost, c, s);
    }
  }

  lemma {:induction false} AccountsHold(w: World, lost: map<nat, Id>, calls: seq<Call>)
    requires Inv(w) && Accounts(w, lost) && Runs(w, calls) && NeverRemovesStale(w, calls)
    ensures Accounts(Run(w, calls), LostAfter(w, lost, calls))
    decreases |calls|
  {
    if calls != [] {
      NextKeepsInv(w, calls[0]);
      AccountsKept(w, lost, calls[0]);
      AccountsHold(Next(w, calls[0]), LostNext(w, lost, calls[0]), calls[1..]);
    }
  }

  /** No other target that is connected through the open handle has this one's serial. */
  predicate Unshared(w: World, id: Id)
    requires id in w.targets
  {
    forall other :: other in w.current && other in w.targets && other != id ==>
      w.targets[other].serialNo != w.targets[id].serialNo
  }

  /** A report sent to a target, in whatever state, reaches no device but its own if and
      only if no other connected target has its serial, and the serial was not lost by
      another target. */
  lemma ReportStaysOwnIff(w: World, id: Id, lost: map<nat, Id>)
    requires Inv(w) && Accounts(w, lost) && id in w.targets
    ensures Reached(w.open, w.slots, w.targets[id]) <= {id} <==>
            Unshared(w, id) && (w.targets[id].serialNo in lost ==> lost[w.targets[id].serialNo] == id)
  {
    var s := w.targets[id].serialNo;
    if s in w.slots {
      assert Reached(w.open, w.slots, w.targets[id]) == {w.slots[s]};
      assert w.slots[s] in Reached(w.open, w.slots, w.targets[id]);
      if !Stray(w, s) {
        var owner :| owner in w.current && owner in w.targets && w.targets[owner].serialNo == s;
        assert Owns(w, owner);
      }
    } else {
      assert !Stray(w, s);
      assert Unshared(w, id) by {
        forall other | other in w.current && other in w.targets && other != id
          ensures w.targets[other].serialNo != s
        {
          assert Owns(w, other);
        }
      }
    }
  }

  /** The same over whole runs, the lost slots being those of the caller's own account. */
  lemma ReportsStayOwnIff(calls: seq<Call>, id: Id)
    requires Runs(EMPTY, calls) && NeverRemovesStale(EMPTY, calls) && id in Run(EMPTY, calls).targets
    ensures var w, lost := Run(EMPTY, calls), LostAfter(EMPTY, map[], calls);
            var s := w.targets[id].serialNo;
            Reached(w.open, w.slots, w.targets[id]) <= {id} <==>
              Unshared(w, id) && (s in lost ==> lost[s] == id)
  {
    RunKeepsOwnership(EMPTY, calls);
    AccountsHold(EMPTY, map[], calls);
    ReportStaysOwnIff(Run(EMPTY, calls), id, LostAfter(EMPTY, map[], calls));
  }

  /** While no slot has been lost, the serials of the connected targets decide it. */
  lemma ReportStaysOwnIffUnshared(w: World, id: Id)
    requires Inv(w) && id in w.targets && forall s :: s in w.slots ==> !Stray(w, s)
    ensures Reached(w.open, w.slots, w.targets[id]) <= {id} <==> Unshared(w, id)
  {
    ReportStaysOwnIff(w, id, map[]);
  }

  // ---------------------------------------------------------------- where it goes wrong

  const EMPTY := World(false, map[], map[], {})
  const FINE := Answers({}, Ready, true)

  /** A report for a removed target reaches the device of whoever took the slot next:
      `update` looks at the serial number and not at the state. */
  lemma UpdateOfRemovedTargetReachesAnother()
    ensures var calls := [CallConnect([Compatible]), CallAlloc(0, Xbox360Wired), CallAlloc(1, Xbox360Wired),
                          CallAdd(0, FINE), CallRemove(0, true), CallAdd(1, FINE)];
            Runs(EMPTY, calls) && NoDisconnect(calls) &&
            var w := Run(EMPTY, calls);
            0 in w.targets && w.targets[0].state == Disconnected &&
            Reached(w.open, w.slots, w.targets[0]) == {1}
  {
    var calls := [CallConnect([Compatible]), CallAlloc(0, Xbox360Wired), CallAlloc(1, Xbox360Wired),
                  CallAdd(0, FINE), CallRemove(0, true), CallAdd(1, FINE)];
    var off := Allocated(Xbox360Wired);
    var on := off.(serialNo := 1, state := Connected);
    var gone := on.(state := Disconnected);
    RunThrough([EMPTY,
                World(true, map[], map[], {}),
                World(true, map[], map[0 := off], {}),
                World(true, map[], map[0 := off, 1 := off], {}),
                World(true, map[1 := 0], map[0 := on, 1 := off], {0}),
                World(true, map[], map[0 := gone, 1 := off], {}),
                World(true, map[1 := 1], map[0 := gone, 1 := on], {1})], calls);
  }

  lemma {:induction false} RunThrough(worlds: seq<World>, calls: seq<Call>)
    requires |worlds| == |calls| + 1
    requires forall i :: 0 <= i < |calls| ==>
               Enabled(worlds[i], calls[i]) && Next(worlds[i], calls[i]) == worlds[i + 1]
    ensures Runs(worlds[0], calls) && Run(worlds[0], calls) == worlds[|calls|]
    decreases |calls|
  {
    if calls != [] {
      RunThrough(worlds[1..], calls[1..]);
    }
  }

  /** With a disconnect in between, two targets are CONNECTED on one serial, and removing
      the stale one unplugs the other's device. */
  lemma DisconnectBreaksOwnership()
    ensures var calls := [CallConnect([Compatible]), CallAlloc(0, Xbox360Wired), CallAlloc(1, Xbox360Wired),
                          CallAdd(0, FINE), CallDisconnect, CallConnect([Compatible]), CallAdd(1, FINE)];
            Runs(EMPTY, calls) &&
            var w := Run(EMPTY, calls);
            0 in w.targets && 1 in w.targets &&
            w.targets[0].state == Connected && w.targets[1].state == Connected &&
            w.targets[0].serialNo == w.targets[1].serialNo &&
            !Owns(Next(w, CallRemove(0, true)), 1)
  {
    var calls := [CallConnect([Compatible]), CallAlloc(0, Xbox360Wired), CallAlloc(1, Xbox360Wired),
                  CallAdd(0, FINE), CallDisconnect, CallConnect([Compatible]), CallAdd(1, FINE)];
    var off := Allocated(Xbox360Wired);
    var on := off.(serialNo := 1, state := Connected);
    RunThrough([EMPTY,
                World(true, map[], map[], {}),
                World(true, map[], map[0 := off], {}),
                World(true, map[], map[0 := off, 1 := off], {}),
                World(true, map[1 := 0], map[0 := on, 1 := off], {0}),
                World(false, map[], map[0 := on, 1 := off], {}),
                World(true, map[], map[0 := on, 1 := off], {}),
                World(true, map[1 := 1], map[0 := on, 1 := on], {1})], calls);
  }
}
