/** The gamepad table of the engine's own ViGEm wrapper: an index into a growing list of
    targets, over one driver handle. */
module Gamepads {
  import opened ViGEm

  class VigemClient {
    var driver: Client?
    var gamepads: seq<Target>
    ghost var adds: nat   // calls of AddGamepad that plugged a target in

    /** No target is listed twice, every successful add is listed, and as long as the bus is
        open every listed target is connected and owns its slot. */
    ghost predicate Valid()
      reads this, driver, if driver == null then null else driver.hBusDevice, gamepads
    {
      (forall i, j :: 0 <= i < j < |gamepads| ==> gamepads[i] != gamepads[j]) &&
      |gamepads| == adds &&
      (IsOpen() ==> forall i :: 0 <= i < |gamepads| ==> Owner(gamepads[i], SlotsOf(driver)))
    }

    predicate IsOpen()
      reads this, driver
    {
      driver != null && Open(driver)
    }

    /** The constructor keeps a driver object whose connection failed. */
    constructor (memory: bool, probes: seq<Probe>, os: Os)
      requires os.Valid()
      modifies os
      ensures Valid() && os.Valid() && gamepads == [] && os.events == old(os.events)
      ensures os.freedTargets == old(os.freedTargets)
      ensures driver != null <==> memory
      ensures driver != null ==> fresh(driver) && Open(driver) == Scanned(probes, |probes|).open
    {
      driver, gamepads, adds := null, [], 0;
      new;
      if memory {
        driver := new Client();
        var error := Connect(driver, probes, os);
      }
    }

    method ResetDriver(os: Os) returns (ok: bool)
      requires Valid()
      modifies driver, os`busHandles
      ensures Valid() && ok == (driver != null)
      ensures driver != null ==> !Open(driver)
    {
      if driver != null {
        Disconnect(driver, os);
        return true;
      }
      return false;
    }

    /** -1, or the index of a target that is now plugged in and listed last.  The target of a
        failed add is not freed. */
    method AddGamepad(kind: Kind, memory: bool, answers: Answers, os: Os) returns (index: int)
      requires Valid() && os.Valid()
      modifies this, if driver == null then null else driver.hBusDevice, os`events, os`next
      ensures Valid() && os.Valid() && os.events == old(os.events) && driver == old(driver)
      ensures os.freedTargets == old(os.freedTargets) && adds == old(adds) + (if index == -1 then 0 else 1)
      ensures driver != null ==> driver.hBusDevice == old(driver.hBusDevice)
      ensures index == -1 ==> gamepads == old(gamepads)
      ensures index != -1 ==>
                index == |old(gamepads)| < |gamepads| && driver != null &&
                gamepads == old(gamepads) + [gamepads[index]] && fresh(gamepads[index]) &&
                gamepads[index].state == Connected && gamepads[index].kind == kind &&
                SlotsOf(driver) == old(SlotsOf(driver))[gamepads[index].serialNo := gamepads[index]] &&
                gamepads[index].serialNo !in old(SlotsOf(driver))
      ensures index != -1 <==>
                driver != null && memory && old(Open(driver)) && answers.wait != Failed &&
                SomeAccepted(old(SlotsOf(driver)), answers.refused)
    {
      if driver == null {
        return -1;
      }
      if !memory {
        return -1;
      }
      var handler := new Target(kind);
      hide SomeAccepted;
      var paired := Pair(handler, answers, os);
      if !paired {
        return -1;
      }
      gamepads := gamepads + [handler];
      adds := adds + 1;
      return |gamepads| - 1;
    }

    /** Plugs the target in.  When that fails, the removal that follows changes nothing; a
        device that was plugged in before the failure stays on its slot. */
    method Pair(handler: Target, answers: Answers, os: Os) returns (ok: bool)
      requires os.Valid() && driver != null && handler.state == Initialized
      modifies handler, driver.hBusDevice, os`events, os`next
      ensures os.Valid() && os.events == old(os.events)
      ensures handler.kind == old(handler.kind)
      ensures ok <==> Open(driver) && answers.wait != Failed &&
                      SomeAccepted(old(SlotsOf(driver)), answers.refused)
      ensures ok ==> handler.state == Connected && handler.serialNo > 0 &&
                     handler.serialNo !in old(SlotsOf(driver)) &&
                     SlotsOf(driver) == old(SlotsOf(driver))[handler.serialNo := handler]
      ensures forall s :: s in old(SlotsOf(driver)) ==>
                s in SlotsOf(driver) && SlotsOf(driver)[s] == old(SlotsOf(driver))[s]
    {
      ghost var slots := SlotsOf(driver);
      AddSucceedsIff<Target>(Open(driver), slots, handler.View(), handler, answers);
      AddFindsLeastSerial<Target>(slots, handler.View(), handler, answers);
      AddPlugsIn<Target>(Open(driver), slots, handler.View(), handler, answers);
      hide AddSpec;
      var pair := TargetAdd(driver, handler, answers, os);
      if pair != NoError {
        var removed := TargetRemove(driver, handler, answers.unplugged, os);
      }
      ok := pair == NoError;
    }

    /** Any listed index is accepted, whatever becomes of the report; while the bus is open it
        reaches the device of the target listed there, and no other. */
    method SendXbox360Input(index: nat, denied: bool, os: Os) returns (ok: bool, reached: set<Target>)
      requires Valid() && os.Valid()
      modifies os`events, os`next
      ensures os.Valid() && os.events == old(os.events)
      ensures ok <==> index < |gamepads|
      ensures reached == if index < |gamepads| && IsOpen() && !denied then {gamepads[index]} else {}
    {
      if index < |gamepads| {
        var error;
        error, reached := TargetUpdate(driver, gamepads[index], denied, os);
        return true, reached;
      }
      return false, {};
    }

    /** Clearing sends a report too, but answers `false` even when it did. */
    method ClearGamepadState(index: nat, denied: bool, os: Os) returns (ok: bool, reached: set<Target>)
      requires Valid() && os.Valid()
      modifies os`events, os`next
      ensures os.Valid() && os.events == old(os.events)
      ensures !ok
      ensures reached == if index < |gamepads| && IsOpen() && !denied then {gamepads[index]} else {}
    {
      reached := {};
      if index < |gamepads| {
        var error;
        error, reached := TargetUpdate(driver, gamepads[index], denied, os);
      }
      return false, reached;
    }

    method GetNumberOfGamepads() returns (n: nat)
      requires Valid()
      ensures n == adds
    {
      n := |gamepads|;
    }

    /** The destructor closes the bus first, so every removal is refused; then each listed
        target is freed exactly once, in the order of the table. */
    method Destroy(unplugged: bool, os: Os)
      requires Valid() && os.Valid()
      modifies driver, gamepads, os
      ensures os.Valid() && os.events == old(os.events)
      ensures os.freedTargets == old(os.freedTargets) + gamepads
      ensures forall i :: 0 <= i < |gamepads| ==> gamepads[i].View() == old(gamepads[i].View())
      ensures driver != null ==> !Open(driver)
    {
      var ok := ResetDriver(os);
      for i := 0 to |gamepads|
        invariant os.Valid() && os.events == old(os.events)
        invariant os.freedTargets == old(os.freedTargets) + gamepads[..i]
        invariant forall k :: 0 <= k < |gamepads| ==> gamepads[k].View() == old(gamepads[k].View())
        invariant driver != null ==> !Open(driver)
      {
        var error := TargetRemove(driver, gamepads[i], unplugged, os);
        TargetFree(gamepads[i], os);
        assert gamepads[..i + 1] == gamepads[..i] + [gamepads[i]];
      }
    }

    /** Any calls in any order: every index handed out keeps naming the same target, so a
        report sent at any later time reaches that target's device, as long as the bus is
        open, and never another. */
    method Serve(requests: seq<Request>, os: Os) returns (replies: seq<Reply>)
      requires Valid() && os.Valid()
      modifies this, driver, if driver == null then null else driver.hBusDevice, os
      ensures Valid() && os.Valid() && os.events == old(os.events) && os.freedTargets == old(os.freedTargets)
      ensures old(gamepads) <= gamepads && driver == old(driver)
      ensures |replies| == |requests| && |gamepads| == |old(gamepads)| + Successes(replies)
      ensures AllAnswered(gamepads, |old(gamepads)|, old(IsOpen()), driver != null, requests, replies)
    {
      replies := [];
      hide AllAnswered, Answered, Valid, Successes;
      NoneAnswered(gamepads, IsOpen(), driver != null, requests);
      while |replies| < |requests|
        invariant |replies| <= |requests|
        invariant Valid() && os.Valid() && os.events == old(os.events) && os.freedTargets == old(os.freedTargets)
        invariant old(gamepads) <= gamepads && driver == old(driver)
        invariant |gamepads| == |old(gamepads)| + Successes(replies)
        invariant driver != null ==> driver.hBusDevice == null || driver.hBusDevice == old(driver.hBusDevice)
        invariant IsOpen() <==> StillOpen(old(IsOpen()), requests, |replies|)
        invariant AllAnswered(gamepads, |old(gamepads)|, old(IsOpen()), driver != null, requests, replies)
      {
        var request := requests[|replies|];
        ghost var table := gamepads;
        var reply := ServeOne(request, os);
        OneMoreAnswered(table, gamepads, |old(gamepads)|, old(IsOpen()), driver != null, requests, replies, reply);
        replies := replies + [reply];
      }
    }

    method ServeOne(request: Request, os: Os) returns (reply: Reply)
      requires Valid() && os.Valid()
      modifies this, driver, if driver == null then null else driver.hBusDevice, os
      ensures Valid() && os.Valid() && os.events == old(os.events) && os.freedTargets == old(os.freedTargets)
      ensures old(gamepads) <= gamepads && driver == old(driver)
      ensures |gamepads| == |old(gamepads)| + Successes([reply])
      ensures driver != null && driver.hBusDevice != null ==> driver.hBusDevice == old(driver.hBusDevice)
      ensures IsOpen() <==> old(IsOpen()) && request != ResetBus
      ensures Answered(gamepads, |old(gamepads)|, old(IsOpen()), driver != null, request, reply)
    {
      match request {
        case Add(kind, memory, answers) =>
          var index := AddGamepad(kind, memory, answers, os);
          reply := Added(index);
        case Send(index, denied) =>
          var ok, reached := SendXbox360Input(index, denied, os);
          reply := Sent(ok, reached);
        case Clear(index, denied) =>
          var ok, reached := ClearGamepadState(index, denied, os);
          reply := Sent(ok, reached);
        case ResetBus =>
          var ok := ResetDriver(os);
          reply := WasReset(ok);
        case Count =>
          var n := GetNumberOfGamepads();
          reply := Counted(n);
      }
    }
  }

  /** A target that is connected and owns the slot of its serial. */
  predicate Owner(target: Target, slots: Slots<Target>)
    reads target
  {
    target.state == Connected && target.serialNo > 0 &&
    target.serialNo in slots && slots[target.serialNo] == target
  }

  // ---------------------------------------------------------------- whole lifetimes

  datatype Request =
    | Add(kind: Kind, memory: bool, answers: Answers)
    | Send(index: nat, denied: bool)
    | Clear(index: nat, denied: bool)
    | ResetBus
    | Count

  datatype Reply =
    | Added(index: int)
    | Sent(ok: bool, reached: set<Target>)
    | WasReset(ok: bool)
    | Counted(n: nat)

  function Successes(replies: seq<Reply>): nat {
    if replies == [] then 0
    else
      var last := replies[|replies| - 1];
      Successes(replies[..|replies| - 1]) + (if last.Added? && last.index != -1 then 1 else 0)
  }

  /** What a call answers when the table has `size` entries, told by the table at the end. */
  predicate Answered(table: seq<Target>, size: nat, open: bool, driver: bool, request: Request, reply: Reply) {
    size <= |table| &&
    match request
    case Add(_, _, _) => reply == Added(-1) || (reply == Added(size) && size < |table|)
    case Send(index, denied) =>
      reply == Sent(index < size, if index < size && open && !denied then {table[index]} else {})
    case Clear(index, denied) =>
      reply == Sent(false, if index < size && open && !denied then {table[index]} else {})
    case ResetBus => reply == WasReset(driver)
    case Count => reply == Counted(size)
  }

  /** The bus stays open until it is reset. */
  predicate StillOpen(open: bool, requests: seq<Request>, k: nat)
    requires k <= |requests|
  {
    open && ResetBus !in requests[..k]
  }

  /** Every reply so far, `size` and `open` telling how the calls began. */
  ghost predicate AllAnswered(table: seq<Target>, size: nat, open: bool, driver: bool,
                              requests: seq<Request>, replies: seq<Reply>) {
    |replies| <= |requests| &&
    forall k: nat | k < |replies| :: AnsweredAt(table, size, open, driver, requests, replies, k)
  }

  lemma NoneAnswered(table: seq<Target>, open: bool, driver: bool, requests: seq<Request>)
    ensures AllAnswered(table, |table|, open, driver, requests, []) && Successes([]) == 0
  {
  }

  ghost predicate AnsweredAt(table: seq<Target>, size: nat, open: bool, driver: bool,
                             requests: seq<Request>, replies: seq<Reply>, k: nat)
    requires k < |replies| <= |requests|
  {
    Answered(table, size + Successes(replies[..k]), StillOpen(open, requests, k), driver,
             requests[k], replies[k])
  }

  /** Replies that were right stay right while the table and the replies grow. */
  lemma StillAnswered(table: seq<Target>, table': seq<Target>, size: nat, open: bool, driver: bool,
                      requests: seq<Request>, replies: seq<Reply>, more: seq<Reply>, k: nat)
    requires table <= table' && k < |replies| && |replies + more| <= |requests|
    requires AnsweredAt(table, size, open, driver, requests, replies, k)
    ensures AnsweredAt(table', size, open, driver, requests, replies + more, k)
  {
    assert (replies + more)[..k] == replies[..k];
    hide Successes;
  }

  lemma SuccessesSnoc(replies: seq<Reply>, reply: Reply)
    ensures Successes(replies + [reply]) == Successes(replies) + Successes([reply])
  {
    assert (replies + [reply])[..|replies|] == replies && [reply][..0] == [];
  }

  lemma StillOpenStep(open: bool, requests: seq<Request>, k: nat)
    requires k < |requests|
    ensures StillOpen(open, requests, k + 1) <==> StillOpen(open, requests, k) && requests[k] != ResetBus
  {
    assert requests[..k + 1] == requests[..k] + [requests[k]];
  }

  lemma OneMoreAnswered(table: seq<Target>, table': seq<Target>, size: nat, open: bool, driver: bool,
                        requests: seq<Request>, replies: seq<Reply>, reply: Reply)
    requires table <= table' && |replies| < |requests|
    requires AllAnswered(table, size, open, driver, requests, replies)
    requires Answered(table', size + Successes(replies), StillOpen(open, requests, |replies|), driver,
                      requests[|replies|], reply)
    ensures AllAnswered(table', size, open, driver, requests, replies + [reply])
    ensures Successes(replies + [reply]) == Successes(replies) + Successes([reply])
    ensures StillOpen(open, requests, |replies| + 1) <==>
            StillOpen(open, requests, |replies|) && requests[|replies|] != ResetBus
  {
    hide Answered, Successes, StillOpen;
    SuccessesSnoc(replies, reply);
    StillOpenStep(open, requests, |replies|);
    var all := replies + [reply];
    assert all[..|replies|] == replies && all[|replies|] == reply;
    assert AnsweredAt(table', size, open, driver, requests, all, |replies|);
    hide AnsweredAt;
    forall k: nat | k < |all|
      ensures AnsweredAt(table', size, open, driver, requests, all, k)
    {
      if k < |replies| {
        StillAnswered(table, table', size, open, driver, requests, replies, [reply], k);
      }
    }
  }
}
