/**
 The 8-bit masks of a general purpose event (GPE) register, read as sets of events: the C
 operations on masks are the set operations used by the models of the register.
 */
module GpeBits {
  const EVENTS_PER_REGISTER := 8

  type Event = e: nat | e < EVENTS_PER_REGISTER

  type Mask = set<Event>

  /** gpe_get_mask: the event's bit in the masks of its register. */
  function Bit(e: Event): bv8 {
    if e == 0 then 1 else if e == 1 then 2 else if e == 2 then 4 else if e == 3 then 8
    else if e == 4 then 16 else if e == 5 then 32 else if e == 6 then 64 else 128
  }

  lemma BitsApart(e: Event, f: Event)
    ensures Bit(e) & Bit(f) == if e == f then Bit(e) else 0
    ensures Bit(e) != 0
  {}

  lemma SetElsewhere(m: bv8, b: bv8, c: bv8)
    requires b & c == 0
    ensures (m | b) & c == m & c && (m & !b) & c == m & c
  {}

  lemma SetHere(m: bv8, b: bv8)
    ensures (m | b) & b == b && (m & !b) & b == 0
  {}

  /** Setting or clearing an event's bit adds or removes that event and no other. */
  lemma ToggledBit(m: bv8, e: Event, f: Event)
    ensures (m | Bit(e)) & Bit(f) != 0 <==> m & Bit(f) != 0 || f == e
    ensures (m & !Bit(e)) & Bit(f) != 0 <==> m & Bit(f) != 0 && f != e
  {
    BitsApart(e, f);
    if e == f {
      SetHere(m, Bit(e));
    } else {
      SetElsewhere(m, Bit(e), Bit(f));
    }
  }
}

/**
 Bookkeeping of a block of general purpose events: reference counts, the runtime, current and
 masked masks and the hardware enable register, kept consistent by every operation.

 `ok` parameters say whether an operation's access to the enable register succeeds.
 */
module Gpe {
  import opened GpeBits

  const MAX_USERS := 0xFF

  datatype Status = Ok | InvalidArgument | HardwareError

  datatype Goal = Enabled | EnabledConditionally | Disabled

  datatype Action = DisableAll | EnableAllForRuntime

  /** What the handler of a dispatched event asks for. */
  datatype Response = Reenable | KeepDisabled | Deferred | NoHandler

  /** One register and its eight events. */
  datatype Register = Register(runtime: Mask, current: Mask, masked: Mask, enable: Mask,
                               users: map<Event, nat>, blocked: Mask)

  /**
   A runtime bit is set exactly for the events with users, the current mask is within the runtime
   mask, and the hardware enables only current events that are not masked.
   */
  ghost predicate Consistent(r: Register) {
    && (forall e: Event :: e in r.users && r.users[e] <= MAX_USERS && (e in r.runtime <==> r.users[e] > 0))
    && r.current <= r.runtime
    && r.enable <= r.current - r.masked
  }

  /** The register after set_gpe_state returns OK. */
  ghost function Switched(r: Register, e: Event, goal: Goal): Register {
    if goal == Disabled then r.(enable := r.enable - {e})
    else if e in r.masked || (goal == EnabledConditionally && e !in r.current) then r
    else r.(enable := r.enable + {e})
  }

  class Block {
    var registers: seq<Register>

    ghost predicate Valid()
      reads this
    {
      forall i :: 0 <= i < |registers| ==> Consistent(registers[i])
    }

    /** Only register `i` changed, and it is consistent. */
    twostate predicate Kept(i: nat)
      reads this
    {
      && |registers| == |old(registers)| && i < |registers| && Consistent(registers[i])
      && (forall k :: 0 <= k < |registers| && k != i ==> registers[k] == old(registers[k]))
    }

    method SetState(i: nat, e: Event, goal: Goal, ok: bool) returns (status: Status)
      requires i < |registers|
      modifies this
      ensures status == Ok <==> ok || (goal == EnabledConditionally && e !in old(registers[i]).current)
                                || (goal != Disabled && e in old(registers[i]).masked)
      ensures status == Ok ==> registers == old(registers)[i := Switched(old(registers[i]), e, goal)]
      ensures status != Ok ==> status == HardwareError && registers == old(registers)
    {
      var r := registers[i];
      if goal != Disabled && e in r.masked {
        return Ok;
      }
      if goal == EnabledConditionally && e !in r.current {
        return Ok;
      }
      if !ok {
        return HardwareError;
      }
      registers := registers[i := r.(enable := if goal == Disabled then r.enable - {e} else r.enable + {e})];
      return Ok;
    }

    method ToggleMasks(i: nat, e: Event, on: bool)
      requires i < |registers|
      modifies this
      ensures var m := if on then old(registers[i]).runtime + {e} else old(registers[i]).runtime - {e};
              registers == old(registers)[i := old(registers[i]).(runtime := m, current := m)]
    {
      var r := registers[i];
      var m := if on then r.runtime + {e} else r.runtime - {e};
      registers := registers[i := r.(runtime := m, current := m)];
    }

    method SetUsers(i: nat, e: Event, n: nat)
      requires i < |registers|
      modifies this
      ensures registers == old(registers)[i := old(registers[i]).(users := old(registers[i]).users[e := n])]
    {
      registers := registers[i := registers[i].(users := registers[i].users[e := n])];
    }

    /** A failed first enable takes the user back, but leaves the current mask equal to the runtime mask. */
    method AddUser(i: nat, e: Event, ok: bool) returns (status: Status)
      requires Valid() && i < |registers|
      modifies this
      ensures Valid() && Kept(i)
      ensures status == InvalidArgument <==> old(registers[i]).users[e] == MAX_USERS
      ensures status == InvalidArgument ==> registers == old(registers)
      ensures status == Ok && old(registers[i]).users[e] > 0 ==>
                var users := old(registers[i]).users;
                registers[i] == old(registers[i]).(users := users[e := users[e] + 1])
      ensures status == Ok && old(registers[i]).users[e] == 0 ==>
                var m := old(registers[i]).runtime + {e};
                registers[i] == Switched(old(registers[i]).(users := old(registers[i]).users[e := 1], runtime := m,
                                                            current := m), e, Enabled)
      ensures status == Ok && old(registers[i]).users[e] == 0 ==>
                && (e in registers[i].enable <==> e !in registers[i].masked)
                && (forall f: Event :: f != e ==> (f in registers[i].enable <==> f in old(registers[i]).enable))
      ensures status == HardwareError <==> !ok && old(registers[i]).users[e] == 0 && e !in old(registers[i]).masked
      ensures status == HardwareError ==> registers[i] == old(registers[i]).(current := old(registers[i]).runtime)
    {
      var n := registers[i].users[e];
      assert Consistent(registers[i]);
      if n == MAX_USERS {
        return InvalidArgument;
      }
      SetUsers(i, e, n + 1);
      if n + 1 == 1 {
        ToggleMasks(i, e, true);
        status := SetState(i, e, Enabled, ok);
        if status != Ok {
          ToggleMasks(i, e, false);
          SetUsers(i, e, n);
        }
      } else {
        status := Ok;
      }
    }

    /** A failed last disable gives the user back. */
    method RemoveUser(i: nat, e: Event, ok: bool) returns (status: Status)
      requires Valid() && i < |registers|
      modifies this
      ensures Valid() && Kept(i)
      ensures status == InvalidArgument <==> old(registers[i]).users[e] == 0
      ensures status == InvalidArgument ==> registers == old(registers)
      ensures status == Ok && old(registers[i]).users[e] > 1 ==>
                var users := old(registers[i]).users;
                registers[i] == old(registers[i]).(users := users[e := users[e] - 1])
      ensures status == Ok && old(registers[i]).users[e] == 1 ==>
                var m := old(registers[i]).runtime - {e};
                registers[i] == Switched(old(registers[i]).(users := old(registers[i]).users[e := 0], runtime := m,
                                                            current := m), e, Disabled)
      ensures status == Ok && old(registers[i]).users[e] == 1 ==>
                forall f: Event :: f in registers[i].enable <==> f in old(registers[i]).enable && f != e
      ensures status == HardwareError <==> !ok && old(registers[i]).users[e] == 1
      ensures status == HardwareError ==> registers[i] == old(registers[i]).(current := old(registers[i]).runtime)
    {
      var n := registers[i].users[e];
      assert Consistent(registers[i]);
      if n == 0 {
        return InvalidArgument;
      }
      SetUsers(i, e, n - 1);
      if n - 1 == 0 {
        ToggleMasks(i, e, false);
        status := SetState(i, e, Disabled, ok);
        if status != Ok {
          ToggleMasks(i, e, true);
          SetUsers(i, e, n);
        }
      } else {
        status := Ok;
      }
    }

    /**
     gpe_mask_unmask, masking. Its result does not depend on the hardware, but the block stays
     consistent exactly when the event could be switched off or was off already.
     */
    method Mask(i: nat, e: Event, ok: bool) returns (status: Status)
      requires Valid() && i < |registers|
      modifies this
      ensures status == (if e in old(registers[i]).masked then InvalidArgument else Ok)
      ensures status == InvalidArgument ==> registers == old(registers)
      ensures status == Ok ==> registers == old(registers)[i := old(registers[i]).(
                masked := old(registers[i]).masked + {e},
                enable := if ok then old(registers[i]).enable - {e} else old(registers[i]).enable)]
      ensures Valid() <==> ok || e !in old(registers[i]).enable
    {
      if e in registers[i].masked {
        assert Consistent(registers[i]);
        return InvalidArgument;
      }
      registers := registers[i := registers[i].(masked := registers[i].masked + {e})];
      var _ := SetState(i, e, Disabled, ok);
      assert forall k :: 0 <= k < |registers| && k != i ==>
             registers[k] == old(registers[k]) && Consistent(registers[k]);
      assert Consistent(old(registers[i]));
      assert Consistent(registers[i]) <==> ok || e !in old(registers[i]).enable;
      return Ok;
    }

    /** gpe_mask_unmask, unmasking: enabled again only if it has users, is current and is not being handled. */
    method Unmask(i: nat, e: Event, ok: bool) returns (status: Status)
      requires Valid() && i < |registers|
      modifies this
      ensures Valid() && Kept(i)
      ensures status == (if e in old(registers[i]).masked then Ok else InvalidArgument)
      ensures status == InvalidArgument ==> registers == old(registers)
      ensures status == Ok ==> registers[i] == old(registers[i]).(
                masked := old(registers[i]).masked - {e}, enable := registers[i].enable)
      ensures status == Ok && ok ==>
                registers[i].enable == if e in old(registers[i]).current && e !in old(registers[i]).blocked
                                       then old(registers[i]).enable + {e} else old(registers[i]).enable
    {
      if e !in registers[i].masked {
        return InvalidArgument;
      }
      assert Consistent(registers[i]);
      registers := registers[i := registers[i].(masked := registers[i].masked - {e})];
      if e !in registers[i].blocked && registers[i].users[e] > 0 {
        var _ := SetState(i, e, EnabledConditionally, ok);
      }
      return Ok;
    }

    method SetBlocked(i: nat, e: Event, on: bool)
      requires i < |registers|
      modifies this
      ensures registers == old(registers)[i := old(registers[i]).(
                blocked := if on then old(registers[i]).blocked + {e} else old(registers[i]).blocked - {e})]
    {
      var r := registers[i];
      registers := registers[i := r.(blocked := if on then r.blocked + {e} else r.blocked - {e})];
    }

    /** uacpi_suspend_gpe. */
    method Suspend(i: nat, e: Event, ok: bool) returns (status: Status)
      requires Valid() && i < |registers|
      modifies this
      ensures Valid() && Kept(i)
      ensures status == (if ok then Ok else HardwareError)
      ensures registers[i] == old(registers[i]).(
                blocked := old(registers[i]).blocked + {e},
                enable := if ok then old(registers[i]).enable - {e} else old(registers[i]).enable)
    {
      assert Consistent(registers[i]);
      SetBlocked(i, e, true);
      status := SetState(i, e, Disabled, ok);
    }

    /** restore_gpe; `cleared` says whether a level event's status bit, if it is one, could be cleared. */
    method Restore(i: nat, e: Event, cleared: bool, ok: bool) returns (status: Status)
      requires Valid() && i < |registers|
      modifies this
      ensures Valid() && Kept(i)
      ensures !cleared ==> status == HardwareError && registers == old(registers)
      ensures cleared ==>
                && (status == Ok <==> ok || e in old(registers[i]).masked || e !in old(registers[i]).current)
                && registers[i] == old(registers[i]).(
                     blocked := old(registers[i]).blocked - {e}, enable := registers[i].enable)
                && (forall f: Event :: f in registers[i].enable <==>
                     || f in old(registers[i]).enable
                     || (f == e && ok && e in old(registers[i]).current && e !in old(registers[i]).masked))
    {
      if !cleared {
        return HardwareError;
      }
      assert Consistent(registers[i]);
      status := SetState(i, e, EnabledConditionally, ok);
      SetBlocked(i, e, false);
    }

    /** dispatch_gpe for every handler but the raw one: unless re-enabled at once, the event stays off. */
    method Dispatch(i: nat, e: Event, ok: bool, cleared: bool, response: Response, restored: bool, reenabled: bool)
      requires Valid() && i < |registers|
      modifies this
      ensures Valid() && Kept(i)
      ensures !ok ==> registers == old(registers)
      ensures ok && (if cleared then response != Reenable || !restored else !reenabled) ==>
                registers[i] == old(registers[i]).(blocked := old(registers[i]).blocked + {e},
                                                   enable := old(registers[i]).enable - {e})
      ensures ok && reenabled && (cleared ==> response == Reenable && restored) ==>
                && registers[i] == old(registers[i]).(enable := registers[i].enable,
                     blocked := if cleared then old(registers[i]).blocked - {e} else old(registers[i]).blocked + {e})
                && (forall f: Event :: f in registers[i].enable <==>
                     if f == e then e in old(registers[i]).current && e !in old(registers[i]).masked
                     else f in old(registers[i]).enable)
    {
      assert Consistent(registers[i]);
      var status := SetState(i, e, Disabled, ok);
      if status != Ok {
        return;
      }
      SetBlocked(i, e, true);
      if !cleared {
        var _ := SetState(i, e, EnabledConditionally, reenabled);
        return;
      }
      if response == Reenable {
        status := Restore(i, e, restored, reenabled);
      }
    }

    /**
     gpe_block_apply_action over the registers, up to the first that cannot be written. `done` is
     how many were written. The register that failed has its current mask replaced all the same,
     so a failing disable-all breaks consistency exactly when that register still enables something.
     */
    method ApplyAction(action: Action, oks: seq<bool>) returns (status: Status, done: nat)
      requires Valid() && |oks| == |registers|
      modifies this
      ensures |registers| == |old(registers)| && done <= |registers|
      ensures status == Ok <==> done == |registers|
      ensures status != Ok ==> status == HardwareError && !oks[done]
      ensures forall k :: 0 <= k < done ==> oks[k] && Updated(old(registers[k]), action, registers[k])
      ensures forall k, e: Event :: 0 <= k < done ==>
                (e in registers[k].enable <==>
                 action == EnableAllForRuntime && old(registers[k]).users[e] > 0 && e !in old(registers[k]).masked)
                && (e in registers[k].current <==> e in registers[k].enable)
      ensures done < |registers| ==>
                Updated(old(registers[done]), action, registers[done].(enable := registers[done].current))
                && registers[done].enable == old(registers[done]).enable
      ensures forall k :: done < k < |registers| ==> registers[k] == old(registers[k])
      ensures Valid() <==> status == Ok || action == EnableAllForRuntime || old(registers[done]).enable == {}
    {
      done := 0;
      while done < |registers|
        invariant done <= |registers| == |old(registers)|
        invariant forall k :: 0 <= k < done ==> oks[k] && Updated(old(registers[k]), action, registers[k])
        invariant forall k :: done <= k < |registers| ==> registers[k] == old(registers[k])
        invariant Valid()
      {
        ghost var r := registers[done];
        assert Consistent(r);
        var ok := ApplyOne(done, action, oks[done]);
        assert forall k :: 0 <= k < |registers| && k != done ==> Consistent(registers[k]);
        if !ok {
          FailedApply(r, action, registers[done]);
          return HardwareError, done;
        }
        UpdatedConsistent(r, action, registers[done]);
        done := done + 1;
      }
      assert forall k :: 0 <= k < done ==> Consistent(old(registers[k]));
      status := Ok;
    }

    method ApplyOne(i: nat, action: Action, ok: bool) returns (written: bool)
      requires i < |registers| && Consistent(registers[i])
      modifies this
      ensures written == ok && |registers| == |old(registers)| && registers == old(registers)[i := registers[i]]
      ensures Updated(old(registers[i]), action, registers[i].(enable := registers[i].current))
      ensures registers[i].enable == if ok then registers[i].current else old(registers[i]).enable
    {
      var r := registers[i];
      var value := match action case DisableAll => {} case EnableAllForRuntime => r.runtime - r.masked;
      registers := registers[i := r.(current := value)];
      if !ok {
        return false;
      }
      registers := registers[i := registers[i].(enable := value)];
      written := true;
    }
  }

  /** Only the two masks changed: both hold the used and unmasked events, or nothing. */
  ghost predicate Updated(r: Register, action: Action, r': Register) {
    && r' == r.(current := r'.current, enable := r'.enable)
    && (forall e: Event :: e in r'.current <==>
          action == EnableAllForRuntime && e in r.users && r.users[e] > 0 && e !in r.masked)
    && r'.enable == r'.current
  }

  lemma UpdatedConsistent(r: Register, action: Action, r': Register)
    requires Consistent(r) && Updated(r, action, r')
    ensures Consistent(r')
  {}

  lemma FailedApply(r: Register, action: Action, r': Register)
    requires Consistent(r) && Updated(r, action, r'.(enable := r'.current)) && r'.enable == r.enable
    ensures Consistent(r') <==> action == EnableAllForRuntime || r.enable == {}
  {
    if action == DisableAll {
      assert r'.current == {};
    }
  }

  /** Turning all events off and on again, as around a sleep state, enables exactly the used and unmasked ones. */
  method OffAndOn(b: Block, oks: seq<bool>) returns (status: Status)
    requires b.Valid() && |oks| == |b.registers| && forall k :: 0 <= k < |oks| ==> oks[k]
    modifies b
    ensures status == Ok && b.Valid() && |b.registers| == |old(b.registers)|
    ensures forall k, e: Event :: 0 <= k < |b.registers| ==>
              (e in b.registers[k].enable <==> old(b.registers[k]).users[e] > 0 && e !in old(b.registers[k]).masked)
    ensures forall k :: 0 <= k < |b.registers| ==>
              b.registers[k].current == b.registers[k].enable && b.registers[k].users == old(b.registers[k]).users
  {
    var done;
    status, done := b.ApplyAction(DisableAll, oks);
    assert forall k :: 0 <= k < |b.registers| ==> b.registers[k].enable == {};
    status, done := b.ApplyAction(EnableAllForRuntime, oks);
  }

  // ---- Any sequence of operations

  datatype Op =
    | Enable(i: nat, e: Event, ok: bool)
    | Disable(i: nat, e: Event, ok: bool)
    | MaskOne(i: nat, e: Event, ok: bool)
    | UnmaskOne(i: nat, e: Event, ok: bool)
    | SuspendOne(i: nat, e: Event, ok: bool)
    | RestoreOne(i: nat, e: Event, cleared: bool, ok: bool)
    | DispatchOne(i: nat, e: Event, ok: bool, cleared: bool, response: Response, restored: bool, reenabled: bool)
    | ApplyAll(action: Action, oks: seq<bool>)
  {
    /** The operation names a register of the block, and a masking or disabling write does not fail. */
    ghost predicate Fits(size: nat) {
      match this
      case ApplyAll(action, oks) => |oks| == size && (action == DisableAll ==> forall k :: 0 <= k < size ==> oks[k])
      case MaskOne(i, _, ok) => i < size && ok
      case _ => this.i < size
    }
  }

  method Perform(b: Block, op: Op)
    requires b.Valid() && op.Fits(|b.registers|)
    modifies b
    ensures b.Valid() && |b.registers| == |old(b.registers)|
  {
    match op
    case Enable(i, e, ok) => var _ := b.AddUser(i, e, ok);
    case Disable(i, e, ok) => var _ := b.RemoveUser(i, e, ok);
    case MaskOne(i, e, ok) => var _ := b.Mask(i, e, ok);
    case UnmaskOne(i, e, ok) => var _ := b.Unmask(i, e, ok);
    case SuspendOne(i, e, ok) => var _ := b.Suspend(i, e, ok);
    case RestoreOne(i, e, cleared, ok) => var _ := b.Restore(i, e, cleared, ok);
    case DispatchOne(i, e, ok, cleared, response, restored, reenabled) =>
      b.Dispatch(i, e, ok, cleared, response, restored, reenabled);
    case ApplyAll(action, oks) => var _, _ := b.ApplyAction(action, oks);
  }

  /** Every sequence of operations keeps every register consistent. */
  method PerformAll(b: Block, ops: seq<Op>)
    requires b.Valid() && forall k :: 0 <= k < |ops| ==> ops[k].Fits(|b.registers|)
    modifies b
    ensures b.Valid() && |b.registers| == |old(b.registers)|
  {
    for k := 0 to |ops|
      invariant b.Valid() && |b.registers| == |old(b.registers)|
    {
      Perform(b, ops[k]);
    }
  }
}
