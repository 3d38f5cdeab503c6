/** The registry as the firmware keeps it: a fixed array of MAC slots, the
    number of slots in use, the cursor and the pending-press flag, updated in
    place by the join and poll handlers and by the button task.  Each
    method is proved to perform the corresponding step of QueueModel. */
module QueueRegistry {
  import opened Wrappers
  import opened QueueModel

  class MacQueue {
    /** user_mac_queue: MaxQueueUsers slots of 6 bytes each. */
    const slots: array<Mac>
    /** mac_queue_count */
    var count: int
    /** mac_queue_next_idx */
    var nextIdx: int
    /** boot_button_pressed_flag */
    var pressedFlag: bool

    /** The registry these fields represent. */
    ghost function Abstract(): State
      reads this, slots
      requires 0 <= count <= slots.Length
    {
      State(slots[..count], nextIdx, pressedFlag)
    }

    ghost predicate Valid()
      reads this, slots
    {
      slots.Length == MaxQueueUsers && 0 <= count <= slots.Length && Inv(Abstract())
    }

    /** The zero-initialised globals at start-up. */
    constructor ()
      ensures Valid() && fresh(slots)
      ensures Abstract() == Initial
    {
      slots := new Mac[MaxQueueUsers](_ => [0, 0, 0, 0, 0, 0]);
      count, nextIdx, pressedFlag := 0, 0, false;
    }

    /** Linear search of the used slots: the first slot holding mac, or -1
        when no used slot does. */
    method IndexOf(mac: Mac) returns (idx: int)
      requires Valid()
      ensures -1 <= idx < count
      ensures idx == -1 <==> mac !in slots[..count]
      ensures 0 <= idx ==> slots[idx] == mac && forall j :: 0 <= j < idx ==> slots[j] != mac
    {
      for i := 0 to count
        invariant forall j :: 0 <= j < i ==> slots[j] != mac
      {
        if slots[i] == mac {
          assert slots[..count][i] == mac;
          return i;
        }
      }
      return -1;
    }

    /** The queueing part of the join handler. */
    method Join(mac: Option<Mac>) returns (outcome: JoinOutcome)
      requires Valid()
      modifies this`count, slots
      ensures Valid()
      ensures (Abstract(), outcome) == JoinStep(old(Abstract()), mac)
      ensures forall j :: 0 <= j < slots.Length && j != old(count) ==> slots[j] == old(slots[j])
    {
      JoinSpec(Abstract(), mac);
      match mac
      case None =>
        outcome := NoClientMac;
      case Some(m) =>
        if count < MaxQueueUsers {
          var idx := IndexOf(m);
          if idx == -1 {
            slots[count] := m;
            count := count + 1;
            assert slots[..count] == old(slots[..count]) + [m];
            outcome := Added;
          } else {
            outcome := AlreadyQueued;
          }
        } else {
          outcome := QueueFull;
        }
    }

    /** The decision logic of the poll handler; mac is None when no station
        MAC could be obtained. */
    method Poll(mac: Option<Mac>) returns (r: Response)
      requires Valid()
      modifies this`nextIdx, this`pressedFlag
      ensures Valid()
      ensures (r, Abstract()) == PollStep(old(Abstract()), mac)
    {
      PollSpec(Abstract(), mac);
      if mac.None? {
        return Empty;
      }
      var m := mac.value;
      if pressedFlag && nextIdx < count {
        if slots[nextIdx] == m {
          r := Proceed;
          nextIdx := nextIdx + 1;
          pressedFlag := false;
        } else {
          var idx := IndexOf(m);
          r := if idx != -1 then InQueue else Empty;
        }
      } else {
        // The handler logs "at head, waiting" apart from "further back";
        // both answer IN_QUEUE.
        var idx := IndexOf(m);
        r := if idx != -1 then InQueue else Empty;
      }
    }

    /** The button task setting the pending-press flag. */
    method SignalPress()
      requires Valid()
      modifies this`pressedFlag
      ensures Valid()
      ensures Abstract() == PressStep(old(Abstract()))
    {
      pressedFlag := true;
    }
  }

  /** Three stations join, the button is pressed, then the second station
      polls before the first: it is told to wait, the first proceeds, and a
      later poll of the second waits for the next press. */
  method HeadProceedsOthersWait(a: Mac, b: Mac, c: Mac)
    requires a != b && b != c && a != c
  {
    var q := new MacQueue();
    var o := q.Join(Some(a));  assert o == Added;
    o := q.Join(Some(b));  assert o == Added;
    o := q.Join(Some(c));  assert o == Added;
    o := q.Join(Some(b));  assert o == AlreadyQueued;
    q.SignalPress();
    var r := q.Poll(Some(b));  assert r == InQueue;
    r := q.Poll(Some(a));  assert r == Proceed;
    r := q.Poll(Some(b));  assert r == InQueue;
    r := q.Poll(None);  assert r == Empty;
    assert q.nextIdx == 1 && !q.pressedFlag;
  }
}
