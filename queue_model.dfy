/** The kiosk's client queue as values: the registry of queued station MACs,
    the join rule, the poll decision and the button press, and what they
    guarantee over any sequence of joins, polls and presses.  The class in
    module QueueRegistry implements these steps in place and is proved
    against them. */
module QueueModel {
  import opened Wrappers

  /** Capacity of the registry (MAX_QUEUE_USERS). */
  const MaxQueueUsers: nat := 50

  /** A station's 6-byte MAC address: the identity of a client. */
  type Mac = s: seq<bv8> | |s| == 6 witness [0, 0, 0, 0, 0, 0]

  /** The three answers a poll can give. */
  datatype Response = Proceed | InQueue | Empty

  /** The plain-text body sent for each answer. */
  function Body(r: Response): string
  {
    match r
    case Proceed => "PROCEED"
    case InQueue => "IN_QUEUE"
    case Empty => ""
  }

  /** Which branch of the join handler was taken; the handler only logs it
      and always answers with a redirect to "/". */
  datatype JoinOutcome = Added | AlreadyQueued | QueueFull | NoClientMac

  /** The registry: queued MACs in join order (user_mac_queue[0..count)),
      the cursor of the next one to call (mac_queue_next_idx) and the
      pending-press flag (boot_button_pressed_flag). */
  datatype State = State(queue: seq<Mac>, next: int, flag: bool)

  /** The registry at start-up. */
  const Initial: State := State([], 0, false)

  predicate NoDuplicates(q: seq<Mac>)
  {
    forall i, j :: 0 <= i < j < |q| ==> q[i] != q[j]
  }

  /** What every reachable registry satisfies. */
  predicate Inv(s: State)
  {
    0 <= s.next <= |s.queue| <= MaxQueueUsers && NoDuplicates(s.queue)
  }

  /** The join rule: a MAC that was obtained is appended when there is room
      and it is not queued yet; otherwise nothing changes. */
  function JoinStep(s: State, mac: Option<Mac>): (State, JoinOutcome)
  {
    match mac
    case None => (s, NoClientMac)
    case Some(m) =>
      if |s.queue| < MaxQueueUsers then
        if m !in s.queue then (s.(queue := s.queue + [m]), Added)
        else (s, AlreadyQueued)
      else (s, QueueFull)
  }

  /** m is the entry under the cursor. */
  predicate IsHead(s: State, m: Mac)
  {
    0 <= s.next < |s.queue| && s.queue[s.next] == m
  }

  /** The poll decision: the head of the queue proceeds when a press is
      pending, which moves the cursor and consumes the press; every other
      poll only reports whether the client is queued. */
  function PollStep(s: State, mac: Option<Mac>): (Response, State)
  {
    match mac
    case None => (Empty, s)
    case Some(m) =>
      if s.flag && IsHead(s, m) then (Proceed, s.(next := s.next + 1, flag := false))
      else if m in s.queue then (InQueue, s)
      else (Empty, s)
  }

  /** The button task raising the pending-press flag. */
  function PressStep(s: State): State
  {
    s.(flag := true)
  }

  lemma NoDuplicatesAppend(q: seq<Mac>, m: Mac)
    requires NoDuplicates(q) && m !in q
    ensures NoDuplicates(q + [m])
  {
  }

  /** Join appends the MAC exactly when it was obtained, the queue has room
      and it is absent; in every other case the registry is untouched.  The
      invariant (bounded, no duplicates) is kept. */
  lemma JoinSpec(s: State, mac: Option<Mac>)
    requires Inv(s)
    ensures Inv(JoinStep(s, mac).0)
    ensures JoinStep(s, mac).1 == Added <==>
              mac.Some? && |s.queue| < MaxQueueUsers && mac.value !in s.queue
    ensures JoinStep(s, mac).1 == Added ==>
              JoinStep(s, mac).0 == s.(queue := s.queue + [mac.value])
    ensures JoinStep(s, mac).1 != Added ==> JoinStep(s, mac).0 == s
    ensures JoinStep(s, mac).1 == NoClientMac <==> mac.None?
    ensures JoinStep(s, mac).1 == QueueFull <==> mac.Some? && |s.queue| >= MaxQueueUsers
  {
  }

  /** A poll answers PROCEED exactly when a press is pending, the cursor is
      inside the queue and the client is the entry under it; then the cursor
      moves by one and the press is consumed.  Otherwise nothing changes and
      the answer is IN_QUEUE exactly when the client is queued. */
  lemma PollSpec(s: State, mac: Option<Mac>)
    requires Inv(s)
    ensures Inv(PollStep(s, mac).1)
    ensures PollStep(s, mac).0 == Proceed <==>
              mac.Some? && s.flag && s.next < |s.queue| && s.queue[s.next] == mac.value
    ensures PollStep(s, mac).0 == Proceed ==>
              PollStep(s, mac).1 == s.(next := s.next + 1, flag := false)
    ensures PollStep(s, mac).0 != Proceed ==> PollStep(s, mac).1 == s
    ensures PollStep(s, mac).0 == InQueue <==>
              PollStep(s, mac).0 != Proceed && mac.Some? && mac.value in s.queue
    ensures mac.None? ==> PollStep(s, mac).0 == Empty
  {
  }

  /** One request or press, applied atomically. */
  datatype Event = JoinRequest(mac: Option<Mac>) | PollRequest(mac: Option<Mac>) | ButtonPress

  function Apply(s: State, e: Event): State
  {
    match e
    case JoinRequest(mac) => JoinStep(s, mac).0
    case PollRequest(mac) => PollStep(s, mac).1
    case ButtonPress => PressStep(s)
  }

  /** The registry after a sequence of events. */
  function Run(s: State, evs: seq<Event>): State
    decreases |evs|
  {
    if evs == [] then s else Run(Apply(s, evs[0]), evs[1..])
  }

  /** The MACs that were answered PROCEED, in the order of the answers. */
  function Called(s: State, evs: seq<Event>): seq<Mac>
    decreases |evs|
  {
    if evs == [] then []
    else
      var e := evs[0];
      (if e.PollRequest? && PollStep(s, e.mac).0 == Proceed then [e.mac.value] else [])
      + Called(Apply(s, e), evs[1..])
  }

  function PressCount(evs: seq<Event>): nat
    decreases |evs|
  {
    if evs == [] then 0 else (if evs[0].ButtonPress? then 1 else 0) + PressCount(evs[1..])
  }

  /** Every event keeps the invariant, only appends to the queue and never
      moves the cursor back. */
  lemma ApplySpec(s: State, e: Event)
    requires Inv(s)
    ensures Inv(Apply(s, e))
    ensures s.queue <= Apply(s, e).queue
    ensures s.next <= Apply(s, e).next
  {
    match e
    case JoinRequest(mac) => JoinSpec(s, mac);
    case PollRequest(mac) => PollSpec(s, mac);
    case ButtonPress =>
  }

  /** Over any sequence of events the invariant holds, the queue only grows
      at its end and the cursor never moves back; so the queue never holds a
      MAC twice and never more than MaxQueueUsers entries. */
  lemma {:induction false} RunPreservesInv(s: State, evs: seq<Event>)
    requires Inv(s)
    ensures Inv(Run(s, evs))
    ensures s.queue <= Run(s, evs).queue
    ensures s.next <= Run(s, evs).next
    decreases |evs|
  {
    if evs != [] {
      ApplySpec(s, evs[0]);
      RunPreservesInv(Apply(s, evs[0]), evs[1..]);
    }
  }

  /** Clients are called strictly in join order: the MACs answered PROCEED
      are exactly the queue entries the cursor passed over. */
  lemma {:induction false} CalledInJoinOrder(s: State, evs: seq<Event>)
    requires Inv(s)
    ensures s.next <= Run(s, evs).next <= |Run(s, evs).queue|
    ensures Called(s, evs) == Run(s, evs).queue[s.next..Run(s, evs).next]
    decreases |evs|
  {
    RunPreservesInv(s, evs);
    if evs != [] {
      var e, s' := evs[0], Apply(s, evs[0]);
      ApplySpec(s, e);
      CalledInJoinOrder(s', evs[1..]);
      RunPreservesInv(s', evs[1..]);
      var fin := Run(s, evs);
      assert fin == Run(s', evs[1..]);
      if e.PollRequest? && PollStep(s, e.mac).0 == Proceed {
        PollSpec(s, e.mac);
        assert s' == s.(next := s.next + 1, flag := false);
        assert fin.queue[s.next] == s.queue[s.next] == e.mac.value;
        assert fin.queue[s.next..fin.next] == [fin.queue[s.next]] + fin.queue[s.next + 1..fin.next];
      } else {
        assert s'.next == s.next by {
          match e
          case JoinRequest(mac) => JoinSpec(s, mac);
          case PollRequest(mac) => PollSpec(s, mac);
          case ButtonPress =>
        }
      }
    }
  }

  /** No client is answered PROCEED twice. */
  lemma CalledAtMostOnce(s: State, evs: seq<Event>)
    requires Inv(s)
    ensures NoDuplicates(Called(s, evs))
  {
    CalledInJoinOrder(s, evs);
    RunPreservesInv(s, evs);
    var fin := Run(s, evs);
    var c := Called(s, evs);
    forall i, j | 0 <= i < j < |c| ensures c[i] != c[j] {
      assert c[i] == fin.queue[s.next + i] && c[j] == fin.queue[s.next + j];
    }
  }

  /** Each press authorises at most one PROCEED: the PROCEED answers, plus a
      press still pending at the end, never exceed the presses plus a press
      pending at the start.  A press made while one is pending is lost. */
  lemma {:induction false} OneProceedPerPress(s: State, evs: seq<Event>)
    requires Inv(s)
    ensures |Called(s, evs)| + (if Run(s, evs).flag then 1 else 0)
            <= PressCount(evs) + (if s.flag then 1 else 0)
    decreases |evs|
  {
    if evs != [] {
      var e := evs[0];
      ApplySpec(s, e);
      OneProceedPerPress(Apply(s, e), evs[1..]);
      match e
      case JoinRequest(mac) => JoinSpec(s, mac);
      case PollRequest(mac) => PollSpec(s, mac);
      case ButtonPress =>
    }
  }

  /** The cursor counts the PROCEED answers given. */
  lemma CursorCountsProceeds(s: State, evs: seq<Event>)
    requires Inv(s)
    ensures Run(s, evs).next == s.next + |Called(s, evs)|
  {
    CalledInJoinOrder(s, evs);
  }
}
