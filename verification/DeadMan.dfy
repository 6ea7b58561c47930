/**
 `main/pc_control.c`: the dead-man timer of the PC control link. Without a state command for
 500 ms the buttons are released and the sticks centred.

 Times are the microseconds of the system timer; JSON parsing is not modelled, a missing or
 non-integral number is -1.
 */
module DeadMan {

  const TIMEOUT := 500000

  datatype Controls = Controls(right: nat, shared: nat, left: nat, lx: nat, ly: nat, rx: nat, ry: nat)

  /** `controller_state_init` */
  const NEUTRAL: Controls := Controls(0, 0, 0, 0x800, 0x800, 0x800, 0x800)

  datatype Request = Request(r: int, s: int, l: int, lx: int, ly: int, rx: int, ry: int)

  predicate InRange(q: Request) {
    && 0 <= q.r <= 255 && 0 <= q.s <= 63 && 0 <= q.l <= 255
    && 0 <= q.lx <= 4095 && 0 <= q.ly <= 4095 && 0 <= q.rx <= 4095 && 0 <= q.ry <= 4095
  }

  function Requested(q: Request): Controls
    requires InRange(q)
  {
    Controls(q.r, q.s, q.l, q.lx, q.ly, q.rx, q.ry)
  }

  datatype State = State(linked: bool, lastState: int, controls: Controls)

  datatype Event =
    | Connection(connected: bool)
    | ReleaseCommand
    | StateCommand(request: Request, now: int)
    | Poll(now: int)

  function Released(s: State): State {
    s.(lastState := 0, controls := NEUTRAL)
  }

  function Next(s: State, e: Event): State {
    match e
    case Connection(connected) => Released(s.(linked := connected))
    case ReleaseCommand => Released(s)
    case StateCommand(q, now) =>
      if !InRange(q) then s
      else if !s.linked then Released(s)
      else s.(controls := Requested(q), lastState := now)
    case Poll(now) => if s.lastState != 0 && now - s.lastState > TIMEOUT then Released(s) else s
  }

  const INITIAL: State := State(false, 0, NEUTRAL)

  function Run(s: State, es: seq<Event>): State {
    if es == [] then s else Next(Run(s, es[..|es| - 1]), es[|es| - 1])
  }

  lemma RunStep(es: seq<Event>, e: Event)
    ensures Run(INITIAL, es + [e]) == Next(Run(INITIAL, es), e)
  {
    assert (es + [e])[..|es|] == es;
  }

  // ----- What is held, from the events alone -----

  /** What the last connection event said. */
  predicate LinkedAfter(es: seq<Event>) {
    if es == [] then false
    else
      var e := es[|es| - 1];
      if e.Connection? then e.connected else LinkedAfter(es[..|es| - 1])
  }

  /** Event i is a state command that is obeyed. */
  predicate Accepted(es: seq<Event>, i: nat) {
    i < |es| && es[i].StateCommand? && InRange(es[i].request) && LinkedAfter(es[..i])
  }

  /** e puts an end to a state that was applied at time t; time zero escapes the timer. */
  predicate Ends(e: Event, t: int) {
    match e
    case Connection(_) => true
    case ReleaseCommand => true
    case StateCommand(q, _) => InRange(q)
    case Poll(now) => t != 0 && now - t > TIMEOUT
  }

  /** Event i was obeyed, and nothing has put an end to it since. */
  ghost predicate InForce(es: seq<Event>, i: nat) {
    Accepted(es, i) && forall j :: i < j < |es| ==> !Ends(es[j], es[i].now)
  }

  lemma {:induction false} LinkedIsLast(es: seq<Event>)
    ensures Run(INITIAL, es).linked <==> LinkedAfter(es)
  {
    if es != [] {
      LinkedIsLast(es[..|es| - 1]);
    }
  }

  lemma StillInForce(es: seq<Event>, e: Event, i: nat)
    ensures InForce(es + [e], i) <==>
      if i == |es| then Accepted(es + [e], i) else InForce(es, i) && !Ends(e, es[i].now)
  {
    var fs := es + [e];
    if i < |es| {
      assert fs[..i] == es[..i] && fs[i] == es[i];
      assert fs[|es|] == e;
      assert forall j :: i < j < |es| ==> fs[j] == es[j];
    }
  }

  /** The state is that of the command in force. */
  ghost predicate Follows(s: State, es: seq<Event>) {
    && (forall i: nat :: InForce(es, i) ==> s.linked && s.controls == Requested(es[i].request) && s.lastState == es[i].now)
    && ((forall i: nat :: !InForce(es, i)) ==> s.controls == NEUTRAL && s.lastState == 0)
  }

  lemma FollowsNext(s: State, es: seq<Event>, e: Event)
    requires Follows(s, es) && (s.linked <==> LinkedAfter(es))
    ensures Follows(Next(s, e), es + [e])
  {
    var fs, n := es + [e], |es|;
    assert fs[..n] == es && fs[n] == e;
    forall i: nat ensures InForce(fs, i) <==> if i == n then Accepted(fs, n) else InForce(es, i) && !Ends(e, es[i].now) {
      StillInForce(es, e, i);
    }
    if Accepted(fs, n) {
      assert InForce(fs, n);
    } else if i: nat :| InForce(es, i) {
      assert InForce(fs, i) <==> !Ends(e, es[i].now);
    }
  }

  /** In every run the state is that of the command in force, or neutral if there is none. */
  lemma {:induction false} RunFollows(es: seq<Event>)
    ensures Follows(Run(INITIAL, es), es)
  {
    if es == [] {
      assert forall i: nat :: !InForce(es, i);
    } else {
      var n := |es| - 1;
      RunFollows(es[..n]);
      LinkedIsLast(es[..n]);
      FollowsNext(Run(INITIAL, es[..n]), es[..n], es[n]);
      assert es[..n] + [es[n]] == es;
    }
  }

  /** Something is held exactly if a command in force requested it. */
  lemma HeldExactly(es: seq<Event>, c: Controls)
    requires c != NEUTRAL
    ensures Run(INITIAL, es).controls == c <==> exists i: nat :: InForce(es, i) && Requested(es[i].request) == c
  {
    RunFollows(es);
  }

  // ----- Safety -----

  /** Without a connection nothing is held. */
  ghost predicate Inv(s: State) {
    !s.linked ==> s.lastState == 0 && s.controls == NEUTRAL
  }

  lemma {:induction false} DisconnectedIsNeutral(es: seq<Event>)
    ensures Inv(Run(INITIAL, es))
  {
    RunFollows(es);
  }

  /**
   After a poll at time now exactly that is held which a command in force requested, over a
   connection that is still up, at most 500 ms before or at time zero.
   */
  lemma HeldAfterPoll(es: seq<Event>, now: int, c: Controls)
    requires c != NEUTRAL
    ensures Run(INITIAL, es + [Poll(now)]).controls == c <==>
      exists i: nat :: InForce(es, i) && Requested(es[i].request) == c && (es[i].now == 0 || now - es[i].now <= 500000)
    ensures Run(INITIAL, es + [Poll(now)]).controls == c ==> Run(INITIAL, es).linked
  {
    RunStep(es, Poll(now));
    RunFollows(es);
  }

  /** So silence for more than 500 ms releases everything but a command applied at time zero. */
  lemma SilenceReleases(es: seq<Event>, now: int)
    requires forall i :: 0 <= i < |es| && es[i].StateCommand? ==> now - es[i].now > 500000
    ensures Run(INITIAL, es + [Poll(now)]).controls != NEUTRAL <==>
      exists i: nat :: InForce(es, i) && es[i].now == 0 && Requested(es[i].request) != NEUTRAL
  {
    RunStep(es, Poll(now));
    RunFollows(es);
  }

  /**
   Zero doubles as "no state yet", so the timer works exactly for commands that do not fall on
   time zero: a command accepted then is never released by polling.
   */
  lemma ReleasedUnlessAtZero(s: State, q: Request, t: int)
    requires s.linked && InRange(q) && Requested(q) != NEUTRAL
    ensures (forall now :: now - t > TIMEOUT ==> Next(Next(s, StateCommand(q, t)), Poll(now)).controls == NEUTRAL) <==> t != 0
  {
    if t == 0 {
      assert (t + TIMEOUT + 1) - t > TIMEOUT;
      assert Next(Next(s, StateCommand(q, t)), Poll(t + TIMEOUT + 1)).controls == Requested(q);
    }
  }

  // ----- The variables of the C file -----

  class Control {
    var linked: bool
    var lastState: int
    var controls: Controls
    /** The events since start-up. */
    ghost var history: seq<Event>

    ghost predicate Valid()
      reads this
    {
      State(linked, lastState, controls) == Run(INITIAL, history)
    }

    /** Static storage; `controller_state_init` runs at start-up. */
    constructor ()
      ensures Valid() && history == []
    {
      linked, lastState, controls, history := false, 0, NEUTRAL, [];
    }

    method Release()
      modifies this`controls, this`lastState
      ensures controls == NEUTRAL && lastState == 0
    {
      controls := NEUTRAL;
      lastState := 0;
    }

    ghost method Record(e: Event)
      requires State(linked, lastState, controls) == Next(Run(INITIAL, history), e)
      modifies this`history
      ensures Valid() && history == old(history) + [e]
    {
      RunStep(history, e);
      history := history + [e];
    }

    /** `pc_control_connection` */
    method SetConnection(connected: bool)
      requires Valid()
      modifies this
      ensures Valid() && history == old(history) + [Connection(connected)]
      ensures linked == connected && controls == Controls(0, 0, 0, 0x800, 0x800, 0x800, 0x800)
      ensures forall i: nat :: !InForce(history, i)
    {
      linked := connected;
      Release();
      Record(Connection(connected));
      assert history[|history| - 1] == Connection(connected);
    }

    /** The `release` branch of `command`. */
    method ObeyRelease()
      requires Valid()
      modifies this
      ensures Valid() && history == old(history) + [ReleaseCommand]
      ensures linked == old(linked) && controls == Controls(0, 0, 0, 0x800, 0x800, 0x800, 0x800)
      ensures forall i: nat :: !InForce(history, i)
    {
      Release();
      Record(ReleaseCommand);
      assert history[|history| - 1] == ReleaseCommand;
    }

    /** The `state` branch of `command`. */
    method ApplyState(q: Request, now: int) returns (ok: bool)
      requires Valid()
      modifies this
      ensures Valid() && history == old(history) + [StateCommand(q, now)]
      ensures ok <==> InForce(history, |history| - 1)
      ensures ok <==>
        && linked && 0 <= q.r <= 255 && 0 <= q.s <= 63 && 0 <= q.l <= 255
        && 0 <= q.lx <= 4095 && 0 <= q.ly <= 4095 && 0 <= q.rx <= 4095 && 0 <= q.ry <= 4095
      ensures ok ==> controls.right == q.r && controls.shared == q.s && controls.left == q.l
      ensures ok ==> controls.lx == q.lx && controls.ly == q.ly && controls.rx == q.rx && controls.ry == q.ry
      ensures !ok ==> controls == if InRange(q) then NEUTRAL else old(controls)
      ensures !linked ==> !ok && controls == NEUTRAL
    {
      LinkedIsLast(history);
      DisconnectedIsNeutral(history);
      ok := Apply(q, now);
      Record(StateCommand(q, now));
      assert history[..|history| - 1] == old(history);
    }

    method Apply(q: Request, now: int) returns (ok: bool)
      modifies this`controls, this`lastState
      ensures ok <==> InRange(q) && linked
      ensures State(linked, lastState, controls) == Next(old(State(linked, lastState, controls)), StateCommand(q, now))
    {
      if !InRange(q) {
        return false;
      }
      if !linked {
        Release();
        return false;
      }
      controls := Requested(q);
      lastState := now;
      return true;
    }

    /** The end of `pc_control_poll`: nothing is held longer than 500 ms, and nothing is released earlier. */
    method CheckTimer(now: int)
      requires Valid()
      modifies this
      ensures Valid() && history == old(history) + [Poll(now)]
      ensures controls != NEUTRAL ==>
        exists i: nat :: InForce(history, i) && controls == Requested(history[i].request)
                      && (history[i].now == 0 || now - history[i].now <= 500000)
      ensures (exists i: nat :: InForce(old(history), i) && now - old(history)[i].now <= 500000) ==> controls == old(controls)
    {
      RunFollows(history);
      if lastState != 0 && now - lastState > TIMEOUT {
        Release();
      }
      Record(Poll(now));
      RunFollows(history);
      if controls != NEUTRAL {
        ghost var i: nat :| InForce(history, i);
        StillInForce(old(history), Poll(now), i);
      }
    }
  }
}
