/**
 The presentation workflow as a state machine over all interleavings of user calls, replies,
 timers, observations and resets.

 Callbacks handed to send and schedule are values, `Continuation`, tagged with the generation
 they captured; `pending` holds those not yet invoked, `sent` what went to the device. Each
 pending callback is invoked once, at any later time.
 */
module PresenterRuns {

  datatype Option<T> = None | Some(value: T)

  /** A JSON value, as far as Python's truth test and `is False` can tell. */
  datatype Value = Missing | True | False | Other(truth: bool)

  predicate Truthy(v: Value): (t: bool)
    ensures !t <==> v == Missing || v == False || v == Other(false)
  {
    v == True || (v.Other? && v.truth)
  }

  datatype Reply = Reply(ok: Value, loaded: Value, crc: Option<int>)

  /** A validated file: the load command that load_bin builds, and its resolved path. */
  datatype Candidate = Candidate(path: string, crc: int)

  datatype Command = Unload(generation: nat) | Load(generation: nat, candidate: Candidate)

  datatype Continuation =
    | Unloaded(generation: nat, next: Option<Candidate>)
    | Gap(generation: nat, candidate: Candidate, milliseconds: nat)
    | Loaded(generation: nat, candidate: Candidate)

  datatype Phase = Idle | Replacing | Waiting | Presenting | Removing

  datatype State = State(busy: bool, phase: Phase, path: Option<string>, lastPath: Option<string>,
                         crc: Option<int>, loaded: Value, generation: nat,
                         pending: multiset<Continuation>, sent: seq<Command>, errors: nat)

  datatype Event =
    | DoReset
    | DoObserve(reply: Reply)
    | DoPresent(file: Option<Candidate>)
    | DoRemove
    | DoReply(callback: Continuation, reply: Reply)
    | DoTimer(callback: Continuation)

  function Initial(): State {
    State(false, Idle, None, None, None, Missing, 0, multiset{}, [], 0)
  }

  function Finish(s: State): State {
    s.(busy := false, phase := Idle)
  }

  function Fail(s: State): State {
    Finish(s).(errors := s.errors + 1)
  }

  function Reset(s: State): State {
    s.(generation := s.generation + 1, busy := false, phase := Idle, path := None, crc := None, loaded := Missing)
  }

  function Observe(s: State, reply: Reply): State {
    var t := s.(loaded := reply.loaded);
    if !Truthy(t.loaded) || reply.crc != t.crc then t.(path := None, crc := None) else t
  }

  /** `_start`, and the unload that present and remove begin with. */
  function Start(s: State, next: Option<Candidate>): State {
    s.(generation := s.generation + 1, busy := true, phase := if next.Some? then Replacing else Removing,
       pending := s.pending + multiset{Unloaded(s.generation + 1, next)},
       sent := s.sent + [Unload(s.generation + 1)])
  }

  /** `removed`, once the reply is accepted. */
  function UnloadConfirmed(s: State, next: Option<Candidate>, reply: Reply): State {
    if reply.loaded != False then Fail(s)
    else
      var t := s.(loaded := False, path := None, crc := None);
      if next.None? then Finish(t)
      else t.(phase := Waiting, pending := s.pending + multiset{Gap(s.generation, next.value, 500)})
  }

  /** `loaded`, once the reply is accepted. */
  function LoadConfirmed(s: State, candidate: Candidate, reply: Reply): State {
    if !Truthy(reply.loaded) || reply.crc != Some(candidate.crc) then Fail(s)
    else Finish(s.(path := Some(candidate.path), lastPath := Some(candidate.path), loaded := True,
                   crc := Some(candidate.crc)))
  }

  /** The reply to an unload or load command. */
  function Replied(s: State, k: Continuation, reply: Reply): State {
    if k.generation != s.generation then s
    else if !Truthy(reply.ok) then Fail(s)
    else match k
      case Unloaded(_, next) => UnloadConfirmed(s, next, reply)
      case Loaded(_, candidate) => LoadConfirmed(s, candidate, reply)
      case Gap(_, _, _) => s
  }

  /** The end of the gap. */
  function Elapsed(s: State, k: Continuation): State {
    if k.generation != s.generation || !k.Gap? then s
    else s.(phase := Presenting,
            pending := s.pending + multiset{Loaded(k.generation, k.candidate)},
            sent := s.sent + [Load(k.generation, k.candidate)])
  }

  function Invoke(s: State, k: Continuation): State {
    s.(pending := s.pending - multiset{k})
  }

  function Next(s: State, e: Event): State {
    match e
    case DoReset => Reset(s)
    case DoObserve(reply) => Observe(s, reply)
    case DoPresent(file) => if s.busy || file.None? then s else Start(s, file)
    case DoRemove => if s.busy then s else Start(s, None)
    case DoReply(k, reply) => if k in s.pending && !k.Gap? then Replied(Invoke(s, k), k, reply) else s
    case DoTimer(k) => if k in s.pending && k.Gap? then Elapsed(Invoke(s, k), k) else s
  }

  function Run(s: State, es: seq<Event>): State {
    if es == [] then s else Next(Run(s, es[..|es| - 1]), es[|es| - 1])
  }

  lemma RunStep(es: seq<Event>, e: Event)
    ensures Run(Initial(), es + [e]) == Next(Run(Initial(), es), e)
  {
    assert (es + [e])[..|es|] == es;
  }

  // ----- The invariant -----

  /** The callbacks of the current generation. */
  ghost predicate Live(s: State, k: Continuation) {
    k in s.pending && k.generation == s.generation
  }

  /** The phase that shows while k is awaited. */
  function PhaseOf(k: Continuation): Phase {
    match k
    case Unloaded(_, next) => if next.Some? then Replacing else Removing
    case Gap(_, _, _) => Waiting
    case Loaded(_, _) => Presenting
  }

  ghost predicate Inv(s: State) {
    // no callback is from the future, and no generation has two
    && (forall k :: k in s.pending ==> k.generation <= s.generation && s.pending[k] == 1)
    && (forall k, l :: k in s.pending && l in s.pending && k.generation == l.generation ==> k == l)
    // busy exactly while a callback of the current generation is awaited
    && (s.busy <==> exists k :: Live(s, k))
    && (forall k :: Live(s, k) ==> s.phase == PhaseOf(k))
    && (!s.busy ==> s.phase == Idle)
    // a shown file has been confirmed and not contradicted; none is shown once it was removed
    && (s.path.Some? ==> Truthy(s.loaded))
    && (s.path.Some? <==> s.crc.Some?)
    && (forall k :: Live(s, k) && !k.Unloaded? ==> s.path.None? && s.crc.None?)
  }

  lemma StartInv(s: State, next: Option<Candidate>)
    requires Inv(s) && !s.busy
    ensures Inv(Start(s, next))
  {
    var t := Start(s, next);
    assert Live(t, Unloaded(t.generation, next));
  }

  lemma InvokedInv(s: State, k: Continuation)
    requires Inv(s) && k in s.pending
    ensures var t := Invoke(s, k);
      && (forall l :: l in t.pending <==> l in s.pending && l != k)
      && (forall l :: l in t.pending ==> t.pending[l] == 1 && l.generation != k.generation)
  {
  }

  lemma StaleInv(s: State, k: Continuation)
    requires Inv(s) && k in s.pending && k.generation != s.generation
    ensures Inv(Invoke(s, k))
  {
    var t := Invoke(s, k);
    InvokedInv(s, k);
    assert forall l :: Live(t, l) <==> Live(s, l);
  }

  lemma EndInv(s: State, k: Continuation, t: State)
    requires Inv(s) && Live(s, k)
    requires t.pending == Invoke(s, k).pending && t.generation == s.generation && !t.busy && t.phase == Idle
    requires (t.path.Some? ==> Truthy(t.loaded)) && (t.path.Some? <==> t.crc.Some?)
    ensures Inv(t)
  {
    InvokedInv(s, k);
    assert forall l :: !Live(t, l);
  }

  lemma ContinueInv(s: State, k: Continuation, t: State, l: Continuation)
    requires Inv(s) && Live(s, k)
    requires t.pending == Invoke(s, k).pending + multiset{l} && l.generation == t.generation == s.generation
    requires t.busy && t.phase == PhaseOf(l) && t.path.None? && t.crc.None?
    ensures Inv(t)
  {
    InvokedInv(s, k);
    assert forall m :: m in t.pending <==> m in Invoke(s, k).pending || m == l;
    assert Live(t, l);
  }

  lemma RepliedInv(s: State, k: Continuation, reply: Reply)
    requires Inv(s) && k in s.pending && !k.Gap?
    ensures Inv(Replied(Invoke(s, k), k, reply))
  {
    var t := Replied(Invoke(s, k), k, reply);
    if k.generation != s.generation {
      StaleInv(s, k);
      return;
    }
    assert Live(s, k);
    if Truthy(reply.ok) && k.Unloaded? && k.next.Some? && reply.loaded == False {
      ContinueInv(s, k, t, Gap(k.generation, k.next.value, 500));
    } else {
      EndInv(s, k, t);
    }
  }

  lemma ElapsedInv(s: State, k: Continuation)
    requires Inv(s) && k in s.pending && k.Gap?
    ensures Inv(Elapsed(Invoke(s, k), k))
  {
    if k.generation != s.generation {
      StaleInv(s, k);
    } else {
      assert Live(s, k);
      ContinueInv(s, k, Elapsed(Invoke(s, k), k), Loaded(k.generation, k.candidate));
    }
  }

  lemma ResetInv(s: State)
    requires Inv(s)
    ensures Inv(Reset(s))
  {
    assert forall k :: !Live(Reset(s), k);
  }

  lemma ObserveInv(s: State, reply: Reply)
    requires Inv(s)
    ensures Inv(Observe(s, reply))
  {
    assert forall k :: Live(Observe(s, reply), k) <==> Live(s, k);
  }

  lemma NextInv(s: State, e: Event)
    requires Inv(s)
    ensures Inv(Next(s, e))
  {
    match e
    case DoReset => ResetInv(s);
    case DoObserve(reply) => ObserveInv(s, reply);
    case DoPresent(file) =>
      if !s.busy && file.Some? {
        StartInv(s, file);
      }
    case DoRemove =>
      if !s.busy {
        StartInv(s, None);
      }
    case DoReply(k, reply) =>
      if k in s.pending && !k.Gap? {
        RepliedInv(s, k, reply);
      }
    case DoTimer(k) =>
      if k in s.pending && k.Gap? {
        ElapsedInv(s, k);
      }
  }

  /** The invariant holds in every reachable state. */
  lemma {:induction false} Reachable(es: seq<Event>)
    ensures Inv(Run(Initial(), es))
  {
    if es != [] {
      Reachable(es[..|es| - 1]);
      NextInv(Run(Initial(), es[..|es| - 1]), es[|es| - 1]);
    }
  }

  /** Busy exactly when one callback of the current generation is still to come. */
  lemma BusyMeansAwaiting(es: seq<Event>)
    ensures var s := Run(Initial(), es);
      && (s.busy <==> exists k :: Live(s, k))
      && (forall k, l :: Live(s, k) && Live(s, l) ==> k == l && s.pending[k] == 1)
  {
    Reachable(es);
  }

  // ----- What is awaited -----

  /** k is the one callback of the current generation that is still to come. */
  ghost predicate Awaits(s: State, k: Continuation) {
    s.busy && forall l :: Live(s, l) <==> l == k
  }

  /** No callback to come has any effect. */
  ghost predicate AwaitsNothing(s: State) {
    !s.busy && forall l :: !Live(s, l)
  }

  lemma BusyOrNot(s: State)
    requires Inv(s)
    ensures AwaitsNothing(s) <==> !s.busy
  {
  }

  lemma AfterReset(s: State)
    requires Inv(s)
    ensures AwaitsNothing(Reset(s))
  {
  }

  lemma AfterStart(s: State, next: Option<Candidate>)
    requires Inv(s) && !s.busy
    ensures Awaits(Start(s, next), Unloaded(s.generation + 1, next))
  {
  }

  /** The two facts that present and remove rest on, in a reachable state. */
  lemma StartOrRefuse(es: seq<Event>, s: State, next: Option<Candidate>)
    requires s == Run(Initial(), es)
    ensures AwaitsNothing(s) <==> !s.busy
    ensures !s.busy ==> Awaits(Start(s, next), Unloaded(s.generation + 1, next))
  {
    Reachable(es);
    BusyOrNot(s);
    if !s.busy {
      AfterStart(s, next);
    }
  }

  /** Does the reply let the workflow of k go on? */
  predicate GoesOn(k: Continuation, reply: Reply) {
    k.Unloaded? && k.next.Some? && Truthy(reply.ok) && reply.loaded == False
  }

  /** What is awaited once the callback k has been invoked: nothing of its generation but its successor. */
  lemma AfterReply(s: State, k: Continuation, reply: Reply)
    requires Inv(s) && k in s.pending && !k.Gap?
    ensures var t := Replied(Invoke(s, k), k, reply);
      && (!Live(s, k) ==> t == Invoke(s, k))
      && (Live(s, k) && GoesOn(k, reply) ==> Awaits(t, Gap(k.generation, k.next.value, 500)))
      && (Live(s, k) && !GoesOn(k, reply) ==> AwaitsNothing(t))
  {
    InvokedInv(s, k);
  }

  lemma AfterTimer(s: State, k: Continuation)
    requires Inv(s) && k in s.pending && k.Gap?
    ensures var t := Elapsed(Invoke(s, k), k);
      && (!Live(s, k) ==> t == Invoke(s, k))
      && (Live(s, k) ==> Awaits(t, Loaded(k.generation, k.candidate)) && t.path.None?)
  {
    InvokedInv(s, k);
  }

  // ----- What a load and a shown file rest on -----

  /** In state s, the reply e acknowledges the unload of the current generation g. */
  ghost predicate Acks(s: State, e: Event, g: nat, c: Candidate) {
    && e.DoReply? && e.callback == Unloaded(g, Some(c)) && e.callback in s.pending && s.generation == g
    && Truthy(e.reply.ok) && e.reply.loaded == False
  }

  /** In state s, the timer event e ends the gap of the current generation g. */
  ghost predicate EndsGap(s: State, e: Event, g: nat, c: Candidate) {
    e == DoTimer(Gap(g, c, 500)) && e.callback in s.pending && s.generation == g
  }

  ghost predicate AckedAt(es: seq<Event>, j: nat, g: nat, c: Candidate) {
    j < |es| && Acks(Run(Initial(), es[..j]), es[j], g, c)
  }

  ghost predicate Acked(es: seq<Event>, g: nat, c: Candidate) {
    exists j: nat :: AckedAt(es, j, g, c)
  }

  lemma AckedLater(es: seq<Event>, n: nat, g: nat, c: Candidate)
    requires n <= |es| && Acked(es[..n], g, c)
    ensures Acked(es, g, c)
  {
    var j: nat :| AckedAt(es[..n], j, g, c);
    assert es[..n][..j] == es[..j];
    assert AckedAt(es, j, g, c);
  }

  lemma RepliedPending(s: State, k: Continuation, reply: Reply)
    ensures var t := Replied(s, k, reply);
      || t.pending == s.pending
      || (&& k.generation == s.generation && Truthy(reply.ok) && k.Unloaded? && k.next.Some? && reply.loaded == False
          && t.pending == s.pending + multiset{Gap(k.generation, k.next.value, 500)})
  {
  }

  lemma NotAdded(m: multiset<Continuation>, k: Continuation, l: Continuation)
    ensures k in m + multiset{l} <==> k in m || k == l
    ensures k in m - multiset{l} ==> k in m
  {
  }

  lemma NewGapFromReply(s: State, l: Continuation, reply: Reply, k: Continuation)
    requires k.Gap? && k in Replied(Invoke(s, l), l, reply).pending && k !in s.pending && l in s.pending
    ensures k.milliseconds == 500 && Acks(s, DoReply(l, reply), k.generation, k.candidate)
  {
    RepliedPending(Invoke(s, l), l, reply);
    NotAdded(s.pending, k, l);
    NotAdded(Invoke(s, l).pending, k, Gap(l.generation, if l.Unloaded? && l.next.Some? then l.next.value else Candidate("", 0), 500));
  }

  lemma NoGapFromTimer(s: State, l: Continuation, k: Continuation)
    requires k.Gap? && k !in s.pending
    ensures k !in Elapsed(Invoke(s, l), l).pending
  {
    NotAdded(s.pending, k, l);
    NotAdded(Invoke(s, l).pending, k, Loaded(l.generation, if l.Gap? then l.candidate else Candidate("", 0)));
  }

  lemma NoGapFromStart(s: State, next: Option<Candidate>, k: Continuation)
    requires k.Gap? && k !in s.pending
    ensures k !in Start(s, next).pending
  {
    NotAdded(s.pending, k, Unloaded(s.generation + 1, next));
  }

  /** Where a gap comes from. */
  lemma NewGap(s: State, e: Event, k: Continuation)
    requires k.Gap? && k in Next(s, e).pending && k !in s.pending
    ensures k.milliseconds == 500 && Acks(s, e, k.generation, k.candidate)
  {
    match e
    case DoReset =>
    case DoObserve(_) =>
    case DoPresent(file) => NoGapFromStart(s, file, k);
    case DoRemove => NoGapFromStart(s, None, k);
    case DoReply(l, reply) =>
      if l in s.pending && !l.Gap? {
        NewGapFromReply(s, l, reply, k);
      }
    case DoTimer(l) => NoGapFromTimer(s, l, k);
  }

  /** Where a load command comes from. */
  lemma NewLoad(s: State, e: Event, g: nat, c: Candidate)
    requires Next(s, e).sent == s.sent + [Load(g, c)]
    ensures e.DoTimer? && e.callback.Gap? && e.callback in s.pending
    ensures e.callback.generation == g == s.generation && e.callback.candidate == c
  {
    assert Next(s, e).sent[|s.sent|] == Load(g, c);
  }

  /** Every gap that is running began with an acknowledgement. */
  lemma {:induction false} GapsAreAcked(es: seq<Event>, g: nat, c: Candidate, ms: nat)
    requires Gap(g, c, ms) in Run(Initial(), es).pending
    ensures ms == 500 && Acked(es, g, c)
  {
    var n := |es| - 1;
    var s := Run(Initial(), es[..n]);
    if Gap(g, c, ms) in s.pending {
      GapsAreAcked(es[..n], g, c, ms);
      AckedLater(es, n, g, c);
    } else {
      NewGap(s, es[n], Gap(g, c, ms));
      assert AckedAt(es, n, g, c);
    }
  }

  /**
   A load command goes out only at the end of a gap of 500 ms which began when, earlier and in
   the same generation, the device acknowledged an unload with loaded = false; and it loads the
   file that present was called with.
   */
  lemma LoadAfterUnload(es: seq<Event>, e: Event, g: nat, c: Candidate)
    requires Next(Run(Initial(), es), e).sent == Run(Initial(), es).sent + [Load(g, c)]
    ensures EndsGap(Run(Initial(), es), e, g, c)
    ensures Acked(es, g, c)
  {
    NewLoad(Run(Initial(), es), e, g, c);
    GapsAreAcked(es, g, c, e.callback.milliseconds);
  }

  // ----- What is shown, over whole runs -----

  /** In state s, the reply e confirms the file that was loaded, with its CRC. */
  ghost predicate Confirms(s: State, e: Event) {
    && e.DoReply? && e.callback.Loaded? && Live(s, e.callback)
    && Truthy(e.reply.ok) && Truthy(e.reply.loaded) && e.reply.crc == Some(e.callback.candidate.crc)
  }

  /** In state s, the event e withdraws a file with that CRC. */
  ghost predicate Withdraws(s: State, e: Event, crc: int) {
    match e
    case DoReset => true
    case DoObserve(reply) => !Truthy(reply.loaded) || reply.crc != Some(crc)
    case DoReply(k, reply) => k.Unloaded? && Live(s, k) && Truthy(reply.ok) && reply.loaded == False
    case _ => false
  }

  /** t is the state after e. */
  ghost predicate PathFollows(s: State, e: Event, t: State) {
    if Confirms(s, e) then s.path.None? && t.path == Some(e.callback.candidate.path) && t.crc == e.reply.crc
    else if s.path.Some? && s.crc.Some? && !Withdraws(s, e, s.crc.value) then t.path == s.path && t.crc == s.crc
    else t.path.None?
  }

  lemma PathAfterReply(s: State, k: Continuation, reply: Reply, t: State)
    requires Inv(s) && k in s.pending && !k.Gap? && t == Replied(Invoke(s, k), k, reply)
    ensures PathFollows(s, DoReply(k, reply), t)
  {
    if k.generation == s.generation {
      assert Live(s, k);
    }
  }

  lemma PathStep(s: State, e: Event)
    requires Inv(s)
    ensures PathFollows(s, e, Next(s, e))
  {
    match e
    case DoReply(k, reply) =>
      if k in s.pending && !k.Gap? {
        PathAfterReply(s, k, reply, Replied(Invoke(s, k), k, reply));
      }
    case _ =>
  }

  /** Event j confirmed a file, and nothing has withdrawn it since. */
  ghost predicate ShownBy(es: seq<Event>, j: nat) {
    && j < |es| && Confirms(Run(Initial(), es[..j]), es[j])
    && forall i :: j < i < |es| ==> !Withdraws(Run(Initial(), es[..i]), es[i], es[j].callback.candidate.crc)
  }

  lemma ShownByLonger(es: seq<Event>, e: Event, j: nat)
    ensures ShownBy(es + [e], j) <==>
      if j == |es| then Confirms(Run(Initial(), es), e)
      else ShownBy(es, j) && !Withdraws(Run(Initial(), es), e, es[j].callback.candidate.crc)
  {
    var fs := es + [e];
    assert fs[..|es|] == es;
    if j < |es| {
      assert fs[..j] == es[..j] && fs[j] == es[j];
      forall i | j < i < |es| ensures fs[i] == es[i] && fs[..i] == es[..i] {
      }
      assert fs[|es|] == e;
    }
  }

  ghost predicate ShowsWhatIsConfirmed(s: State, es: seq<Event>) {
    && (forall j: nat :: ShownBy(es, j) ==>
          s.path == Some(es[j].callback.candidate.path) && s.crc == Some(es[j].callback.candidate.crc))
    && ((forall j: nat :: !ShownBy(es, j)) ==> s.path.None?)
  }

  lemma ShowsNext(s: State, es: seq<Event>, e: Event)
    requires s == Run(Initial(), es) && Inv(s) && ShowsWhatIsConfirmed(s, es)
    ensures ShowsWhatIsConfirmed(Next(s, e), es + [e])
  {
    var fs, n := es + [e], |es|;
    assert fs[n] == e;
    PathStep(s, e);
    forall j: nat ensures ShownBy(fs, j) <==>
      if j == n then Confirms(s, e) else ShownBy(es, j) && !Withdraws(s, e, es[j].callback.candidate.crc) {
      ShownByLonger(es, e, j);
    }
    if Confirms(s, e) {
      assert ShownBy(fs, n);
    } else if j: nat :| ShownBy(es, j) {
      assert ShownBy(fs, j) <==> !Withdraws(s, e, s.crc.value);
    }
  }

  lemma {:induction false} RunShows(es: seq<Event>)
    ensures ShowsWhatIsConfirmed(Run(Initial(), es), es)
  {
    if es == [] {
      assert forall j: nat :: !ShownBy(es, j);
    } else {
      var n := |es| - 1;
      RunShows(es[..n]);
      Reachable(es[..n]);
      ShowsNext(Run(Initial(), es[..n]), es[..n], es[n]);
      assert es[..n] + [es[n]] == es;
    }
  }

  /**
   In every run a file is shown, and its CRC held, exactly if a reply has confirmed it and nothing
   has withdrawn it since.
   */
  lemma ShownExactly(es: seq<Event>, path: string, crc: int)
    ensures var s := Run(Initial(), es);
      && (s.path == Some(path) && s.crc == Some(crc) <==>
            exists j: nat :: ShownBy(es, j) && es[j].callback.candidate == Candidate(path, crc))
      && (s.path.None? <==> s.crc.None?)
  {
    RunShows(es);
    Reachable(es);
    if j: nat :| ShownBy(es, j) {
      assert Run(Initial(), es).path == Some(es[j].callback.candidate.path);
    }
  }

  // ----- The tag and the file of the last word -----

  /** In state s, the reply e confirms that the tag is gone. */
  ghost predicate ConfirmsRemoval(s: State, e: Event) {
    && e.DoReply? && e.callback.Unloaded? && Live(s, e.callback)
    && Truthy(e.reply.ok) && e.reply.loaded == False
  }

  /** What e says about the tag on the device, in state s. */
  ghost function Says(s: State, e: Event): Option<Value> {
    if e == DoReset then Some(Missing)
    else if e.DoObserve? then Some(e.reply.loaded)
    else if ConfirmsRemoval(s, e) then Some(False)
    else if Confirms(s, e) then Some(True)
    else None
  }

  ghost predicate LastToSay(es: seq<Event>, j: nat) {
    && j < |es| && Says(Run(Initial(), es[..j]), es[j]).Some?
    && forall i :: j < i < |es| ==> Says(Run(Initial(), es[..i]), es[i]).None?
  }

  /** Event j is the last that confirmed a file. */
  ghost predicate LastToConfirm(es: seq<Event>, j: nat) {
    && j < |es| && Confirms(Run(Initial(), es[..j]), es[j])
    && forall i :: j < i < |es| ==> !Confirms(Run(Initial(), es[..i]), es[i])
  }

  lemma LoadedStep(s: State, e: Event)
    ensures Next(s, e).loaded == (if Says(s, e).Some? then Says(s, e).value else s.loaded)
    ensures Next(s, e).lastPath == (if Confirms(s, e) then Some(e.callback.candidate.path) else s.lastPath)
  {
    if e.DoReply? && e.callback in s.pending && !e.callback.Gap? {
      LoadedAfterReply(s, e.callback, e.reply, Replied(Invoke(s, e.callback), e.callback, e.reply));
    }
  }

  lemma LoadedAfterReply(s: State, k: Continuation, reply: Reply, t: State)
    requires k in s.pending && !k.Gap? && t == Replied(Invoke(s, k), k, reply)
    ensures var e := DoReply(k, reply); t.loaded == (if Says(s, e).Some? then Says(s, e).value else s.loaded)
    ensures var e := DoReply(k, reply);
      t.lastPath == (if Confirms(s, e) then Some(k.candidate.path) else s.lastPath)
  {
  }

  ghost predicate HoldsLastWord(s: State, es: seq<Event>) {
    && (forall j: nat :: LastToSay(es, j) ==> Some(s.loaded) == Says(Run(Initial(), es[..j]), es[j]))
    && ((forall j: nat :: !LastToSay(es, j)) ==> s.loaded == Missing)
  }

  ghost predicate HoldsLastFile(s: State, es: seq<Event>) {
    && (forall j: nat :: LastToConfirm(es, j) ==> s.lastPath == Some(es[j].callback.candidate.path))
    && ((forall j: nat :: !LastToConfirm(es, j)) ==> s.lastPath == None)
  }

  lemma LongerLastToSay(es: seq<Event>, e: Event, j: nat)
    ensures LastToSay(es + [e], j) <==>
      if j == |es| then Says(Run(Initial(), es), e).Some? else LastToSay(es, j) && Says(Run(Initial(), es), e).None?
  {
    var fs := es + [e];
    assert fs[..|es|] == es && fs[|es|] == e;
    if j < |es| {
      assert fs[..j] == es[..j] && fs[j] == es[j];
      forall i | j < i < |es| ensures fs[i] == es[i] && fs[..i] == es[..i] {
      }
    }
  }

  lemma LastWordNext(s: State, es: seq<Event>, e: Event)
    requires s == Run(Initial(), es) && HoldsLastWord(s, es)
    ensures HoldsLastWord(Next(s, e), es + [e])
  {
    var fs, n := es + [e], |es|;
    assert fs[n] == e && fs[..n] == es;
    LoadedStep(s, e);
    forall j: nat
      ensures LastToSay(fs, j) <==> if j == n then Says(s, e).Some? else LastToSay(es, j) && Says(s, e).None?
      ensures j < n ==> fs[..j] == es[..j] && fs[j] == es[j]
    {
      LongerLastToSay(es, e, j);
    }
    if Says(s, e).Some? {
      assert LastToSay(fs, n);
    } else if j: nat :| LastToSay(es, j) {
      assert LastToSay(fs, j);
    }
  }

  lemma LongerLastToConfirm(es: seq<Event>, e: Event, j: nat)
    ensures LastToConfirm(es + [e], j) <==>
      if j == |es| then Confirms(Run(Initial(), es), e) else LastToConfirm(es, j) && !Confirms(Run(Initial(), es), e)
  {
    var fs := es + [e];
    assert fs[..|es|] == es && fs[|es|] == e;
    if j < |es| {
      assert fs[..j] == es[..j] && fs[j] == es[j];
      forall i | j < i < |es| ensures fs[i] == es[i] && fs[..i] == es[..i] {
      }
    }
  }

  lemma LastFileNext(s: State, es: seq<Event>, e: Event)
    requires s == Run(Initial(), es) && HoldsLastFile(s, es)
    ensures HoldsLastFile(Next(s, e), es + [e])
  {
    var fs, n := es + [e], |es|;
    assert fs[n] == e && fs[..n] == es;
    LoadedStep(s, e);
    forall j: nat
      ensures LastToConfirm(fs, j) <==> if j == n then Confirms(s, e) else LastToConfirm(es, j) && !Confirms(s, e)
      ensures j < n ==> fs[..j] == es[..j] && fs[j] == es[j]
    {
      LongerLastToConfirm(es, e, j);
    }
    if Confirms(s, e) {
      assert LastToConfirm(fs, n);
    } else if j: nat :| LastToConfirm(es, j) {
      assert LastToConfirm(fs, j);
    }
  }

  lemma {:induction false} RunHoldsLastWord(es: seq<Event>)
    ensures HoldsLastWord(Run(Initial(), es), es) && HoldsLastFile(Run(Initial(), es), es)
  {
    if es != [] {
      var n := |es| - 1;
      RunHoldsLastWord(es[..n]);
      LastWordNext(Run(Initial(), es[..n]), es[..n], es[n]);
      LastFileNext(Run(Initial(), es[..n]), es[..n], es[n]);
      assert es[..n] + [es[n]] == es;
    }
  }

  /**
   In every run `loaded` is what the last event with a say said: nothing after a reset, the value
   of an observation, false after a confirmed removal, true after a confirmed load.
   */
  lemma LoadedExactly(es: seq<Event>, v: Value)
    ensures Run(Initial(), es).loaded == v <==>
      || (exists j: nat :: LastToSay(es, j) && Says(Run(Initial(), es[..j]), es[j]) == Some(v))
      || (v == Missing && forall j: nat :: !LastToSay(es, j))
  {
    RunHoldsLastWord(es);
  }

  /** And `last_path` is the file that was confirmed last, whatever has withdrawn it. */
  lemma LastPathExactly(es: seq<Event>, path: string)
    ensures Run(Initial(), es).lastPath == Some(path) <==>
      exists j: nat :: LastToConfirm(es, j) && es[j].callback.candidate.path == path
  {
    RunHoldsLastWord(es);
  }

  lemma Removed(m: multiset<Continuation>, k: Continuation)
    ensures m + multiset{k} - multiset{k} == m
  {
  }

  /** With cooperative replies a presentation completes. */
  lemma PresentationCompletes(s: State, c: Candidate, ack: Reply, confirm: Reply) returns (s1: State, s2: State)
    requires !s.busy
    requires Truthy(ack.ok) && ack.loaded == False
    requires Truthy(confirm.ok) && Truthy(confirm.loaded) && confirm.crc == Some(c.crc)
    ensures s1 == Next(s, DoPresent(Some(c)))
    ensures s2 == Next(s1, DoReply(Unloaded(s1.generation, Some(c)), ack))
    ensures Next(Next(s2, DoTimer(Gap(s2.generation, c, 500))), DoReply(Loaded(s2.generation, c), confirm)) ==
        State(false, Idle, Some(c.path), Some(c.path), Some(c.crc), True, s.generation + 1,
              s.pending, s.sent + [Unload(s.generation + 1), Load(s.generation + 1, c)], s.errors)
  {
    s1 := Started(s, c);
    s2 := Next(s1, DoReply(Unloaded(s1.generation, Some(c)), ack));
    Acknowledged(s1, s.pending, c, ack);
    Completes(s2, s.pending, c, confirm);
    var g := s.generation + 1;
    assert s.sent + [Unload(g)] + [Load(g, c)] == s.sent + [Unload(g), Load(g, c)];
  }

  lemma Started(s: State, c: Candidate) returns (s1: State)
    requires !s.busy
    ensures s1 == Next(s, DoPresent(Some(c)))
    ensures s1 == s.(generation := s.generation + 1, busy := true, phase := Replacing,
                     pending := s.pending + multiset{Unloaded(s.generation + 1, Some(c))},
                     sent := s.sent + [Unload(s.generation + 1)])
  {
    s1 := Next(s, DoPresent(Some(c)));
  }

  lemma Acknowledged(s: State, m: multiset<Continuation>, c: Candidate, ack: Reply)
    requires s.pending == m + multiset{Unloaded(s.generation, Some(c))}
    requires Truthy(ack.ok) && ack.loaded == False
    ensures Next(s, DoReply(Unloaded(s.generation, Some(c)), ack)) ==
      s.(phase := Waiting, loaded := False, path := None, crc := None,
         pending := m + multiset{Gap(s.generation, c, 500)})
  {
    Removed(m, Unloaded(s.generation, Some(c)));
  }

  lemma GapEnds(s: State, m: multiset<Continuation>, k: Continuation, next: Continuation)
    requires s.pending == m + multiset{k} && k.Gap? && k.generation == s.generation
    requires next == Loaded(k.generation, k.candidate)
    ensures Next(s, DoTimer(k)) ==
      s.(phase := Presenting, pending := m + multiset{next}, sent := s.sent + [Load(k.generation, k.candidate)])
  {
    Removed(m, k);
  }

  lemma Confirmed(s: State, m: multiset<Continuation>, k: Continuation, confirm: Reply)
    requires s.pending == m + multiset{k} && k.Loaded? && k.generation == s.generation
    requires Truthy(confirm.ok) && Truthy(confirm.loaded) && confirm.crc == Some(k.candidate.crc)
    ensures Next(s, DoReply(k, confirm)) ==
      State(false, Idle, Some(k.candidate.path), Some(k.candidate.path), Some(k.candidate.crc), True, s.generation,
            m, s.sent, s.errors)
  {
    Removed(m, k);
  }

  lemma Completes(s: State, m: multiset<Continuation>, c: Candidate, confirm: Reply)
    requires s.pending == m + multiset{Gap(s.generation, c, 500)}
    requires Truthy(confirm.ok) && Truthy(confirm.loaded) && confirm.crc == Some(c.crc)
    ensures var g := s.generation;
      Next(Next(s, DoTimer(Gap(g, c, 500))), DoReply(Loaded(g, c), confirm)) ==
        State(false, Idle, Some(c.path), Some(c.path), Some(c.crc), True, g,
              m, s.sent + [Load(g, c)], s.errors)
  {
    var g := s.generation;
    var t := Next(s, DoTimer(Gap(g, c, 500)));
    GapEnds(s, m, Gap(g, c, 500), Loaded(g, c));
    Confirmed(t, m, Loaded(g, c), confirm);
  }
}
