/**
 `pc/library.py`, class `Presenter`, as an object whose state is always that of the state machine
 of `PresenterRuns` after the events so far.

 A nested callback is a `Continuation`: the function and the variables it captured. The fields
 `pending` and `sent` stand for the collaborators send and schedule; `errors` counts the calls
 of error. `changed` and the wording of phases and errors are not modelled.
 */
module Presentation {
  import opened PresenterRuns

  class Presenter {
    var busy: bool
    var phase: Phase
    var path: Option<string>
    var lastPath: Option<string>
    var crc: Option<int>
    var loaded: Value
    var generation: nat
    var pending: multiset<Continuation>
    var sent: seq<Command>
    var errors: nat
    /** What has happened since the object was created. */
    ghost var history: seq<Event>

    ghost function Abs(): State
      reads this
    {
      State(busy, phase, path, lastPath, crc, loaded, generation, pending, sent, errors)
    }

    ghost predicate Valid()
      reads this
    {
      Abs() == Run(Initial(), history)
    }

    constructor ()
      ensures Valid() && history == [] && AwaitsNothing(Abs())
    {
      busy, phase, path, lastPath, crc := false, Idle, None, None, None;
      loaded, generation, pending, sent, errors := Missing, 0, multiset{}, [], 0;
      history := [];
    }

    ghost method Record(e: Event)
      requires Abs() == Next(Run(Initial(), history), e)
      modifies this`history
      ensures Valid() && history == old(history) + [e]
    {
      RunStep(history, e);
      history := history + [e];
    }

    /** Whatever was going on, its callbacks have become stale. */
    method Reset()
      requires Valid()
      modifies this
      ensures Valid() && history == old(history) + [DoReset]
      ensures AwaitsNothing(Abs()) && pending == old(pending) && sent == old(sent)
      ensures path.None? && lastPath == old(lastPath)
      ensures crc.None? && loaded == Missing && phase == Idle && generation == old(generation) + 1 && errors == old(errors)
    {
      Reachable(history);
      AfterReset(Abs());
      generation := generation + 1;
      busy := false;
      phase := Idle;
      path, crc, loaded := None, None, Missing;
      Record(DoReset);
    }

    /** A shown file stays exactly if the reply reports a tag with its CRC. */
    method Observe(reply: Reply)
      requires Valid()
      modifies this
      ensures Valid() && history == old(history) + [DoObserve(reply)]
      ensures path.Some? <==> old(path).Some? && Truthy(reply.loaded) && reply.crc == old(crc)
      ensures path.Some? ==> path == old(path) && reply.crc.Some?
      ensures loaded == reply.loaded
      ensures crc == if Truthy(reply.loaded) && reply.crc == old(crc) then old(crc) else None
      ensures Abs() == old(Abs()).(loaded := loaded, path := path, crc := crc)
      ensures forall k :: Live(Abs(), k) <==> Live(old(Abs()), k)
    {
      Reachable(history);
      loaded := reply.loaded;
      if !Truthy(loaded) || reply.crc != crc {
        path := None;
        crc := None;
      }
      Record(DoObserve(reply));
    }

    /** `_start` */
    method Begin(newPhase: Phase)
      modifies this
      ensures Abs() == old(Abs()).(generation := old(generation) + 1, busy := true, phase := newPhase)
      ensures history == old(history)
    {
      generation := generation + 1;
      busy := true;
      phase := newPhase;
    }

    /** file is None if load_bin raises. The tag on the device is removed before anything else. */
    method Present(file: Option<Candidate>) returns (started: bool)
      requires Valid()
      modifies this
      ensures Valid() && history == old(history) + [DoPresent(file)]
      ensures started <==> AwaitsNothing(old(Abs())) && file.Some?
      ensures started ==> Awaits(Abs(), Unloaded(generation, file)) && sent == old(sent) + [Unload(generation)]
      ensures !started ==> Abs() == old(Abs())
      ensures started ==>
        Abs() == old(Abs()).(busy := true, phase := Replacing, generation := old(generation) + 1, pending := pending, sent := sent)
    {
      ghost var s := Abs();
      StartOrRefuse(history, s, file);
      if busy || file.None? {
        Record(DoPresent(file)); // the exception leaves everything as it is
        return false;
      }
      Begin(Replacing);
      Send(Unload(generation), Unloaded(generation, file));
      assert Abs() == Start(s, file);
      Record(DoPresent(file));
      return true;
    }

    method Remove() returns (started: bool)
      requires Valid()
      modifies this
      ensures Valid() && history == old(history) + [DoRemove]
      ensures started <==> AwaitsNothing(old(Abs()))
      ensures started ==> Awaits(Abs(), Unloaded(generation, None)) && sent == old(sent) + [Unload(generation)]
      ensures !started ==> Abs() == old(Abs())
      ensures started ==>
        Abs() == old(Abs()).(busy := true, phase := Removing, generation := old(generation) + 1, pending := pending, sent := sent)
    {
      ghost var s := Abs();
      ghost var next: Option<Candidate> :| next.None?;
      StartOrRefuse(history, s, next);
      if busy {
        Record(DoRemove);
        return false;
      }
      Begin(Removing);
      Send(Unload(generation), Unloaded(generation, None));
      assert Abs() == Start(s, next);
      Record(DoRemove);
      return true;
    }

    method Send(command: Command, callback: Continuation)
      modifies this`sent, this`pending
      ensures sent == old(sent) + [command] && pending == old(pending) + multiset{callback}
    {
      sent := sent + [command];
      pending := pending + multiset{callback};
    }

    /** `_accept` */
    method Accept(captured: nat, reply: Reply) returns (accepted: bool)
      modifies this
      ensures accepted <==> captured == generation && Truthy(reply.ok)
      ensures Abs() == if captured == old(generation) && !Truthy(reply.ok) then PresenterRuns.Fail(old(Abs())) else old(Abs())
      ensures history == old(history)
    {
      if captured != generation {
        return false;
      }
      if !Truthy(reply.ok) {
        Fail();
        return false;
      }
      return true;
    }

    /** `_fail` */
    method Fail()
      modifies this
      ensures Abs() == PresenterRuns.Fail(old(Abs())) && history == old(history)
    {
      Finish();
      errors := errors + 1;
    }

    /** `_finish` */
    method Finish()
      modifies this
      ensures Abs() == PresenterRuns.Finish(old(Abs())) && history == old(history)
    {
      busy := false;
      phase := Idle;
    }

    /** The callback `removed` of present and remove, in two parts. */
    method RemovedReply(callback: Continuation, reply: Reply)
      requires Valid() && callback in pending && callback.Unloaded?
      modifies this
      ensures Valid() && history == old(history) + [DoReply(callback, reply)]
      ensures sent == old(sent)
      // a reply of an older generation has no effect
      ensures !Live(old(Abs()), callback) ==> Abs() == Invoke(old(Abs()), callback)
      // the workflow goes on exactly with a confirmed removal and a file to present, after 500 ms,
      ensures Live(old(Abs()), callback) ==>
        if Truthy(reply.ok) && reply.loaded == False && callback.next.Some?
        then Awaits(Abs(), Gap(generation, callback.next.value, 500)) && phase == Waiting
        else AwaitsNothing(Abs()) && phase == Idle
      // an error is reported exactly if the removal is not confirmed, and only then the shown file stays
      ensures Live(old(Abs()), callback) ==>
        if Truthy(reply.ok) && reply.loaded == False
        then path.None? && crc.None? && loaded == False && errors == old(errors)
        else path == old(path) && crc == old(crc) && loaded == old(loaded) && errors == old(errors) + 1
      ensures lastPath == old(lastPath) && generation == old(generation)
    {
      ghost var s := Abs();
      Reachable(history);
      AfterReply(s, callback, reply);
      pending := pending - multiset{callback};
      assert Abs() == Invoke(s, callback);
      var accepted := Accept(callback.generation, reply);
      if accepted {
        Removed(callback.next, reply);
      }
      Record(DoReply(callback, reply));
    }

    method Removed(next: Option<Candidate>, reply: Reply)
      modifies this
      ensures Abs() == UnloadConfirmed(old(Abs()), next, reply) && history == old(history)
    {
      if reply.loaded != False {
        Fail();
        return;
      }
      loaded := False;
      path := None;
      crc := None;
      if next.Some? {
        phase := Waiting;
        pending := pending + multiset{Gap(generation, next.value, 500)};
      } else {
        Finish();
      }
    }

    /** The callback `load`, at the end of the gap. */
    method GapElapsed(callback: Continuation)
      requires Valid() && callback in pending && callback.Gap?
      modifies this
      ensures Valid() && history == old(history) + [DoTimer(callback)]
      ensures !Live(old(Abs()), callback) ==> Abs() == Invoke(old(Abs()), callback)
      ensures Live(old(Abs()), callback) ==>
        Awaits(Abs(), Loaded(generation, callback.candidate)) && sent == old(sent) + [Load(generation, callback.candidate)]
      ensures Live(old(Abs()), callback) ==> phase == Presenting
      ensures path == old(path) && crc == old(crc) && loaded == old(loaded) && lastPath == old(lastPath)
      ensures generation == old(generation) && errors == old(errors)
      // the device has acknowledged an unload of this generation, and nothing is shown
      ensures sent != old(sent) ==> Acked(history, generation, callback.candidate) && path.None?
    {
      ghost var s := Abs();
      Reachable(history);
      AfterTimer(s, callback);
      pending := pending - multiset{callback};
      assert Abs() == Invoke(s, callback);
      Elapse(callback);
      Record(DoTimer(callback));
      if sent != s.sent {
        LoadAfterUnload(old(history), DoTimer(callback), generation, callback.candidate);
        assert history[..|old(history)|] == old(history);
        AckedLater(history, |old(history)|, generation, callback.candidate);
      }
    }

    method Elapse(callback: Continuation)
      requires callback.Gap?
      modifies this
      ensures Abs() == Elapsed(old(Abs()), callback) && history == old(history)
    {
      if callback.generation != generation {
        return;
      }
      phase := Presenting;
      Send(Load(generation, callback.candidate), Loaded(generation, callback.candidate));
    }

    /** The callback `loaded`, in two parts. */
    method LoadedReply(callback: Continuation, reply: Reply)
      requires Valid() && callback in pending && callback.Loaded?
      modifies this
      ensures Valid() && history == old(history) + [DoReply(callback, reply)]
      ensures sent == old(sent)
      ensures !Live(old(Abs()), callback) ==> Abs() == Invoke(old(Abs()), callback)
      ensures Live(old(Abs()), callback) ==> AwaitsNothing(Abs())
      // a file is shown exactly if it is confirmed with its CRC; otherwise none is, and an error is reported
      ensures Live(old(Abs()), callback) ==>
        if Truthy(reply.ok) && Truthy(reply.loaded) && reply.crc == Some(callback.candidate.crc)
        then path == lastPath == Some(callback.candidate.path) && crc == reply.crc && loaded == True && errors == old(errors)
        else path.None? && lastPath == old(lastPath) && loaded == old(loaded) && errors == old(errors) + 1
      ensures generation == old(generation) && phase == if AwaitsNothing(Abs()) then Idle else old(phase)
    {
      ghost var s := Abs();
      Reachable(history);
      AfterReply(s, callback, reply);
      pending := pending - multiset{callback};
      assert Abs() == Invoke(s, callback);
      var accepted := Accept(callback.generation, reply);
      if accepted {
        Presented(callback.candidate, reply);
      }
      Record(DoReply(callback, reply));
    }

    method Presented(candidate: Candidate, reply: Reply)
      modifies this
      ensures Abs() == LoadConfirmed(old(Abs()), candidate, reply) && history == old(history)
    {
      if !Truthy(reply.loaded) || reply.crc != Some(candidate.crc) {
        Fail();
        return;
      }
      path, lastPath := Some(candidate.path), Some(candidate.path);
      loaded := True;
      crc := Some(candidate.crc);
      Finish();
    }
  }
}
