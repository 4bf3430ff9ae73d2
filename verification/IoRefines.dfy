/**
 Every careful run of an IO context, under any interleaving, is a run of Requests: each step of a thread or of
 the shard is one event there, or none.
 */
module IoRefines {
  import opened IoContext
  import opened Requests

  /** What a step is to the request. */
  function EventOf(s: State, step: Step): Event
    requires Enabled(s, step)
  {
    match step
    case Move(t, choice, _) => MoveEvent(s, s.threads[t], choice)
    case ShardMove(_) =>
      if s.shard.CasTimeout? && s.state == INIT then TimeOut
      else if s.shard.FinalRun? then UseCallback
      else if s.shard.FinalStoreFree? then Return
      else Nothing
  }

  function MoveEvent(s: State, pc: Pc, choice: nat): Event
  {
    if pc.Popped? then Take
    else if pc.Preparing? then (if choice == 0 then Submit else GiveUp)
    else if pc.StoreFree? then Return
    else if pc.DestroyCallback? || pc.Doom? || pc.RunCallback? then UseCallback
    else if pc.Sending? then Post(choice)
    else if pc.NoneSent? && s.state == INIT then Fail
    else if pc.Finishing? && s.state == INIT then Complete
    else if pc.Holding? && choice == 0 then Answer(pc.seqNo)
    else if pc.Holding? && choice == 2 && s.state == INIT then Break
    else Nothing
  }

  /** The phase of the request, told from the context and its owner. */
  predicate PhaseOk(c: Core, owner: Pc, phase: Phase)
  {
    var used := Logged(c.log, c.generation);
    match c.state
    case FREE => phase == if c.callback == None then Vacant else Given
    case PREPARING =>
      phase == if owner.Preparing? then Given else if owner.DestroyCallback? then Decided(GivenUp) else Used(GivenUp)
    case INIT => phase == Open
    case BROKEN => phase == if used then Used(Broken) else Decided(Broken)
    case TIMEOUT => phase == if used then Used(TimedOut) else Decided(TimedOut)
    case FINISHED =>
      if used then phase == Used(Answered) || phase == Used(AllFailed)
      else phase == Decided(Answered) || phase == Decided(AllFailed)
  }

  predicate CountsMatch(c: Core, r: Request)
  {
    Submitted(r) ==> r.posted == c.sendReady && r.answers == c.replies && (r.posted ==> r.sent == c.sends)
  }

  predicate FinisherMatch(pc: Pc, phase: Phase)
  {
    && (pc.TakeCallback? || pc.ClearCallback? || pc.RunCallback? ==> phase == Decided(Answered))
    && (pc.Doom? ==> phase == Decided(AllFailed))
    && (pc.Wipe? ==> phase == Used(AllFailed))
  }

  function Owner(c: Core, threads: map<nat, Pc>): Pc
  {
    if c.place.Hand? && c.place.thread in threads then threads[c.place.thread] else Out
  }

  predicate FinishersMatch(threads: map<nat, Pc>, phase: Phase)
  {
    forall t :: t in threads ==> FinisherMatch(threads[t], phase)
  }

  predicate Matches(c: Core, threads: map<nat, Pc>, r: Request)
  {
    && r.generation == c.generation && r.log == c.log
    && PhaseOk(c, Owner(c, threads), r.phase) && CountsMatch(c, r) && FinishersMatch(threads, r.phase)
  }

  predicate Related(s: State, r: Request)
  {
    Matches(CoreOf(s), s.threads, r)
  }

  lemma InitRelated(s: State)
    requires Init(s)
    ensures Related(s, FIRST)
  {
  }

  // ---- steps ----

  /** Without finishers every phase will do. */
  lemma NoneMatch(threads: map<nat, Pc>, phase: Phase)
    requires NoFinisher(threads)
    ensures FinishersMatch(threads, phase)
  {
    forall t | t in threads ensures FinisherMatch(threads[t], phase) { assert !Finisher(threads[t]); }
  }

  /** What the owner does to the request, with nobody else at work. */
  lemma OwnerEvent(s: State, t: nat, choice: nat, seqNo: nat, r: Request)
    requires t in s.threads && OwnerPhase(CoreOf(s), s.threads[t]) && s.place == Hand(t) && Related(s, r)
    ensures var e, c := MoveEvent(s, s.threads[t], choice), CoreOf(NextOf(s, t, choice, seqNo));
            && Allowed(r, e) && After(r, e).generation == c.generation && After(r, e).log == c.log
            && PhaseOk(c, NextOf(s, t, choice, seqNo).threads[t], After(r, e).phase) && CountsMatch(c, After(r, e))
  {
    hide FinishersMatch;
  }

  lemma OwnerRefines(s: State, t: nat, choice: nat, seqNo: nat, r: Request)
    requires Inv(s) && t in s.threads && Owns(s.threads[t]) && Related(s, r)
    ensures var e := MoveEvent(s, s.threads[t], choice);
            Allowed(r, e) && Related(NextOf(s, t, choice, seqNo), After(r, e))
  {
    hide Rest, AccessOk, FinishersMatch, NoFinisher, CountsMatch, PhaseOk, Allowed, After, OwnerPhase, MoveEvent;
    var c, next, pc := CoreOf(s), NextOf(s, t, choice, seqNo), s.threads[t];
    OwnedPhase(c, s.threads, t);
    OwnedNoFinisher(c, s.threads, t);
    FinisherAfter(s.threads, t, next.threads[t]);
    OwnerEvent(s, t, choice, seqNo, r);
    NoneMatch(next.threads, After(r, MoveEvent(s, pc, choice)).phase);
    OwnerStays(CoreOf(next), next.threads[t], After(r, MoveEvent(s, pc, choice)).phase, t, next.threads);
  }

  /** Once handed over, the context is not in preparation, and nobody needs its owner. */
  lemma OwnerStays(c': Core, pc: Pc, phase: Phase, t: nat, threads: map<nat, Pc>)
    requires t in threads && threads[t] == pc && PhaseOk(c', pc, phase)
               && (c'.place == Hand(t) || c'.state != PREPARING)
    ensures PhaseOk(c', Owner(c', threads), phase)
  {
  }

  lemma OwnedNoFinisher(c: Core, threads: map<nat, Pc>, t: nat)
    requires Rest(c, threads) && t in threads && Owns(threads[t])
    ensures NoFinisher(threads)
  {
    assert ThreadOk(c, t, threads[t]);
    forall u | u in threads ensures !Finisher(threads[u]) { assert ThreadOk(c, u, threads[u]); }
  }

  /** A thread that changes nothing but itself, the access word or where the context is. */
  lemma QuietRefines(s: State, s': State, t: nat, r: Request)
    requires Related(s, r) && t in s.threads && t in s'.threads && s'.threads == s.threads[t := s'.threads[t]]
    requires CoreOf(s') == CoreOf(s).(open := CoreOf(s').open, place := CoreOf(s').place)
    requires s.state != PREPARING || (!Owns(s.threads[t]) && s'.place == s.place && s.place != Hand(t))
    requires FinisherMatch(s'.threads[t], r.phase)
    ensures Related(s', r)
  {
    hide FinisherMatch, Logged;
    forall u | u in s'.threads
      ensures FinisherMatch(s'.threads[u], r.phase)
    {
      assert u != t ==> FinisherMatch(s.threads[u], r.phase);
    }
  }

  /** Whoever owns a context in preparation is where its owner can be. */
  lemma PreparingOwner(s: State, t: nat)
    requires Inv(s) && t in s.threads && s.state == PREPARING && !Owns(s.threads[t])
    ensures s.place != Hand(t)
  {
    hide AccessOk, ThreadsOk, LogOk;
  }

  lemma TransientRefines(s: State, t: nat, choice: nat, seqNo: nat, r: Request)
    requires Inv(s) && Enabled(s, Move(t, choice, seqNo)) && Related(s, r)
    requires var pc := s.threads[t];
             pc.Out? || pc.CheckSeqNo? || pc.CheckState? || pc.Dropping? || pc.Releasing?
    ensures MoveEvent(s, s.threads[t], choice) == Nothing && Related(NextOf(s, t, choice, seqNo), r)
  {
    hide Related, Rest, AccessOk;
    var next := NextOf(s, t, choice, seqNo);
    if next != s {
      if s.state == PREPARING { PreparingOwner(s, t); }
      if s.threads[t].Out? && choice == 0 { FreeState(s); }
      WordOpen(s, t);
      QuietRefines(s, next, t, r);
    }
  }

  lemma FreeState(s: State)
    requires Inv(s) && s.place == FreeList
    ensures s.state == FREE
  {
    hide AccessOk, ThreadsOk, LogOk;
  }

  /** A counted thread sees an open word, before and after it leaves. */
  lemma WordOpen(s: State, t: nat)
    requires Inv(s) && t in s.threads
    ensures Counted(s.threads[t]) ==> 0 < s.access < ACCESS_CLOSED
  {
    hide Rest;
    CountingAfter(s.threads, t, s.threads[t]);
  }

  /** Threads at work on a submitted request, but for the finisher. */
  lemma UserRefines(s: State, t: nat, choice: nat, seqNo: nat, r: Request)
    requires Inv(s) && t in s.threads && User(s.threads[t]) && !Finisher(s.threads[t]) && Related(s, r)
    ensures var e := MoveEvent(s, s.threads[t], choice);
            Allowed(r, e) && Related(NextOf(s, t, choice, seqNo), After(r, e))
  {
    hide Rest, AccessOk, FinishersMatch, NoFinisher;
    var c, next, pc := CoreOf(s), NextOf(s, t, choice, seqNo), s.threads[t];
    WordOpen(s, t);
    ThreadFacts(c, s.threads, t);
    UserPlace(c, s.threads, t);
    var e := MoveEvent(s, pc, choice);
    assert Allowed(r, e);
    UserFinishers(c, s.threads, t, next.threads[t], r.phase, After(r, e).phase);
  }

  lemma UserFinishers(c: Core, threads: map<nat, Pc>, t: nat, pc: Pc, phase: Phase, phase': Phase)
    requires Rest(c, threads) && t in threads && FinishersMatch(threads, phase)
    requires phase' == phase || c.state != FINISHED
    requires FinisherMatch(pc, phase')
    ensures FinishersMatch(threads[t := pc], phase')
  {
    var threads' := threads[t := pc];
    forall u | u in threads'
      ensures FinisherMatch(threads'[u], phase')
    {
      if u != t { assert ThreadOk(c, u, threads[u]) && FinisherMatch(threads[u], phase); }
    }
  }

  /** The finisher. */
  lemma FinisherRefines(s: State, t: nat, choice: nat, seqNo: nat, r: Request)
    requires Inv(s) && t in s.threads && Finisher(s.threads[t]) && Related(s, r)
    ensures var e := MoveEvent(s, s.threads[t], choice);
            Allowed(r, e) && Related(NextOf(s, t, choice, seqNo), After(r, e))
  {
    hide Rest, AccessOk, FinishersMatch, NoFinisher;
    var c, next, pc := CoreOf(s), NextOf(s, t, choice, seqNo), s.threads[t];
    WordOpen(s, t);
    ThreadFacts(c, s.threads, t);
    assert FinisherMatch(pc, r.phase) by { OneMatch(s.threads, r.phase, t); }
    OnlyFinisher(c, s.threads, t, next.threads[t], After(r, MoveEvent(s, pc, choice)).phase);
  }

  lemma OneMatch(threads: map<nat, Pc>, phase: Phase, t: nat)
    requires FinishersMatch(threads, phase) && t in threads
    ensures FinisherMatch(threads[t], phase)
  {
  }

  lemma OnlyFinisher(c: Core, threads: map<nat, Pc>, t: nat, pc: Pc, phase: Phase)
    requires Rest(c, threads) && t in threads && Finisher(threads[t]) && FinisherMatch(pc, phase)
    ensures FinishersMatch(threads[t := pc], phase)
  {
    var threads' := threads[t := pc];
    forall u | u in threads'
      ensures FinisherMatch(threads'[u], phase)
    {
      assert u != t ==> !Finisher(threads[u]);
    }
  }

  // ---- the shard ----

  lemma ShardRefines(s: State, choice: nat, r: Request)
    requires Inv(s) && Enabled(s, ShardMove(choice)) && Related(s, r)
    ensures var e := EventOf(s, ShardMove(choice)); Allowed(r, e) && Related(NextOfShard(s, choice), After(r, e))
  {
    hide Rest, AccessOk, FinishersMatch, NoFinisher;
    var c := CoreOf(s);
    ShardFacts(s);
    if s.access == ACCESS_CLOSED {
      ClosedNoUser(s);
      NoneMatch(s.threads, After(r, EventOf(s, ShardMove(choice))).phase);
    }
  }

  lemma ShardFacts(s: State)
    requires Inv(s) && (s.shard.Idle? ==> s.place.AddStack? || s.place.Wheel?)
    ensures if s.shard.Idle? then s.access != ACCESS_CLOSED && s.state != PREPARING
            else s.place.Shard? && ShardPhase(CoreOf(s), NoFinisher(s.threads))
  {
    hide AccessOk, ThreadsOk, LogOk;
  }

  // ---- runs ----

  lemma StepRefines(s: State, step: Step, r: Request)
    requires Inv(s) && Enabled(s, step) && Related(s, r)
    ensures var e := EventOf(s, step); Allowed(r, e) && Related(Next(s, step), After(r, e))
  {
    hide Inv, Related, NextOf, NextOfShard;
    match step
    case ShardMove(choice) => ShardRefines(s, choice, r);
    case Move(t, choice, seqNo) =>
      var pc := s.threads[t];
      if Owns(pc) {
        OwnerRefines(s, t, choice, seqNo, r);
      } else if Finisher(pc) {
        FinisherRefines(s, t, choice, seqNo, r);
      } else if User(pc) {
        UserRefines(s, t, choice, seqNo, r);
      } else {
        TransientRefines(s, t, choice, seqNo, r);
      }
  }

  /** The events of a run, one for each step. */
  function Events(run: seq<State>, steps: seq<Step>): seq<Event>
    requires IsRun(run, steps)
  {
    seq(|steps|, i requires 0 <= i < |steps| => EventOf(run[i], steps[i]))
  }

  predicate SpecRun(spec: seq<Request>, events: seq<Event>)
  {
    && |spec| == |events| + 1 && spec[0] == FIRST
    && forall i :: 0 <= i < |events| ==> Allowed(spec[i], events[i]) && spec[i + 1] == After(spec[i], events[i])
  }

  predicate AllRelated(run: seq<State>, spec: seq<Request>)
  {
    |run| == |spec| && forall i :: 0 <= i < |run| ==> Related(run[i], spec[i])
  }

  lemma {:induction false} RefinesUpTo(run: seq<State>, steps: seq<Step>, n: nat) returns (spec: seq<Request>)
    requires IsRun(run, steps) && Init(run[0]) && CarefulRun(run, steps) && n <= |steps|
    ensures SpecRun(spec, Events(run, steps)[..n]) && AllRelated(run[..n + 1], spec)
    decreases n
  {
    hide Related, EventOf, Allowed, After, Next, Enabled, Init, Careful, Inv;
    if n == 0 {
      InitRelated(run[0]);
      spec := [FIRST];
    } else {
      var front := RefinesUpTo(run, steps, n - 1);
      RunInv(run, steps, n - 1);
      assert run[..n][n - 1] == run[n - 1];
      StepRefines(run[n - 1], steps[n - 1], front[n - 1]);
      var e := EventOf(run[n - 1], steps[n - 1]);
      spec := front + [After(front[n - 1], e)];
      assert Events(run, steps)[..n] == Events(run, steps)[..n - 1] + [e];
      assert run[..n + 1] == run[..n] + [run[n]];
    }
  }

  /** Every careful run is a run of Requests, event by event. */
  lemma Refines(run: seq<State>, steps: seq<Step>) returns (spec: seq<Request>)
    requires IsRun(run, steps) && Init(run[0]) && CarefulRun(run, steps)
    ensures SpecRun(spec, Events(run, steps)) && AllRelated(run, spec)
  {
    hide Related, EventOf, Allowed, After, Next, Enabled, Init, Careful, Inv;
    spec := RefinesUpTo(run, steps, |steps|);
    assert Events(run, steps)[..|steps|] == Events(run, steps);
    assert run[..|steps| + 1] == run;
  }

  lemma {:induction false} SpecRunInv(spec: seq<Request>, events: seq<Event>, i: nat)
    requires SpecRun(spec, events) && i < |spec|
    ensures SpecInv(spec[i])
  {
    hide SpecInv, Allowed, After;
    if i == 0 {
      FirstInv();
    } else {
      SpecRunInv(spec, events, i - 1);
      SpecStep(spec[i - 1], events[i - 1]);
    }
  }

  // ---- what a careful run may do ----

  /** A request moves to FINISHED only when it has been posted and as many answers are in as were sent. */
  lemma FinishedWhenAnswered(run: seq<State>, steps: seq<Step>, i: nat)
    requires IsRun(run, steps) && Init(run[0]) && CarefulRun(run, steps) && i < |steps|
    requires run[i].state == INIT && run[i + 1].state == FINISHED
    ensures run[i].sendReady && run[i].sends <= run[i].replies
  {
    RunInv(run, steps, i);
    hide Inv;
    match steps[i]
    case ShardMove(choice) => hide NextOf;
    case Move(t, choice, seqNo) =>
      hide NextOfShard;
      Sight(run[i], t);
  }

  lemma Sight(s: State, t: nat)
    requires Inv(s) && t in s.threads
    ensures CountsOk(CoreOf(s), s.threads[t])
  {
    ThreadFacts(CoreOf(s), s.threads, t);
  }

  /** A thread that has got in answers the current request. */
  lemma HoldingIsCurrent(run: seq<State>, steps: seq<Step>, i: nat, t: nat)
    requires IsRun(run, steps) && Init(run[0]) && CarefulRun(run, steps) && i < |run|
    requires t in run[i].threads && run[i].threads[t].Holding?
    ensures run[i].threads[t].seqNo == run[i].generation
  {
    RunInv(run, steps, i);
    Sight(run[i], t);
  }

  /** When the context is on the free list, the callback of each of its requests was run or destroyed as the fate
      of the request says: destroyed exactly if it was given up in preparation, or none of its sends went out
      and its sender won. */
  lemma FateOfEach(run: seq<State>, steps: seq<Step>, i: nat, g: nat) returns (spec: seq<Request>)
    requires IsRun(run, steps) && Init(run[0]) && CarefulRun(run, steps) && i < |run|
    requires run[i].place == FreeList && 1 <= g <= run[i].generation
    ensures SpecRun(spec, Events(run, steps)) && AllRelated(run, spec) && i < |spec| && g in spec[i].fates
    ensures Ran(g) in run[i].log <==> Runs(spec[i].fates[g])
    ensures Destroyed(g) in run[i].log <==> spec[i].fates[g] == GivenUp || spec[i].fates[g] == AllFailed
  {
    hide EventOf, Allowed, After, Next, Enabled, Init, Careful, SpecInv, SpecRun;
    spec := Refines(run, steps);
    SpecRunInv(spec, Events(run, steps), i);
    RunInv(run, steps, i);
    FreeVacant(run[i], spec[i]);
    FateDecides(spec[i], g);
  }

  lemma FreeVacant(s: State, r: Request)
    requires Inv(s) && Related(s, r) && s.place == FreeList
    ensures r.phase == Vacant && r.generation == s.generation && r.log == s.log
  {
    hide AccessOk, ThreadsOk, LogOk;
  }
}
