/**
 The one store of an IO context that is not careful: what it takes to be harmless, and a run in which it is not.
 */
module IoRaces {
  import opened IoContext
  import opened Requests

  /** A thread comes in with the number of a request that some subscriber was sent. */
  predicate Genuine(s: State, step: Step)
  {
    step.Move? && step.thread in s.threads && s.threads[step.thread].Out? && step.choice != 0 ==> step.seqNo in s.asked
  }

  predicate Path(run: seq<State>, steps: seq<Step>, s: State, s': State)
  {
    && IsRun(run, steps) && run[0] == s && run[|steps|] == s'
    && forall i :: 0 <= i < |steps| ==> Genuine(run[i], steps[i])
  }

  /** Some run leads from s to s' in which every thread that comes in answers a request that went out. */
  ghost predicate Reaches(s: State, s': State)
  {
    exists run, steps :: Path(run, steps, s, s')
  }

  lemma Stay(s: State)
    ensures Reaches(s, s)
  {
    assert Path([s], [], s, s);
  }

  lemma Go(s: State, s': State, step: Step)
    requires Reaches(s, s') && Enabled(s', step) && Genuine(s', step)
    ensures Reaches(s, Next(s', step))
  {
    hide Next, Enabled, Genuine;
    var run, steps :| Path(run, steps, s, s');
    assert Path(run + [Next(s', step)], steps + [step], s, Next(s', step));
  }

  /** One more step of a thread that is in, or that takes the context from the free list. */
  lemma By(s0: State, s: State, t: nat, choice: nat) returns (s': State)
    requires Reaches(s0, s) && t in s.threads && (s.threads[t].Out? ==> choice == 0 && s.place == FreeList)
    ensures Reaches(s0, s') && s' == NextOf(s, t, choice, 0)
  {
    hide Reaches, NextOf;
    Go(s0, s, Move(t, choice, 0));
    s' := Next(s, Move(t, choice, 0));
  }

  /** One more step of the shard. */
  lemma ByShard(s0: State, s: State) returns (s': State)
    requires Reaches(s0, s) && (s.shard == Idle ==> s.place == AddStack || s.place == Wheel)
    ensures Reaches(s0, s') && s' == NextOfShard(s, 0)
  {
    hide Reaches, NextOfShard;
    Go(s0, s, ShardMove(0));
    s' := Next(s, ShardMove(0));
  }

  /** The state before the store, with another thread counted that has yet to be turned away or to leave. */
  predicate AboutToClose(s: State, t: nat, u: nat)
  {
    && t in s.threads && u in s.threads && t != u && s.threads[t].StoreClosed?
    && s.state == FREE && s.place == Hand(t) && s.shard == Idle
  }

  predicate Leaving(pc: Pc)
  {
    pc.Dropping? || pc.Releasing?
  }

  /** Another thread is counted exactly when the word is not 1. */
  lemma SomeoneElse(s: State, t: nat) returns (u: nat)
    requires Inv(s) && t in s.threads && s.threads[t].StoreClosed? && s.access != 1
    ensures AboutToClose(s, t, u) && Counted(s.threads[u])
    ensures var pc := s.threads[u]; pc.CheckSeqNo? || pc.CheckState? || Leaving(pc)
  {
    hide LogOk;
    OwnedPhase(CoreOf(s), s.threads, t);
    CountingAfter(s.threads, t, PushFree);
    assert Counting(s.threads) != {t};
    u :| u in Counting(s.threads) && u != t;
    assert ThreadOk(CoreOf(s), u, s.threads[u]);
  }

  /** That thread finds the context free and is turned away. */
  lemma TurnedAway(s0: State, s: State, t: nat, u: nat) returns (s': State)
    requires Reaches(s0, s) && AboutToClose(s, t, u)
    requires var pc := s.threads[u]; pc.CheckSeqNo? || pc.CheckState? || Leaving(pc)
    ensures Reaches(s0, s') && AboutToClose(s', t, u) && Leaving(s'.threads[u]) && s'.log == s.log
              && s'.generation == s.generation
  {
    hide Reaches;
    s' := s;
    if s'.threads[u].CheckSeqNo? {
      s' := By(s0, s', u, 0);
    }
    if s'.threads[u].CheckState? {
      s' := By(s0, s', u, 0);
    }
  }

  predicate Reused(s: State, t: nat, u: nat, g: nat, log: seq<Use>)
  {
    && t in s.threads && u in s.threads && t != u && s.threads[t].Sending? && Leaving(s.threads[u])
    && s.state == INIT && s.access == 1 && s.callback == Some(g) && s.generation == g
    && s.place == AddStack && s.shard == Idle && s.log == log
  }

  /** The owner gives the context back and takes it again while the thread is still leaving. */
  lemma TakenAgain(s0: State, s: State, t: nat, u: nat) returns (s': State)
    requires Reaches(s0, s) && AboutToClose(s, t, u) && Leaving(s.threads[u])
    ensures Reaches(s0, s') && s'.threads == s.threads[t := StoreAccess]
    ensures s' == s.(threads := s'.threads, access := ACCESS_CLOSED, generation := s.generation + 1,
                     callback := Some(s.generation + 1), sendReady := false)
  {
    hide Reaches;
    s' := By(s0, s, t, 0);
    s' := By(s0, s', t, 0);
    s' := By(s0, s', t, 0);
    s' := By(s0, s', t, 0);
  }

  /** It submits it. */
  lemma Reuse(s0: State, s: State, t: nat, u: nat) returns (s': State)
    requires Reaches(s0, s) && AboutToClose(s, t, u) && Leaving(s.threads[u])
    ensures Reaches(s0, s') && Reused(s', t, u, s.generation + 1, s.log)
  {
    hide Reaches;
    s' := TakenAgain(s0, s, t, u);
    s' := By(s0, s', t, 0);
    s' := By(s0, s', t, 0);
    s' := By(s0, s', t, 0);
    s' := By(s0, s', t, 0);
  }

  predicate Unguarded(s: State, t: nat, g: nat, log: seq<Use>)
  {
    && t in s.threads && s.threads[t].Doom? && s.state == FINISHED && s.access == 0 && s.callback == Some(g)
    && s.place == AddStack && s.shard == Idle && s.log == log
  }

  /** The leaving thread takes back what it added to the old word: the count drops to 0 under the sender.
      None of its sends goes out, so it is to destroy the callback. */
  lemma CountLost(s0: State, s: State, t: nat, u: nat, g: nat, log: seq<Use>) returns (s': State)
    requires Reaches(s0, s) && Reused(s, t, u, g, log)
    ensures Reaches(s0, s') && Unguarded(s', t, g, log)
  {
    hide Reaches;
    s' := By(s0, s, u, 0);
    s' := By(s0, s', t, 0);
    s' := By(s0, s', t, 0);
  }

  /** The shard sees nobody in and destroys the callback, which the sender then destroys as well. */
  lemma BothDestroy(s0: State, s: State, t: nat, g: nat, log: seq<Use>) returns (s': State)
    requires Reaches(s0, s) && Unguarded(s, t, g, log)
    ensures Reaches(s0, s') && s'.log == log + [Destroyed(g), Destroyed(g)]
  {
    hide Reaches;
    s' := ByShard(s0, s);
    s' := ByShard(s0, s');
    s' := ByShard(s0, s');
    s' := ByShard(s0, s');
    s' := ByShard(s0, s');
    s' := ByShard(s0, s');
    s' := By(s0, s', t, 0);
  }

  lemma UsedTwice(s0: State, s: State, t: nat, u: nat) returns (s': State, g: nat)
    requires Reaches(s0, s) && AboutToClose(s, t, u)
    requires var pc := s.threads[u]; pc.CheckSeqNo? || pc.CheckState? || Leaving(pc)
    ensures Reaches(s0, s') && g == s.generation + 1 && s'.log == s.log + [Destroyed(g), Destroyed(g)]
  {
    hide Reaches, AboutToClose, Reused, Unguarded, Leaving;
    var s1 := TurnedAway(s0, s, t, u);
    var s2 := Reuse(s0, s1, t, u);
    g := s.generation + 1;
    var s3 := CountLost(s0, s2, t, u, g, s.log);
    s' := BothDestroy(s0, s3, t, g, s.log);
  }

  /** The store keeps the invariant exactly when the storing thread is the only one counted; with another
      thread in, there is a continuation in which no thread comes in that did not answer a request, and
      which destroys one callback twice. */
  lemma StoreClosedExactly(s: State, t: nat)
    requires Inv(s) && t in s.threads && s.threads[t].StoreClosed?
    ensures Inv(Next(s, Move(t, 0, 0))) <==> s.access == 1
    ensures s.access != 1 ==> exists s', g :: Reaches(s, s') && s'.log == s.log + [Destroyed(g), Destroyed(g)]
  {
    hide Reaches, Rest;
    if s.access == 1 {
      ClosingStep(s, t);
    } else {
      var u := SomeoneElse(s, t);
      assert u in Counting(Next(s, Move(t, 0, 0)).threads);
      Stay(s);
      var s', g := UsedTwice(s, s, t, u);
    }
  }

  /** A first request is sent to one subscriber, which does not answer in time: what its sender does. */
  lemma FirstSent(s: State, t: nat) returns (s': State)
    requires Init(s) && t in s.threads
    ensures Reaches(s, s') && s'.threads == s.threads[t := Out]
    ensures s' == s.(threads := s'.threads, generation := 1, callback := Some(1), sendReady := true, sends := 1,
                     access := 0, state := INIT, place := AddStack, asked := {1})
  {
    hide Reaches;
    s' := FirstSubmitted(s, t);
    s' := By(s, s', t, 1);
    s' := By(s, s', t, 0);
    s' := By(s, s', t, 0);
  }

  lemma FirstSubmitted(s: State, t: nat) returns (s': State)
    requires Init(s) && t in s.threads
    ensures Reaches(s, s') && s'.threads == s.threads[t := Sending]
    ensures s' == s.(threads := s'.threads, generation := 1, callback := Some(1), access := 1, state := INIT,
                     place := AddStack)
  {
    hide Reaches;
    Stay(s);
    s' := By(s, s, t, 0);
    s' := By(s, s', t, 0);
    s' := By(s, s', t, 0);
    s' := By(s, s', t, 0);
    s' := By(s, s', t, 0);
    s' := By(s, s', t, 0);
  }

  /** The shard closes it and times it out. */
  lemma FirstTimesOut(s0: State, s: State) returns (s': State)
    requires Reaches(s0, s) && s.state == INIT && s.sendReady && s.access == 0
    requires s.place == AddStack && s.shard == Idle
    ensures Reaches(s0, s') && s' == s.(state := TIMEOUT, access := ACCESS_CLOSED, place := Shard, shard := FinalClose)
  {
    hide Reaches, NextOf;
    s' := ByShard(s0, s);
    s' := ByShard(s0, s');
    s' := ByShard(s0, s');
    s' := ByShard(s0, s');
    s' := ByShard(s0, s');
    s' := ByShard(s0, s');
    s' := ByShard(s0, s');
  }

  /** It runs the callback ... */
  lemma FirstRun(s0: State, s: State) returns (s': State)
    requires Reaches(s0, s) && s.state == TIMEOUT && s.access == ACCESS_CLOSED && s.callback == Some(1)
    requires s.shard == FinalClose
    ensures Reaches(s0, s') && s' == s.(callback := None, shard := FinalStoreFree, log := s.log + [Ran(1)])
  {
    hide Reaches, NextOf;
    s' := ByShard(s0, s);
    s' := ByShard(s0, s');
    s' := ByShard(s0, s');
    s' := ByShard(s0, s');
    s' := ByShard(s0, s');
  }

  /** ... and gives the context back. */
  lemma FirstFinalized(s0: State, s: State) returns (s': State)
    requires Reaches(s0, s) && s.state == TIMEOUT && s.access == ACCESS_CLOSED && s.callback == Some(1)
    requires s.shard == FinalClose
    ensures Reaches(s0, s')
    ensures s' == s.(state := FREE, callback := None, place := FreeList, shard := Idle, log := s.log + [Ran(1)])
  {
    hide Reaches, NextOf;
    s' := FirstRun(s0, s);
    s' := ByShard(s0, s');
    s' := ByShard(s0, s');
  }

  /** Its late reply comes in while the next request is prepared. */
  lemma LateReply(s0: State, s: State, t: nat, u: nat) returns (s': State)
    requires Reaches(s0, s) && t in s.threads && u in s.threads && t != u
    requires s.threads[t].Out? && s.threads[u].Out? && 1 in s.asked
    requires s.place == FreeList && s.state == FREE && s.shard == Idle
    ensures Reaches(s0, s') && s'.threads == s.threads[t := Preparing][u := CheckSeqNo(1)]
    ensures s'.place == Hand(t) && s'.shard == Idle && s'.generation == s.generation + 1
    ensures s'.callback == Some(s'.generation) && s'.log == s.log
  {
    hide Reaches;
    s' := By(s0, s, t, 0);
    s' := By(s0, s', t, 0);
    s' := By(s0, s', t, 0);
    s' := By(s0, s', t, 0);
    Go(s0, s', Move(u, 1, 1)); s' := Next(s', Move(u, 1, 1));
  }

  /** That request finds no subscriber and is given up. */
  lemma GivesUp(s0: State, s: State, t: nat, u: nat) returns (s': State)
    requires Reaches(s0, s) && t in s.threads && u in s.threads && t != u
    requires s.threads[t].Preparing? && s.threads[u].CheckSeqNo?
    requires s.place == Hand(t) && s.shard == Idle && s.callback == Some(s.generation)
    ensures Reaches(s0, s') && AboutToClose(s', t, u) && s'.threads[u].CheckSeqNo?
    ensures s'.generation == s.generation && s'.log == s.log + [Destroyed(s.generation)]
  {
    hide Reaches;
    s' := By(s0, s, t, 1);
    s' := By(s0, s', t, 1);
    s' := By(s0, s', t, 1);
    s' := By(s0, s', t, 1);
  }

  /** With two threads or more, a run from the first state uses a callback twice: a request times out, its
      late reply comes in while the second one is given up, and none of the sends of the third goes out. */
  lemma SomeRunUsesTwice(s: State, t: nat, u: nat)
    requires Init(s) && t in s.threads && u in s.threads && t != u
    ensures exists s' :: Reaches(s, s') && s'.log == [Ran(1), Destroyed(2), Destroyed(3), Destroyed(3)]
  {
    hide Reaches, AboutToClose;
    var s1 := FirstSent(s, t);
    var s2 := FirstTimesOut(s, s1);
    var s3 := FirstFinalized(s, s2);
    var s4 := LateReply(s, s3, t, u);
    var s5 := GivesUp(s, s4, t, u);
    var end, g := UsedTwice(s, s5, t, u);
    assert end.log == [Ran(1), Destroyed(2), Destroyed(g), Destroyed(g)];
  }

  /** With one thread every run is careful. */
  lemma {:induction false} AloneIsCareful(run: seq<State>, steps: seq<Step>, i: nat)
    requires IsRun(run, steps) && Init(run[0]) && |run[0].threads| <= 1 && i < |steps|
    ensures Careful(run[i], steps[i]) && |run[i].threads| <= 1 && Inv(run[i])
    decreases i
  {
    hide Rest, Next, Init;
    if i == 0 {
      InitInv(run[0]);
    } else {
      AloneIsCareful(run, steps, i - 1);
      StepInv(run[i - 1], steps[i - 1]);
      SameThreads(run[i - 1], steps[i - 1]);
    }
    AloneAtOne(run[i]);
  }

  lemma SameKeys(s: State, step: Step)
    requires Enabled(s, step) && step.Move?
    ensures Next(s, step).threads.Keys == s.threads.Keys
  {
    var next := Next(s, step);
    assert next == s || next.threads == s.threads[step.thread := next.threads[step.thread]];
  }

  lemma SameThreads(s: State, step: Step)
    requires Enabled(s, step)
    ensures Next(s, step).threads.Keys == s.threads.Keys && |Next(s, step).threads| == |s.threads|
  {
    if step.Move? { SameKeys(s, step); }
    assert |Next(s, step).threads.Keys| == |Next(s, step).threads|;
    assert |s.threads.Keys| == |s.threads|;
  }

  lemma AloneAtOne(s: State)
    requires Inv(s) && |s.threads| <= 1
    ensures forall t :: t in s.threads && s.threads[t].StoreClosed? ==> s.access == 1
  {
    hide Rest;
    forall t | t in s.threads && s.threads[t].StoreClosed?
      ensures s.access == 1
    {
      CountingAfter(s.threads, t, s.threads[t]);
    }
  }
}
