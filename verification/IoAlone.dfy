/**
 What each operation on an IO context does when its thread, or the shard, runs without interruption: the whole
 state afterwards, as a function of the state before.
 */
module IoAlone {
  import opened IoContext
  import opened Requests

  datatype Who = Thread(thread: nat) | TheShard

  predicate Mine(who: Who, step: Step)
  {
    match who
    case Thread(t) => step.Move? && step.thread == t
    case TheShard => step.ShardMove?
  }

  predicate OwnRun(run: seq<State>, steps: seq<Step>, s: State, who: Who, s': State)
  {
    && IsRun(run, steps) && run[0] == s && run[|steps|] == s'
    && forall i :: 0 <= i < |steps| ==> Mine(who, steps[i])
  }

  /** Steps of `who` alone lead from s to s'. */
  ghost predicate Alone(s: State, who: Who, s': State)
  {
    exists run, steps :: OwnRun(run, steps, s, who, s')
  }

  lemma Stand(s: State, who: Who)
    ensures Alone(s, who, s)
  {
    assert OwnRun([s], [], s, who, s);
  }

  lemma Walk(s0: State, s: State, who: Who, step: Step) returns (s': State)
    requires Alone(s0, who, s) && Enabled(s, step) && Mine(who, step)
    ensures Alone(s0, who, s') && s' == Next(s, step)
  {
    hide Next, Enabled, Mine;
    var run, steps :| OwnRun(run, steps, s0, who, s);
    s' := Next(s, step);
    assert OwnRun(run + [s'], steps + [step], s0, who, s');
  }

  /** One more step of the thread. */
  lemma On(s0: State, s: State, t: nat, choice: nat, seqNo: nat) returns (s': State)
    requires Alone(s0, Thread(t), s) && Enabled(s, Move(t, choice, seqNo))
    ensures Alone(s0, Thread(t), s') && s' == NextOf(s, t, choice, seqNo)
  {
    hide NextOf, Enabled, Alone;
    s' := Walk(s0, s, Thread(t), Move(t, choice, seqNo));
  }

  /** One more step of the shard. */
  lemma ShardOn(s0: State, s: State, choice: nat) returns (s': State)
    requires Alone(s0, TheShard, s) && Enabled(s, ShardMove(choice))
    ensures Alone(s0, TheShard, s') && s' == NextOfShard(s, choice)
  {
    hide NextOfShard, Enabled, Alone;
    s' := Walk(s0, s, TheShard, ShardMove(choice));
  }

  // ---- replies and broken endpoints ----

  /** The callback is run, or destroyed, and forgotten. */
  function Spend(s: State, ran: bool): State
  {
    if s.callback.Some? then
      var g := s.callback.generation;
      s.(callback := None, log := s.log + [if ran then Ran(g) else Destroyed(g)])
    else s
  }

  /** TryCompleteIoContext: an open request that was posted and has all its answers is finished, and its
      callback run. */
  function Completed(s: State): State
  {
    if s.sendReady && s.sends <= s.replies && s.state == INIT then Spend(s.(state := FINISHED), true) else s
  }

  /** The winner runs the callback, if there is one. */
  lemma RunAlone(s0: State, s: State, t: nat) returns (s': State)
    requires Alone(s0, Thread(t), s) && t in s.threads && s.threads[t].TakeCallback?
    ensures Alone(s0, Thread(t), s') && s' == Spend(s, true).(threads := s.threads[t := Releasing])
  {
    hide Alone;
    s' := On(s0, s, t, 0, 0);
    if s'.threads[t].ClearCallback? {
      s' := On(s0, s', t, 0, 0);
      s' := On(s0, s', t, 0, 0);
    }
  }

  /** From the start of TryCompleteIoContext until the thread is out again. */
  lemma CompleteAlone(s0: State, s: State, t: nat) returns (s': State)
    requires Alone(s0, Thread(t), s) && t in s.threads && s.threads[t].Completing? && s.access > 0
    ensures Alone(s0, Thread(t), s') && s' == Completed(s).(access := s.access - 1, threads := s.threads[t := Out])
  {
    hide Alone;
    s' := On(s0, s, t, 0, 0);
    if s'.threads[t].Finishing? {
      s' := On(s0, s', t, 0, 0);
      if s'.threads[t].TakeCallback? { s' := RunAlone(s0, s', t); }
    }
    s' := On(s0, s', t, 0, 0);
  }

  predicate Welcome(s: State, q: nat)
  {
    s.access < ACCESS_CLOSED && q == s.generation && s.state == INIT
  }

  /** TryAcquire: the thread gets in exactly when the word is open, the number is that of the current request and
      the request is still open; otherwise it leaves no trace. */
  lemma AcquireAccessAlone(s: State, t: nat, q: nat) returns (s': State)
    requires t in s.threads && s.threads[t].Out?
    ensures Alone(s, Thread(t), s')
    ensures s' == if Welcome(s, q) then s.(access := s.access + 1, threads := s.threads[t := Holding(q)]) else s
  {
    hide Alone;
    Stand(s, Thread(t));
    s' := On(s, s, t, 1, q);
    if s.access < ACCESS_CLOSED {
      s' := On(s, s', t, 0, 0);
      if s'.threads[t].CheckState? { s' := On(s, s', t, 0, 0); }
      if s'.threads[t].Dropping? {
        s' := On(s, s', t, 0, 0);
        assert s'.threads == s.threads;
      }
    }
  }

  /** A reply, one that counts or one that does not: GetIoContext, MarkReplied, TryCompleteIoContext and
      ReleaseAccess. */
  lemma ReplyAlone(s: State, t: nat, q: nat, counts: bool) returns (s': State)
    requires t in s.threads && s.threads[t].Out?
    ensures Alone(s, Thread(t), s')
    ensures s' == if !Welcome(s, q) then s else Completed(if counts then s.(replies := s.replies + 1) else s)
  {
    hide Alone;
    s' := AcquireAccessAlone(s, t, q);
    if Welcome(s, q) {
      s' := On(s, s', t, if counts then 0 else 1, 0);
      s' := CompleteAlone(s, s', t);
      assert s'.threads == s.threads;
    }
  }

  /** ProcessIoInBroken for one context. */
  lemma BreakAlone(s: State, t: nat, q: nat) returns (s': State)
    requires t in s.threads && s.threads[t].Out?
    ensures Alone(s, Thread(t), s') && s' == if Welcome(s, q) then s.(state := BROKEN) else s
  {
    hide Alone;
    s' := AcquireAccessAlone(s, t, q);
    if Welcome(s, q) {
      s' := On(s, s', t, 2, 0);
      s' := On(s, s', t, 0, 0);
      assert s'.threads == s.threads;
    }
  }

  // ---- the sender ----

  /** AcquireIoContext. */
  lemma PrepareAlone(s: State, t: nat) returns (s': State)
    requires t in s.threads && s.threads[t].Out? && s.place == FreeList
    ensures Alone(s, Thread(t), s')
    ensures s' == s.(place := Hand(t), generation := s.generation + 1, callback := Some(s.generation + 1),
              sendReady := false,
                     access := 1, state := PREPARING, threads := s.threads[t := Preparing])
  {
    hide Alone;
    Stand(s, Thread(t));
    s' := On(s, s, t, 0, 0);
    s' := On(s, s', t, 0, 0);
    s' := On(s, s', t, 0, 0);
    s' := On(s, s', t, 0, 0);
  }

  /** ReleaseIoContext of a context in preparation. */
  lemma ReleaseAlone(s: State, t: nat) returns (s': State)
    requires t in s.threads && s.threads[t].Preparing?
    ensures Alone(s, Thread(t), s')
    ensures s' == Spend(s, false).(state := FREE, access := ACCESS_CLOSED, place := FreeList,
              threads := s.threads[t := Out])
  {
    hide Alone;
    Stand(s, Thread(t));
    s' := On(s, s, t, 1, 0);
    s' := On(s, s', t, 0, 0);
    s' := On(s, s', t, 0, 0);
    s' := On(s, s', t, 0, 0);
    s' := On(s, s', t, 0, 0);
    s' := On(s, s', t, 0, 0);
  }

  /** InitIoSubscribers and SubmitIoContext. */
  lemma SubmitAlone(s: State, t: nat) returns (s': State)
    requires t in s.threads && s.threads[t].Preparing?
    ensures Alone(s, Thread(t), s')
    ensures s' == s.(replies := 0, state := INIT, place := AddStack, threads := s.threads[t := Sending])
  {
    hide Alone;
    Stand(s, Thread(t));
    s' := On(s, s, t, 0, 0);
    s' := On(s, s', t, 0, 0);
  }

  /** FinishIoSend when no send went out, after the readiness store. */
  lemma FailAlone(s0: State, s: State, t: nat) returns (s': State)
    requires Alone(s0, Thread(t), s) && t in s.threads && s.threads[t].NoneSent? && s.access > 0
    ensures Alone(s0, Thread(t), s')
    ensures s' == (if s.state == INIT then Spend(s.(state := FINISHED), false) else s)
                    .(access := s.access - 1, threads := s.threads[t := Out])
  {
    hide Alone;
    s' := On(s0, s, t, 0, 0);
    if s'.threads[t].Doom? {
      s' := On(s0, s', t, 0, 0);
      s' := On(s0, s', t, 0, 0);
    }
    s' := On(s0, s', t, 0, 0);
  }

  /** After PostSendAll with n sends that went out and the readiness store. */
  function Posted(s: State, n: nat): State
  {
    s.(sends := n, sendReady := true, asked := s.asked + if n > 0 then {s.generation} else {})
  }

  /** PostSendAll and FinishIoSend with n sends that went out: with none an open request fails and its callback
      is destroyed; otherwise it is complete if the answers are in already. */
  lemma SendAlone(s: State, t: nat, n: nat) returns (s': State)
    requires t in s.threads && s.threads[t].Sending? && s.access > 0
    ensures Alone(s, Thread(t), s')
    ensures s' == (if n > 0 then Completed(Posted(s, n))
                   else if s.state == INIT then Spend(Posted(s, 0).(state := FINISHED), false)
                   else Posted(s, 0)).(access := s.access - 1, threads := s.threads[t := Out])
  {
    hide Alone, NextOf, Completed, Spend;
    s' := PostAlone(s, t, n);
    if n > 0 {
      s' := CompleteAlone(s, s', t);
      CompletedMoves(Posted(s, n), s.threads[t := Completing]);
    } else {
      s' := FailAlone(s, s', t);
      SpendMoves(Posted(s, 0).(state := FINISHED), s.threads[t := NoneSent]);
    }
  }

  lemma PostAlone(s: State, t: nat, n: nat) returns (s': State)
    requires t in s.threads && s.threads[t].Sending?
    ensures Alone(s, Thread(t), s')
    ensures s' == Posted(s, n).(threads := s.threads[t := if n > 0 then Completing else NoneSent])
  {
    hide Alone;
    Stand(s, Thread(t));
    s' := On(s, s, t, n, 0);
    assert s'.asked == Posted(s, n).asked;
  }

  /** The threads play no part in it. */
  lemma CompletedMoves(s: State, threads: map<nat, Pc>)
    ensures Completed(s.(threads := threads)) == Completed(s).(threads := threads)
    ensures Completed(s).access == s.access
  {
  }

  lemma SpendMoves(s: State, threads: map<nat, Pc>)
    ensures Spend(s.(threads := threads), false) == Spend(s, false).(threads := threads)
  {
  }

  // ---- the shard ----

  predicate NobodyIn(s: State)
  {
    s.access == 0 || s.access == ACCESS_CLOSED
  }

  /** FinalizeIoContext: with nobody in, the callback is run for a broken or timed out request and destroyed
      otherwise, if it is still there, and the context given back. */
  function Finalized(s: State): State
  {
    if NobodyIn(s) then
      Spend(s, s.state == TIMEOUT || s.state == BROKEN).(access := ACCESS_CLOSED, state := FREE, place := FreeList,
          shard := Idle)
    else s.(place := Wheel, shard := Idle)
  }

  /** Up to the closed word. */
  lemma CloseAlone(s0: State, s: State) returns (s': State)
    requires Alone(s0, TheShard, s) && s.shard == FinalClose
    ensures Alone(s0, TheShard, s')
    ensures s' == if NobodyIn(s) then s.(access := ACCESS_CLOSED, shard := FinalState)
              else s.(place := Wheel, shard := Idle)
  {
    hide Alone;
    s' := ShardOn(s0, s, 0);
    if s'.shard.FinalCloseCas? { s' := ShardOn(s0, s', 0); }
  }

  lemma FinalizeAlone(s0: State, s: State) returns (s': State)
    requires Alone(s0, TheShard, s) && s.shard == FinalClose
    ensures Alone(s0, TheShard, s') && s' == Finalized(s)
  {
    hide Alone;
    s' := CloseAlone(s0, s);
    if NobodyIn(s) {
      s' := SpendAlone(s0, s');
      s' := ShardOn(s0, s', 0);
      s' := ShardOn(s0, s', 0);
    }
  }

  /** RunIoCallback, or the destroying of a callback that is left. */
  lemma SpendAlone(s0: State, s: State) returns (s': State)
    requires Alone(s0, TheShard, s) && s.shard == FinalState
    ensures Alone(s0, TheShard, s')
    ensures s' == Spend(s, s.state == TIMEOUT || s.state == BROKEN).(shard := FinalStoreFree)
  {
    hide Alone;
    s' := ShardOn(s0, s, 0);
    if s'.shard.FinalTake? {
      s' := ShardOn(s0, s', 0);
      if s'.shard.FinalClear? {
        s' := ShardOn(s0, s', 0);
        s' := ShardOn(s0, s', 0);
      }
    } else if s'.shard.FinalDoom? {
      s' := ShardOn(s0, s', 0);
      s' := ShardOn(s0, s', 0);
    }
  }

  /** ProcessIoContext: an open request that is not fully sent, or not yet due, or has threads in, goes to the
      wheel; a due one is timed out and given back; one that is over is given back. */
  lemma ProcessAlone(s: State, due: bool) returns (s': State)
    requires s.shard == Idle && (s.place == AddStack || s.place == Wheel)
    ensures Alone(s, TheShard, s')
    ensures s' == if s.state == FREE then s.(place := Shard)
                  else if s.state != INIT then Finalized(s)
                  else if s.sendReady && due && NobodyIn(s) then Finalized(s.(state := TIMEOUT))
                  else s.(place := Wheel)
  {
    hide Alone, Finalized;
    Stand(s, TheShard);
    s' := ShardOn(s, s, 0);
    s' := ShardOn(s, s', 0);
    if s'.shard.LoadReady? {
      s' := ShardOn(s, s', 0);
      if s'.shard.CheckTime? {
        s' := ShardOn(s, s', if due then 0 else 1);
        if s'.shard.TryClose? { s' := TimeOutAlone(s, s'); }
      }
    }
    if s'.shard.FinalClose? {
      assert s'.access == ACCESS_CLOSED || s'.access == s.access;
      var closing := s';
      s' := FinalizeAlone(s, s');
      FinalizedSame(closing, if s.state == INIT then s.(state := TIMEOUT) else s);
    }
  }

  lemma TimeOutAlone(s0: State, s: State) returns (s': State)
    requires Alone(s0, TheShard, s) && s.shard == TryClose && s.state == INIT
    ensures Alone(s0, TheShard, s')
    ensures s' == if NobodyIn(s) then s.(access := ACCESS_CLOSED, state := TIMEOUT, shard := FinalClose)
                  else s.(place := Wheel, shard := Idle)
  {
    hide Alone;
    s' := ShardOn(s0, s, 0);
    if s'.shard.CloseCas? { s' := ShardOn(s0, s', 0); }
    if s'.shard.CasTimeout? { s' := ShardOn(s0, s', 0); }
  }

  /** Where the context was and whether the word was closed already make no difference. */
  lemma FinalizedSame(s: State, s': State)
    requires s == s'.(place := s.place, shard := s.shard, access := s.access)
               && (s.access == s'.access || (NobodyIn(s) && NobodyIn(s')))
    ensures Finalized(s) == Finalized(s')
  {
  }
}
