/**
 One multicast IO context under any number of producers, repliers and broken-endpoint handlers and the
 thread of its shard. Each atomic access and each plain write that another thread may see is one step.
 Generations are counted without wrapping; a thread that comes in brings any sequence number at all, so
 one that has come round again is among them. `log` lists, in order, the callbacks that were run or
 destroyed, `asked` holds the generations some subscriber was sent.
 */
module IoContext {
  import opened Requests

  const ACCESS_CLOSED: nat := 0x8000_0000
  const TWO32: nat := 0x1_0000_0000

  datatype IoState = FREE | PREPARING | INIT | FINISHED | TIMEOUT | BROKEN

  /** Where the context is. */
  datatype Place = FreeList | Hand(thread: nat) | AddStack | Wheel | Shard

  datatype Callback = None | Some(generation: nat)

  /** What a thread does next with the context.
      AcquireIoContext: Popped, StoreAccess, StorePreparing, Preparing.
      ReleaseIoContext: DestroyCallback, ForgetCallback, StoreFree, StoreClosed, PushFree.
      SubmitIoContext and FinishIoSend: Submitting, Sending, NoneSent, then Completing.
      TryAcquire: CheckSeqNo, CheckState, Dropping, and Holding once it has succeeded.
      TryCompleteIoContext: Completing, Finishing, TakeCallback, ClearCallback, RunCallback; ReleaseAccess: Releasing.
      FinishIoSend after all sends failed: Doom, Wipe. */
  datatype Pc =
    | Out
    | Popped | StoreAccess | StorePreparing | Preparing
    | DestroyCallback | ForgetCallback | StoreFree | StoreClosed | PushFree
    | Submitting | Sending | NoneSent
    | Completing | Finishing | TakeCallback | ClearCallback(callback: nat) | RunCallback(callback: nat)
    | Doom | Wipe
    | Releasing
    | CheckSeqNo(seqNo: nat) | CheckState(seqNo: nat) | Dropping | Holding(seqNo: nat)

  /** ProcessIoContext and FinalizeIoContext on the thread of the shard. */
  datatype ShardPc =
    | Idle
    | LoadState | LoadReady | CheckTime | TryClose | CloseCas | CasTimeout
    | FinalClose | FinalCloseCas | FinalState
    | FinalTake | FinalClear(callback: nat) | FinalRun(callback: nat) | FinalDoom | FinalWipe
    | FinalStoreFree | FinalPush

  datatype State = State(
    state: IoState,
    generation: nat,
    access: nat,
    sendReady: bool,
    sends: nat,
    replies: nat,
    callback: Callback,
    place: Place,
    threads: map<nat, Pc>,
    shard: ShardPc,
    asked: set<nat>,
    log: seq<Use>)

  predicate Init(s: State)
  {
    && s.state == FREE && s.generation == 0 && s.access == ACCESS_CLOSED && !s.sendReady && s.callback == None
    && s.sends == 0 && s.replies == 0 && s.place == FreeList && s.shard == Idle && s.asked == {} && s.log == []
    && |s.threads| < ACCESS_CLOSED && forall t :: t in s.threads ==> s.threads[t] == Out
  }

  // ---- steps ----

  /** A thread moves on; `choice` and `seqNo` settle what its next action leaves open. */
  datatype Step = Move(thread: nat, choice: nat, seqNo: nat) | ShardMove(choice: nat)

  predicate Enabled(s: State, step: Step)
  {
    match step
    case Move(t, choice, seqNo) => t in s.threads && (s.threads[t] == Out && choice == 0 ==> s.place == FreeList)
    case ShardMove(choice) => s.shard == Idle ==> s.place == AddStack || s.place == Wheel
  }

  function At(s: State, t: nat, pc: Pc): State
  {
    s.(threads := s.threads[t := pc])
  }

  /** fetch_sub on the 32-bit access word. */
  function Dec(access: nat): nat
  {
    if access == 0 then TWO32 - 1 else access - 1
  }

  /** DestroyCallback on the callback of the context, if there is one. */
  function Destroying(s: State): State
  {
    if s.callback.Some? then s.(log := s.log + [Destroyed(s.callback.generation)]) else s
  }

  /** PostSendAll with `count` sends that went out, and the first line of FinishIoSend. */
  function Sent(s: State, count: nat): State
  {
    s.(sends := count, sendReady := true, asked := if count > 0 then s.asked + {s.generation} else s.asked)
  }

  function Next(s: State, step: Step): State
    requires Enabled(s, step)
  {
    match step
    case Move(t, choice, seqNo) => NextOf(s, t, choice, seqNo)
    case ShardMove(choice) => NextOfShard(s, choice)
  }

  /** A Holding thread brings a reply that counts (0) or one that does not (1), breaks the request (2), or
      just leaves. */
  function NextOf(s: State, t: nat, choice: nat, seqNo: nat): State
    requires t in s.threads
  {
    match s.threads[t]
    case Out =>
      if choice == 0 then At(s.(place := Hand(t)), t, Popped)
      else if s.access < ACCESS_CLOSED then At(s.(access := s.access + 1), t, CheckSeqNo(seqNo))
      else s
    case Popped =>
      At(s.(generation := s.generation + 1, callback := Some(s.generation + 1), sendReady := false), t, StoreAccess)
    case StoreAccess => At(s.(access := 1), t, StorePreparing)
    case StorePreparing => At(s.(state := PREPARING), t, Preparing)
    case Preparing =>
      if choice == 0 then At(s.(replies := 0, state := INIT), t, Submitting) else At(s, t, DestroyCallback)
    case DestroyCallback => At(Destroying(s), t, ForgetCallback)
    case ForgetCallback => At(s.(callback := None), t, StoreFree)
    case StoreFree => At(s.(state := FREE), t, StoreClosed)
    case StoreClosed => At(s.(access := ACCESS_CLOSED), t, PushFree)
    case PushFree => At(s.(place := FreeList), t, Out)
    case Submitting => At(s.(place := AddStack), t, Sending)
    case Sending => At(Sent(s, choice), t, if choice == 0 then NoneSent else Completing)
    case NoneSent => if s.state == INIT then At(s.(state := FINISHED), t, Doom) else At(s, t, Releasing)
    case Doom => At(Destroying(s), t, Wipe)
    case Wipe => At(s.(callback := None), t, Releasing)
    case Completing => At(s, t, if s.sendReady && s.sends <= s.replies then Finishing else Releasing)
    case Finishing => if s.state == INIT then At(s.(state := FINISHED), t, TakeCallback) else At(s, t, Releasing)
    case TakeCallback => if s.callback.Some? then At(s, t, ClearCallback(s.callback.generation))
        else At(s, t, Releasing)
    case ClearCallback(c) => At(s.(callback := None), t, RunCallback(c))
    case RunCallback(c) => At(s.(log := s.log + [Ran(c)]), t, Releasing)
    case Releasing => At(s.(access := Dec(s.access)), t, Out)
    case CheckSeqNo(q) => At(s, t, if s.generation == q then CheckState(q) else Dropping)
    case CheckState(q) => At(s, t, if s.state == INIT then Holding(q) else Dropping)
    case Dropping => At(s.(access := Dec(s.access)), t, Out)
    case Holding(q) =>
      if choice == 0 then At(s.(replies := s.replies + 1), t, Completing)
      else if choice == 1 then At(s, t, Completing)
      else if choice == 2 && s.state == INIT then At(s.(state := BROKEN), t, Releasing)
      else At(s, t, Releasing)
  }

  function ToWheel(s: State): State
  {
    s.(place := Wheel, shard := Idle)
  }

  function NextOfShard(s: State, choice: nat): State
  {
    match s.shard
    case Idle => s.(place := Shard, shard := LoadState)
    case LoadState =>
      if s.state == INIT then s.(shard := LoadReady)
      else if s.state == FREE then s.(shard := Idle)
      else s.(shard := FinalClose)
    case LoadReady => if s.sendReady then s.(shard := CheckTime) else ToWheel(s)
    case CheckTime => if choice == 0 then s.(shard := TryClose) else ToWheel(s)
    case TryClose =>
      if s.access == ACCESS_CLOSED then s.(shard := CasTimeout)
      else if s.access != 0 then ToWheel(s)
      else s.(shard := CloseCas)
    case CloseCas => if s.access == 0 then s.(access := ACCESS_CLOSED, shard := CasTimeout) else ToWheel(s)
    case CasTimeout =>
      if s.state == INIT then s.(state := TIMEOUT, shard := FinalClose)
      else if s.state == FREE then s.(shard := Idle)
      else s.(shard := FinalClose)
    case FinalClose =>
      if s.access == ACCESS_CLOSED then s.(shard := FinalState)
      else if s.access != 0 then ToWheel(s)
      else s.(shard := FinalCloseCas)
    case FinalCloseCas => if s.access == 0 then s.(access := ACCESS_CLOSED, shard := FinalState) else ToWheel(s)
    case FinalState =>
      if s.state == TIMEOUT || s.state == BROKEN then s.(shard := FinalTake)
      else if s.callback.Some? then s.(shard := FinalDoom)
      else s.(shard := FinalStoreFree)
    case FinalTake => if s.callback.Some? then s.(shard := FinalClear(s.callback.generation))
        else s.(shard := FinalStoreFree)
    case FinalClear(c) => s.(callback := None, shard := FinalRun(c))
    case FinalRun(c) => s.(log := s.log + [Ran(c)], shard := FinalStoreFree)
    case FinalDoom => Destroying(s).(shard := FinalWipe)
    case FinalWipe => s.(callback := None, shard := FinalStoreFree)
    case FinalStoreFree => s.(state := FREE, shard := FinalPush)
    case FinalPush => s.(place := FreeList, shard := Idle)
  }

  // ---- what the steps keep ----

  /** The thread has the context to itself. */
  predicate Owns(pc: Pc)
  {
    || pc.Popped? || pc.StoreAccess? || pc.StorePreparing? || pc.Preparing? || pc.Submitting?
    || pc.DestroyCallback? || pc.ForgetCallback? || pc.StoreFree? || pc.StoreClosed? || pc.PushFree?
  }

  /** The thread is counted in the access word. */
  predicate Counted(pc: Pc)
  {
    !(pc.Out? || pc.Popped? || pc.StoreAccess? || pc.PushFree?)
  }

  /** The thread has moved the state to FINISHED and is to use the callback. */
  predicate Finisher(pc: Pc)
  {
    pc.TakeCallback? || pc.ClearCallback? || pc.RunCallback? || pc.Doom? || pc.Wipe?
  }

  /** The thread works with a submitted request. */
  predicate User(pc: Pc)
  {
    pc.Sending? || pc.NoneSent? || pc.Completing? || pc.Finishing? || pc.Holding? || Finisher(pc)
  }

  function Counting(threads: map<nat, Pc>): set<nat>
  {
    set t | t in threads && Counted(threads[t])
  }

  /** Everything but the threads, with the access word cut to whether it is open. */
  datatype Core = Core(
    state: IoState,
    generation: nat,
    open: bool,
    sendReady: bool,
    sends: nat,
    replies: nat,
    callback: Callback,
    place: Place,
    shard: ShardPc,
    log: seq<Use>)

  function CoreOf(s: State): Core
  {
    Core(s.state, s.generation, s.access != ACCESS_CLOSED, s.sendReady, s.sends, s.replies, s.callback, s.place,
        s.shard,
         s.log)
  }

  /** The callback of the current generation is there and unused. */
  predicate Fresh(c: Core)
  {
    c.generation > 0 && c.callback == Some(c.generation) && !Logged(c.log, c.generation)
  }

  /** It is used, or there was none yet. */
  predicate Spent(c: Core)
  {
    c.callback == None && (c.generation == 0 || Logged(c.log, c.generation))
  }

  predicate OwnerPhase(c: Core, pc: Pc)
  {
    match pc
    case Popped => c.state == FREE && !c.open && Spent(c)
    case StoreAccess => c.state == FREE && !c.open && Fresh(c) && !c.sendReady
    case StorePreparing => c.state == FREE && c.open && Fresh(c) && !c.sendReady
    case Preparing => c.state == PREPARING && c.open && Fresh(c) && !c.sendReady
    case DestroyCallback => c.state == PREPARING && c.open && Fresh(c)
    case ForgetCallback => c.state == PREPARING && c.open && c.callback == Some(c.generation)
        && Logged(c.log, c.generation)
    case StoreFree => c.state == PREPARING && c.open && Spent(c)
    case StoreClosed => c.state == FREE && c.open && Spent(c)
    case PushFree => c.state == FREE && !c.open && Spent(c)
    case Submitting => (c.state == INIT || c.state == BROKEN) && c.open && Fresh(c) && !c.sendReady
    case _ => false
  }

  predicate NoFinisher(threads: map<nat, Pc>)
  {
    forall t :: t in threads ==> !Finisher(threads[t])
  }

  /** The callback while requests are answered: unused until the state is FINISHED; then the one finisher
      uses it. */
  predicate CallbackOk(c: Core, none: bool)
  {
    if c.state == FINISHED then c.generation > 0 && (none ==> Spent(c)) else Fresh(c)
  }

  predicate FinisherOk(c: Core, pc: Pc)
  {
    match pc
    case TakeCallback => Fresh(c)
    case ClearCallback(g) => Fresh(c) && g == c.generation
    case RunCallback(g) => c.callback == None && !Logged(c.log, c.generation) && g == c.generation > 0
    case Doom => Fresh(c)
    case Wipe => c.callback == Some(c.generation) && Logged(c.log, c.generation)
    case _ => true
  }

  predicate Answering(c: Core, none: bool)
  {
    (c.state == INIT || c.state == FINISHED || c.state == BROKEN) && CallbackOk(c, none)
  }

  predicate Over(c: Core, none: bool)
  {
    (c.state == FINISHED || c.state == BROKEN || c.state == TIMEOUT) && CallbackOk(c, none)
  }

  predicate ShardPhase(c: Core, none: bool)
  {
    match c.shard
    case Idle => false
    case LoadState => c.open && Answering(c, none)
    case LoadReady => c.open && Answering(c, none)
    case CheckTime => c.open && c.sendReady && Answering(c, none)
    case TryClose => c.open && c.sendReady && Answering(c, none)
    case CloseCas => c.open && c.sendReady && Answering(c, none)
    case CasTimeout => !c.open && c.sendReady && Answering(c, none)
    case FinalClose => Over(c, none) && (c.open ==> c.state != TIMEOUT)
    case FinalCloseCas => c.open && Over(c, none) && c.state != TIMEOUT
    case FinalState => !c.open && Over(c, none)
    case FinalTake => !c.open && (c.state == TIMEOUT || c.state == BROKEN) && Fresh(c)
    case FinalClear(g) => !c.open && (c.state == TIMEOUT || c.state == BROKEN) && Fresh(c) && g == c.generation
    case FinalRun(g) =>
      && !c.open && (c.state == TIMEOUT || c.state == BROKEN)
      && c.callback == None && !Logged(c.log, c.generation) && g == c.generation > 0
    case FinalDoom => false
    case FinalWipe => false
    case FinalStoreFree => !c.open && (c.state == FINISHED || c.state == BROKEN || c.state == TIMEOUT) && Spent(c)
                            && c.generation > 0
    case FinalPush => !c.open && c.state == FREE && Spent(c)
  }

  predicate PlaceOk(c: Core, threads: map<nat, Pc>)
  {
    match c.place
    case FreeList => c.state == FREE && !c.open && Spent(c) && c.shard == Idle
    case Hand(t) => t in threads && OwnerPhase(c, threads[t]) && c.shard == Idle
    case AddStack => c.open && Answering(c, NoFinisher(threads)) && c.shard == Idle
    case Wheel => c.open && Answering(c, NoFinisher(threads)) && c.shard == Idle
    case Shard => ShardPhase(c, NoFinisher(threads))
  }

  predicate AccessOk(s: State)
  {
    && |s.threads| < ACCESS_CLOSED
    && if s.access == ACCESS_CLOSED then Counting(s.threads) == {} else s.access == |Counting(s.threads)|
  }

  /** What holds of each thread. */
  predicate ThreadOk(c: Core, t: nat, pc: Pc)
  {
    && (Owns(pc) ==> c.place == Hand(t))
    && (User(pc) ==> c.state == INIT || c.state == FINISHED || c.state == BROKEN)
    && (pc.Sending? || pc.NoneSent? || pc.Finishing? ==> !c.place.Hand?)
    && (Finisher(pc) ==> c.state == FINISHED && !c.place.Hand? && FinisherOk(c, pc))
    && CountsOk(c, pc)
  }

  /** What a thread has found out about the request is still so: which one it is, whether it was sent, and
      whether all answers are in. */
  predicate CountsOk(c: Core, pc: Pc)
  {
    && (pc.Sending? ==> !c.sendReady)
    && (pc.NoneSent? ==> c.sendReady && c.sends == 0)
    && (pc.Finishing? ==> c.sendReady && c.sends <= c.replies)
    && (pc.CheckState? || pc.Holding? ==> pc.seqNo == c.generation)
  }

  predicate ThreadsOk(c: Core, threads: map<nat, Pc>)
  {
    && (forall t :: t in threads ==> ThreadOk(c, t, threads[t]))
    && (forall t, u :: t in threads && u in threads && Finisher(threads[t]) && Finisher(threads[u]) ==> t == u)
    && (forall t, u :: t in threads && u in threads && threads[t].Sending? && threads[u].Sending? ==> t == u)
  }

  predicate LogOk(log: seq<Use>, generation: nat)
  {
    && Distinct(log)
    && (forall u :: u in log ==> 1 <= u.generation <= generation)
    && (forall g: nat :: 1 <= g < generation ==> Logged(log, g))
  }

  predicate Rest(c: Core, threads: map<nat, Pc>)
  {
    ThreadsOk(c, threads) && PlaceOk(c, threads) && LogOk(c.log, c.generation)
  }

  predicate Inv(s: State)
  {
    AccessOk(s) && Rest(CoreOf(s), s.threads)
  }

  lemma InitInv(s: State)
    requires Init(s)
    ensures Inv(s)
  {
    assert Counting(s.threads) == {};
  }

  // ---- the access word ----

  /** A thread that moves changes the counted threads by itself alone. */
  lemma CountingAfter(threads: map<nat, Pc>, t: nat, pc: Pc)
    requires t in threads
    ensures |threads[t := pc]| == |threads|
    ensures |Counting(threads[t := pc])| ==
              |Counting(threads)| - (if Counted(threads[t]) then 1 else 0) + (if Counted(pc) then 1 else 0)
    ensures |Counting(threads)| <= |threads| && |Counting(threads[t := pc])| <= |threads|
    ensures Counted(threads[t]) ==> t in Counting(threads)
  {
    var was, now := Counting(threads), Counting(threads[t := pc]);
    assert threads[t := pc].Keys == threads.Keys;
    assert now - {t} == was - {t};
    assert t in was <==> Counted(threads[t]);
    assert t in now <==> Counted(pc);
    assert |was - {t}| == |was| - if t in was then 1 else 0;
    assert |now - {t}| == |now| - if t in now then 1 else 0;
    SubsetSize(was, threads.Keys);
    SubsetSize(now, threads.Keys);
    assert |threads.Keys| == |threads|;
  }

  lemma {:induction false} SubsetSize(a: set<nat>, b: set<nat>)
    requires a <= b
    ensures |a| <= |b|
    decreases |a|
  {
    if a != {} {
      var x :| x in a;
      SubsetSize(a - {x}, b - {x});
    }
  }

  /** The access word goes with the threads that are in: up by one for a thread that comes in, down by one
      for one that goes, 1 for the owner of a closed context, closed again when the owner is alone. */
  lemma AccessAfter(s: State, s': State, t: nat, pc: Pc)
    requires AccessOk(s) && t in s.threads && s'.threads == s.threads[t := pc]
    requires
      || (Counted(pc) == Counted(s.threads[t]) && s'.access == s.access)
      || (!Counted(s.threads[t]) && Counted(pc) && s.access < ACCESS_CLOSED && s'.access == s.access + 1)
      || (Counted(s.threads[t]) && !Counted(pc) && s'.access == Dec(s.access))
      || (!Counted(s.threads[t]) && Counted(pc) && s.access == ACCESS_CLOSED && s'.access == 1)
      || (Counted(s.threads[t]) && !Counted(pc) && s.access == 1 && s'.access == ACCESS_CLOSED)
    ensures AccessOk(s')
    ensures Counted(s.threads[t]) ==> 0 < s.access < ACCESS_CLOSED
    ensures Counted(pc) ==> s'.access < ACCESS_CLOSED
  {
    hide Counting, Counted;
    CountingAfter(s.threads, t, pc);
  }

  /** With the access word closed, or 0, no thread works with the context. */
  lemma ClosedNoUser(s: State)
    requires AccessOk(s) && (s.access == ACCESS_CLOSED || s.access == 0)
    ensures forall t :: t in s.threads ==> !Counted(s.threads[t])
    ensures NoFinisher(s.threads) && Counting(s.threads) == {}
  {
    forall t | t in s.threads
      ensures !Counted(s.threads[t])
    {
      assert Counted(s.threads[t]) ==> t in Counting(s.threads);
    }
  }

  // ---- steps of the threads ----

  lemma FinisherAfter(threads: map<nat, Pc>, t: nat, pc: Pc)
    requires t in threads
    ensures !Finisher(pc) && !Finisher(threads[t]) ==> (NoFinisher(threads[t := pc]) <==> NoFinisher(threads))
    ensures Finisher(pc) ==> !NoFinisher(threads[t := pc])
    ensures Finisher(threads[t]) ==> !NoFinisher(threads)
  {
    if NoFinisher(threads[t := pc]) && !Finisher(threads[t]) {
      forall u | u in threads ensures !Finisher(threads[u]) { assert u in threads[t := pc]; }
    }
    assert t in threads[t := pc];
  }

  /** A step of a thread that owns nothing and finishes nothing, and leaves the core as it is. */
  lemma QuietStep(c: Core, threads: map<nat, Pc>, t: nat, pc: Pc)
    requires Rest(c, threads) && t in threads && !Owns(threads[t]) && !Owns(pc) && !Finisher(threads[t])
               && !Finisher(pc)
    requires ThreadOk(c, t, pc) && (pc.Sending? ==> threads[t].Sending?)
    ensures Rest(c, threads[t := pc])
  {
    hide LogOk, ShardPhase, CallbackOk, FinisherOk, Finisher, NoFinisher, CountsOk;
    FinisherAfter(threads, t, pc);
  }

  /** Where a request is being answered. */
  lemma UserPlace(c: Core, threads: map<nat, Pc>, t: nat)
    requires Rest(c, threads) && t in threads && User(threads[t]) && c.open
    ensures Answering(c, NoFinisher(threads)) && !c.place.FreeList?
    ensures c.place.Hand? ==> !c.sendReady && c.state != FINISHED
  {
    assert ThreadOk(c, t, threads[t]);
  }

  /** A step of the one thread that is, or becomes, the finisher, or that ends the answering. */
  lemma AnswerStep(c: Core, c': Core, threads: map<nat, Pc>, t: nat, pc: Pc)
    requires Rest(c, threads) && t in threads && User(threads[t]) && c.open && c'.open
    requires c' == c.(state := c'.state, callback := c'.callback, log := c'.log) && LogOk(c'.log, c'.generation)
    requires c'.state == FINISHED || c'.state == BROKEN
    requires c.place.Hand? ==> c'.state != FINISHED
    requires Finisher(threads[t]) || c.state != FINISHED
    requires !Owns(pc) && !pc.Sending? && ThreadOk(c', t, pc) && Answering(c', !Finisher(pc))
    ensures Rest(c', threads[t := pc])
  {
    hide LogOk, FinisherOk;
    var threads' := threads[t := pc];
    assert ThreadOk(c, t, threads[t]);
    forall u | u in threads && u != t
      ensures !Finisher(threads[u])
    {
      assert ThreadOk(c, u, threads[u]);
    }
    assert NoFinisher(threads') <==> !Finisher(pc) by { assert t in threads'; }
    forall u | u in threads'
      ensures ThreadOk(c', u, threads'[u])
    {
      if u != t { assert ThreadOk(c, u, threads[u]); }
    }
    UserPlace(c, threads, t);
  }

  lemma LogSnoc(log: seq<Use>, u: Use)
    requires LogOk(log, u.generation) && u.generation > 0 && !Logged(log, u.generation)
    ensures LogOk(log + [u], u.generation) && Logged(log + [u], u.generation)
  {
    var grown := log + [u];
    assert u in grown;
    forall g: nat | 1 <= g < u.generation
      ensures Logged(grown, g)
    {
      assert Logged(log, g);
    }
    forall i | 0 <= i < |log|
      ensures log[i].generation != u.generation
    {
      assert log[i] in log && (log[i] == Ran(u.generation) || log[i] == Destroyed(u.generation)
               || log[i].generation != u.generation);
    }
  }

  /** Threads that come, are turned away, or go. */
  lemma TransientStep(s: State, t: nat, choice: nat, seqNo: nat)
    requires Inv(s) && Enabled(s, Move(t, choice, seqNo))
    requires var pc := s.threads[t];
             (pc.Out? && choice != 0) || pc.CheckSeqNo? || pc.CheckState? || pc.Dropping? || pc.Releasing?
    ensures Inv(NextOf(s, t, choice, seqNo))
  {
    hide AccessOk, Rest;
    var next := NextOf(s, t, choice, seqNo);
    if next != s {
      AccessAfter(s, next, t, next.threads[t]);
      ThreadFacts(CoreOf(s), s.threads, t);
      QuietStep(CoreOf(s), s.threads, t, next.threads[t]);
    }
  }

  /** Threads that work with a submitted request, but for the finisher. */
  lemma UserStep(s: State, t: nat, choice: nat, seqNo: nat)
    requires Inv(s) && t in s.threads && User(s.threads[t]) && !Finisher(s.threads[t])
    ensures Inv(NextOf(s, t, choice, seqNo))
  {
    hide AccessOk, Rest;
    var next, c := NextOf(s, t, choice, seqNo), CoreOf(s);
    AccessAfter(s, next, t, next.threads[t]);
    UserPlace(c, s.threads, t);
    ThreadFacts(c, s.threads, t);
    if next.state != s.state {
      AnswerStep(c, CoreOf(next), s.threads, t, next.threads[t]);
    } else if s.threads[t].Sending? {
      PostStep(c, CoreOf(next), s.threads, t, next.threads[t]);
    } else {
      RepliesSet(c, s.threads, next.replies);
      QuietStep(CoreOf(next), s.threads, t, next.threads[t]);
    }
  }

  lemma ThreadFacts(c: Core, threads: map<nat, Pc>, t: nat)
    requires Rest(c, threads) && t in threads
    ensures ThreadOk(c, t, threads[t]) && LogOk(c.log, c.generation)
  {
  }

  /** More replies hurt nobody. */
  lemma RepliesSet(c: Core, threads: map<nat, Pc>, replies: nat)
    requires Rest(c, threads) && c.replies <= replies
    ensures Rest(c.(replies := replies), threads)
  {
    hide LogOk, Finisher, Owns, User;
    var c' := c.(replies := replies);
    forall t | t in threads ensures ThreadOk(c', t, threads[t]) { assert ThreadOk(c, t, threads[t]); }
  }

  /** The sender has posted its requests: nobody else has relied on the counts yet. */
  lemma PostStep(c: Core, c': Core, threads: map<nat, Pc>, t: nat, pc: Pc)
    requires Rest(c, threads) && t in threads && threads[t].Sending? && c.open
    requires c' == c.(sendReady := true, sends := c'.sends)
    requires pc == if c'.sends == 0 then NoneSent else Completing
    ensures Rest(c', threads[t := pc])
  {
    hide LogOk;
    var threads' := threads[t := pc];
    assert ThreadOk(c, t, threads[t]);
    FinisherAfter(threads, t, pc);
    forall u | u in threads'
      ensures ThreadOk(c', u, threads'[u])
    {
      if u != t { assert ThreadOk(c, u, threads[u]); }
    }
  }

  /** The finisher. */
  lemma FinisherStep(s: State, t: nat, choice: nat, seqNo: nat)
    requires Inv(s) && t in s.threads && Finisher(s.threads[t])
    ensures Inv(NextOf(s, t, choice, seqNo))
  {
    hide Inv, NextOf;
    if s.threads[t].Doom? || s.threads[t].Wipe? {
      DestroyStep(s, t, choice, seqNo);
    } else {
      RunStep(s, t, choice, seqNo);
    }
  }

  lemma RunStep(s: State, t: nat, choice: nat, seqNo: nat)
    requires Inv(s) && t in s.threads
    requires s.threads[t].TakeCallback? || s.threads[t].ClearCallback? || s.threads[t].RunCallback?
    ensures Inv(NextOf(s, t, choice, seqNo))
  {
    hide AccessOk, Rest, LogOk;
    var next, c := NextOf(s, t, choice, seqNo), CoreOf(s);
    AccessAfter(s, next, t, next.threads[t]);
    UserPlace(c, s.threads, t);
    ThreadFacts(c, s.threads, t);
    if s.threads[t].RunCallback? { LogSnoc(c.log, Ran(c.generation)); }
    AnswerStep(c, CoreOf(next), s.threads, t, next.threads[t]);
  }

  lemma DestroyStep(s: State, t: nat, choice: nat, seqNo: nat)
    requires Inv(s) && t in s.threads && (s.threads[t].Doom? || s.threads[t].Wipe?)
    ensures Inv(NextOf(s, t, choice, seqNo))
  {
    hide AccessOk, Rest, LogOk;
    var next, c := NextOf(s, t, choice, seqNo), CoreOf(s);
    AccessAfter(s, next, t, next.threads[t]);
    UserPlace(c, s.threads, t);
    ThreadFacts(c, s.threads, t);
    if s.threads[t].Doom? { LogSnoc(c.log, Destroyed(c.generation)); }
    AnswerStep(c, CoreOf(next), s.threads, t, next.threads[t]);
  }

  // ---- steps of the owner ----

  /** Before the request is submitted no other thread works with it. */
  lemma OwnerStep(c: Core, c': Core, threads: map<nat, Pc>, t: nat, pc: Pc)
    requires Rest(c, threads) && t in threads && c.place == Hand(t) && (c.state == FREE || c.state == PREPARING)
    requires c'.place == Hand(t) && c'.shard == c.shard && Owns(pc) && OwnerPhase(c', pc)
               && LogOk(c'.log, c'.generation)
    requires c'.generation == c.generation || forall u :: u in threads ==> !threads[u].CheckState?
    ensures Rest(c', threads[t := pc])
  {
    hide LogOk, OwnerPhase, FinisherOk;
    var threads' := threads[t := pc];
    forall u | u in threads'
      ensures ThreadOk(c', u, threads'[u]) && !Finisher(threads'[u])
    {
      if u != t { assert ThreadOk(c, u, threads[u]); }
    }
  }

  lemma OwnedPhase(c: Core, threads: map<nat, Pc>, t: nat)
    requires Rest(c, threads) && t in threads && Owns(threads[t])
    ensures c.place == Hand(t) && c.shard == Idle && OwnerPhase(c, threads[t]) && LogOk(c.log, c.generation)
  {
    assert ThreadOk(c, t, threads[t]);
  }

  lemma NewGeneration(c: Core)
    requires LogOk(c.log, c.generation) && Spent(c)
    ensures LogOk(c.log, c.generation + 1) && !Logged(c.log, c.generation + 1)
  {
  }

  /** From the free list to the submission, but for closing the access word and for handing over. */
  lemma PreparingStep(s: State, t: nat, choice: nat, seqNo: nat)
    requires Inv(s) && t in s.threads && Owns(s.threads[t])
    requires var pc := s.threads[t]; !pc.StoreClosed? && !pc.PushFree? && !pc.Submitting?
    ensures Inv(NextOf(s, t, choice, seqNo))
  {
    hide AccessOk, Rest;
    var next, c := NextOf(s, t, choice, seqNo), CoreOf(s);
    OwnedPhase(c, s.threads, t);
    AccessAfter(s, next, t, next.threads[t]);
    if s.threads[t].Popped? {
      NewGeneration(c);
      ClosedNoUser(s);
    }
    if s.threads[t].DestroyCallback? { LogSnoc(c.log, Destroyed(c.generation)); }
    OwnerStep(c, CoreOf(next), s.threads, t, next.threads[t]);
  }

  lemma ClosingStep(s: State, t: nat)
    requires Inv(s) && t in s.threads && s.threads[t].StoreClosed? && s.access == 1
    ensures Inv(NextOf(s, t, 0, 0))
  {
    hide AccessOk, Rest;
    var next, c := NextOf(s, t, 0, 0), CoreOf(s);
    OwnedPhase(c, s.threads, t);
    AccessAfter(s, next, t, next.threads[t]);
    OwnerStep(c, CoreOf(next), s.threads, t, next.threads[t]);
  }

  /** Off the free list and back on it. */
  lemma FreeListStep(s: State, t: nat, seqNo: nat)
    requires Inv(s) && t in s.threads && (s.threads[t].PushFree? || (s.threads[t].Out? && s.place.FreeList?))
    ensures Inv(NextOf(s, t, 0, seqNo))
  {
    hide AccessOk, FinisherOk;
    var next, c := NextOf(s, t, 0, seqNo), CoreOf(s);
    AccessAfter(s, next, t, next.threads[t]);
    assert ThreadOk(c, t, s.threads[t]);
    forall u | u in next.threads
      ensures ThreadOk(CoreOf(next), u, next.threads[u]) && !Finisher(next.threads[u])
    {
      if u != t { assert ThreadOk(c, u, s.threads[u]); }
    }
  }

  lemma SubmitStep(s: State, t: nat, choice: nat, seqNo: nat)
    requires Inv(s) && t in s.threads && s.threads[t].Submitting?
    ensures Inv(NextOf(s, t, choice, seqNo))
  {
    hide AccessOk, FinisherOk;
    var next, c := NextOf(s, t, choice, seqNo), CoreOf(s);
    AccessAfter(s, next, t, next.threads[t]);
    assert ThreadOk(c, t, s.threads[t]);
    forall u | u in next.threads
      ensures ThreadOk(CoreOf(next), u, next.threads[u]) && !Finisher(next.threads[u])
    {
      if u != t { assert ThreadOk(c, u, s.threads[u]); }
    }
  }

  // ---- steps of the shard ----

  lemma ShardStep(c: Core, c': Core, threads: map<nat, Pc>)
    requires Rest(c, threads) && !c.place.Hand? && !c'.place.Hand? && PlaceOk(c', threads)
               && LogOk(c'.log, c'.generation)
    requires c'.generation == c.generation
    requires
      || c' == c.(place := c'.place, shard := c'.shard, open := c'.open)
      || forall t :: t in threads ==> !User(threads[t])
    ensures Rest(c', threads)
  {
    hide PlaceOk, LogOk, OwnerPhase;
    forall t | t in threads
      ensures ThreadOk(c', t, threads[t])
    {
      assert ThreadOk(c, t, threads[t]);
    }
  }

  /** Up to the closing of the access word. */
  lemma ShardOpen(s: State, choice: nat)
    requires Inv(s) && Enabled(s, ShardMove(choice))
    requires s.access != ACCESS_CLOSED && (s.shard.Idle? || s.place.Shard?)
    ensures Inv(NextOfShard(s, choice))
  {
    hide Inv, NextOfShard;
    if s.shard.Idle? || s.shard.LoadState? || s.shard.LoadReady? || s.shard.CheckTime? {
      ShardLooks(s, choice);
    } else {
      ShardCloses(s, choice);
    }
  }

  lemma ShardLooks(s: State, choice: nat)
    requires Inv(s) && Enabled(s, ShardMove(choice))
    requires s.access != ACCESS_CLOSED && (s.shard.Idle? || s.place.Shard?)
    requires s.shard.Idle? || s.shard.LoadState? || s.shard.LoadReady? || s.shard.CheckTime?
    ensures Inv(NextOfShard(s, choice))
  {
    hide AccessOk, ThreadsOk, LogOk, Counting;
    var next, c := NextOfShard(s, choice), CoreOf(s);
    ClosedAccess(s, next);
    ShardStep(c, CoreOf(next), s.threads);
  }

  lemma ShardCloses(s: State, choice: nat)
    requires Inv(s) && s.access != ACCESS_CLOSED && s.place.Shard?
    requires !(s.shard.Idle? || s.shard.LoadState? || s.shard.LoadReady? || s.shard.CheckTime?)
    ensures Inv(NextOfShard(s, choice))
  {
    hide AccessOk, ThreadsOk, LogOk, Counting;
    var next, c := NextOfShard(s, choice), CoreOf(s);
    if s.access == 0 { ClosedNoUser(s); }
    ClosedAccess(s, next);
    ShardStep(c, CoreOf(next), s.threads);
  }

  lemma ClosedAccess(s: State, next: State)
    requires AccessOk(s) && next.threads == s.threads
    requires next.access == s.access || (Counting(s.threads) == {} && next.access == ACCESS_CLOSED)
    ensures AccessOk(next)
  {
  }

  /** From there on the shard has the context to itself: it settles the outcome and takes the callback. */
  lemma ShardClosed(s: State, choice: nat)
    requires Inv(s) && s.place.Shard? && s.access == ACCESS_CLOSED
    requires s.shard.CasTimeout? || s.shard.FinalClose? || s.shard.FinalState? || s.shard.FinalTake?
    ensures Inv(NextOfShard(s, choice))
  {
    hide AccessOk, ThreadsOk, LogOk, Counting;
    var next, c := NextOfShard(s, choice), CoreOf(s);
    ClosedNoUser(s);
    ClosedAccess(s, next);
    ShardStep(c, CoreOf(next), s.threads);
  }

  /** It runs the callback and gives the context back. */
  lemma ShardUse(s: State, choice: nat)
    requires Inv(s) && s.place.Shard? && s.access == ACCESS_CLOSED
    requires s.shard.FinalClear? || s.shard.FinalRun? || s.shard.FinalStoreFree? || s.shard.FinalPush?
    ensures Inv(NextOfShard(s, choice))
  {
    hide AccessOk, ThreadsOk, LogOk, Counting;
    var next, c := NextOfShard(s, choice), CoreOf(s);
    ClosedNoUser(s);
    ClosedAccess(s, next);
    if s.shard.FinalRun? { LogSnoc(c.log, Ran(c.generation)); }
    ShardStep(c, CoreOf(next), s.threads);
  }

  // ---- every step ----

  /** The store that closes the access word overwrites no thread that is in. */
  predicate Careful(s: State, step: Step)
  {
    step.Move? && step.thread in s.threads && s.threads[step.thread].StoreClosed? ==> s.access == 1
  }

  /** Where the shard can be with the access word closed. */
  lemma ShardCases(s: State)
    requires Inv(s)
    ensures s.shard.Idle? || s.place.Shard?
    ensures s.place.Shard? && s.access == ACCESS_CLOSED ==>
              || s.shard.CasTimeout? || s.shard.FinalClose? || s.shard.FinalState? || s.shard.FinalTake?
              || s.shard.FinalClear? || s.shard.FinalRun? || s.shard.FinalStoreFree? || s.shard.FinalPush?
    ensures s.place.AddStack? || s.place.Wheel? ==> s.access != ACCESS_CLOSED
    ensures s.shard.Idle? ==> !s.place.Shard?
  {
    hide AccessOk, ThreadsOk, LogOk;
  }

  lemma MoveInv(s: State, t: nat, choice: nat, seqNo: nat)
    requires Inv(s) && Enabled(s, Move(t, choice, seqNo)) && Careful(s, Move(t, choice, seqNo))
    ensures Inv(NextOf(s, t, choice, seqNo))
  {
    hide Inv;
    var pc := s.threads[t];
    if Finisher(pc) {
      FinisherStep(s, t, choice, seqNo);
    } else if User(pc) {
      UserStep(s, t, choice, seqNo);
    } else if pc.StoreClosed? {
      ClosingStep(s, t);
    } else if pc.PushFree? || (pc.Out? && choice == 0) {
      FreeListStep(s, t, seqNo);
    } else if pc.Submitting? {
      SubmitStep(s, t, choice, seqNo);
    } else if Owns(pc) {
      PreparingStep(s, t, choice, seqNo);
    } else {
      TransientStep(s, t, choice, seqNo);
    }
  }

  lemma StepInv(s: State, step: Step)
    requires Inv(s) && Enabled(s, step) && Careful(s, step)
    ensures Inv(Next(s, step))
  {
    hide Inv, NextOf, NextOfShard;
    match step
    case Move(t, choice, seqNo) => MoveInv(s, t, choice, seqNo);
    case ShardMove(choice) =>
      ShardCases(s);
      if s.access != ACCESS_CLOSED {
        ShardOpen(s, choice);
      } else if s.shard.CasTimeout? || s.shard.FinalClose? || s.shard.FinalState? || s.shard.FinalTake? {
        ShardClosed(s, choice);
      } else {
        ShardUse(s, choice);
      }
  }

  // ---- whole runs ----

  predicate IsRun(run: seq<State>, steps: seq<Step>)
  {
    && |run| == |steps| + 1
    && forall i :: 0 <= i < |steps| ==> Enabled(run[i], steps[i]) && run[i + 1] == Next(run[i], steps[i])
  }

  predicate CarefulRun(run: seq<State>, steps: seq<Step>)
    requires IsRun(run, steps)
  {
    forall i :: 0 <= i < |steps| ==> Careful(run[i], steps[i])
  }

  lemma {:induction false} RunInv(run: seq<State>, steps: seq<Step>, i: nat)
    requires IsRun(run, steps) && Init(run[0]) && CarefulRun(run, steps) && i < |run|
    ensures Inv(run[i])
  {
    hide Inv, Next, Enabled, Init, Careful;
    if i == 0 {
      InitInv(run[0]);
    } else {
      RunInv(run, steps, i - 1);
      StepInv(run[i - 1], steps[i - 1]);
    }
  }

  /** No callback is run or destroyed twice; when the context is back on the free list every callback it was
      ever given has been run or destroyed, and no thread is left with access to it. */
  lemma EachCallbackOnce(run: seq<State>, steps: seq<Step>, i: nat)
    requires IsRun(run, steps) && Init(run[0]) && CarefulRun(run, steps) && i < |run|
    ensures Distinct(run[i].log) && forall u :: u in run[i].log ==> 1 <= u.generation <= run[i].generation
    ensures run[i].place == FreeList ==> forall g: nat :: 1 <= g <= run[i].generation ==> Logged(run[i].log, g)
    ensures run[i].place == FreeList ==> forall t :: t in run[i].threads ==> !Counted(run[i].threads[t])
  {
    RunInv(run, steps, i);
    if run[i].place == FreeList { ClosedNoUser(run[i]); }
  }
}
