/**
 The lock-free stack of free IO contexts of one shard, under any number of threads. Each load, each plain
 read or write of mNextFree and each compare-and-swap is one step; a weak compare-and-swap may fail at will.
 `stack` and `version` are for the specification: what a plain stack would hold, and how many
 compare-and-swaps have succeeded. The tag is kept in 32 bits.
 */
module FreeStack {

  const INVALID: nat := 0xFFFF_FFFF
  const TWO32: nat := 0x1_0000_0000

  datatype Head = Head(tag: nat, index: nat)

  /** PopFreeContext: Looking, Popping. PushFreeContext: Pushing, Linked. `since` is the version that was
      loaded. */
  datatype Pc =
    | Outside
    | Looking(head: Head, since: nat)
    | Popping(head: Head, following: nat, since: nat)
    | Pushing(context: nat, head: Head)
    | Linked(context: nat, head: Head)
  {
    predicate Carries(c: nat)
    {
      (Pushing? || Linked?) && context == c
    }
  }

  /** `next` is mNextFree of every context; `out` holds the contexts popped and not yet given to a push. */
  datatype State = State(
    head: Head,
    next: map<nat, nat>,
    out: multiset<nat>,
    threads: map<nat, Pc>,
    stack: seq<nat>,
    version: nat)

  // ---- steps ----

  datatype Step =
    | Load(thread: nat)
    | ReadNext(thread: nat)
    | PopCas(thread: nat, spurious: bool)
    | StartPush(thread: nat, context: nat)
    | WriteNext(thread: nat)
    | PushCas(thread: nat, spurious: bool)

  predicate Enabled(s: State, step: Step)
  {
    && step.thread in s.threads
    && var pc := s.threads[step.thread];
       match step
       case Load(_) => pc.Outside?
       case ReadNext(_) => pc.Looking? && pc.head.index in s.next
       case PopCas(_, _) => pc.Popping?
       case StartPush(_, c) => pc.Outside? && c in s.out
       case WriteNext(_) => pc.Pushing?
       case PushCas(_, _) => pc.Linked?
  }

  function At(s: State, t: nat, pc: Pc): State
  {
    s.(threads := s.threads[t := pc])
  }

  /** The loop of PopFreeContext with the head just seen. */
  function Seen(s: State): Pc
  {
    if s.head.index == INVALID then Outside else Looking(s.head, s.version)
  }

  /** A new head with the next tag. */
  function Swung(s: State, index: nat): State
  {
    s.(head := Head((s.head.tag + 1) % TWO32, index), version := s.version + 1)
  }

  function Next(s: State, step: Step): State
    requires Enabled(s, step)
  {
    var t, pc := step.thread, s.threads[step.thread];
    match step
    case Load(_) => At(s, t, Seen(s))
    case ReadNext(_) => At(s, t, Popping(pc.head, s.next[pc.head.index], pc.since))
    case PopCas(_, spurious) =>
      if spurious || s.head != pc.head then At(s, t, Seen(s))
      else At(Swung(s, pc.following).(out := s.out + multiset{pc.head.index},
                                      stack := if s.stack == [] then [] else s.stack[1..]), t, Outside)
    case StartPush(_, c) => At(s.(out := s.out - multiset{c}), t, Pushing(c, s.head))
    case WriteNext(_) => At(s.(next := s.next[pc.context := pc.head.index]), t, Linked(pc.context, pc.head))
    case PushCas(_, spurious) =>
      if spurious || s.head != pc.head then At(s, t, Pushing(pc.context, s.head))
      else At(Swung(s, pc.context).(stack := [pc.context] + s.stack), t, Outside)
  }

  /** Before InitializeIoContexts pushes the contexts. */
  predicate Init(s: State)
  {
    && s.head == Head(0, INVALID) && s.stack == [] && s.version == 0 && INVALID !in s.next
    && s.out == multiset(s.next.Keys) && forall t :: t in s.threads ==> s.threads[t].Outside?
  }

  // ---- what the steps keep ----

  function After(stack: seq<nat>, i: int): nat
    requires 0 <= i
  {
    if i < |stack| then stack[i] else INVALID
  }

  /** The links from the head on are the plain stack. */
  ghost predicate Chain(next: map<nat, nat>, index: nat, stack: seq<nat>)
  {
    && index == After(stack, 0)
    && (forall i :: 0 <= i < |stack| ==> stack[i] in next && next[stack[i]] == After(stack, i + 1))
    && (forall i, j :: 0 <= i < j < |stack| ==> stack[i] != stack[j])
  }

  /** A context on the stack is not out, and one that is out is out once. */
  ghost predicate Places(s: State)
  {
    && (forall c :: c in s.out ==> c in s.next && s.out[c] == 1)
    && (forall c :: c in s.stack ==> c !in s.out)
    && INVALID !in s.next
  }

  /** A context in the hands of a push is nowhere else. */
  ghost predicate HandOk(s: State, t: nat)
  {
    t in s.threads && (s.threads[t].Pushing? || s.threads[t].Linked?) ==>
      var c := s.threads[t].context; c in s.next && c !in s.out && c !in s.stack
  }

  ghost predicate Hands(s: State)
  {
    && (forall t :: t in s.threads ==> HandOk(s, t))
    && (forall t, u, c :: t in s.threads && u in s.threads && s.threads[t].Carries(c) && s.threads[u].Carries(c) ==>
         t == u)
  }

  /** No context is lost. */
  ghost predicate Kept(s: State, c: nat)
  {
    c in s.stack || c in s.out || exists t :: t in s.threads && s.threads[t].Carries(c)
  }

  /** What a thread has seen is right as long as no compare-and-swap has succeeded since. */
  predicate SightOk(s: State, pc: Pc)
  {
    match pc
    case Outside => true
    case Looking(h, v) => h.index in s.next && v <= s.version && h.tag == v % TWO32 && (v == s.version ==> h == s.head)
    case Popping(h, n, v) =>
      && h.index in s.next && v <= s.version && h.tag == v % TWO32
      && (v == s.version ==> h == s.head && n == s.next[h.index])
    case Pushing(_, _) => true
    case Linked(c, h) => c in s.next && s.next[c] == h.index
  }

  ghost predicate Inv(s: State)
  {
    && Chain(s.next, s.head.index, s.stack) && Places(s) && Hands(s) && s.head.tag == s.version % TWO32
    && (forall c :: c in s.next ==> Kept(s, c))
    && (forall t :: t in s.threads ==> SightOk(s, s.threads[t]))
  }

  lemma InitInv(s: State)
    requires Init(s)
    ensures Inv(s)
  {
    forall c | c in s.next
      ensures Kept(s, c)
    {
      assert c in multiset(s.next.Keys);
    }
  }

  /** A pop swings the head before 2^32 others have swung it since its load. */
  predicate Timely(s: State, step: Step)
  {
    step.PopCas? && step.thread in s.threads && s.threads[step.thread].Popping?
        && s.head == s.threads[step.thread].head ==>
      s.version - s.threads[step.thread].since < TWO32
  }

  lemma SameVersion(v: nat, w: nat)
    requires v <= w < v + TWO32 && v % TWO32 == w % TWO32
    ensures v == w
  {
  }

  /** The plain stack after a pop ... */
  lemma ChainPop(next: map<nat, nat>, index: nat, stack: seq<nat>)
    requires Chain(next, index, stack) && index in next && INVALID !in next
    ensures stack != [] && index == stack[0] && Chain(next, next[index], stack[1..])
    ensures forall c :: c in stack[1..] ==> c in stack && c != index
  {
    assert stack != [];
    var rest := stack[1..];
    assert forall i :: 0 <= i < |rest| ==> rest[i] == stack[i + 1];
  }

  /** ... and after a push. */
  lemma ChainPush(next: map<nat, nat>, index: nat, stack: seq<nat>, c: nat)
    requires Chain(next, index, stack) && c !in stack && c in next && next[c] == index
    ensures Chain(next, c, [c] + stack)
  {
    var grown := [c] + stack;
    assert forall i :: 0 < i < |grown| ==> grown[i] == stack[i - 1] && stack[i - 1] in stack;
  }

  /** A thread moves on with what it carries unchanged. */
  lemma KeptMoves(s: State, s': State, t: nat, pc: Pc)
    requires t in s.threads && s'.threads == s.threads[t := pc] && s'.next.Keys == s.next.Keys
    requires forall c :: c in s.next ==> Kept(s, c)
    requires forall c :: c in s.next && (c in s.stack || c in s.out || s.threads[t].Carries(c)) ==>
               c in s'.stack || c in s'.out || pc.Carries(c)
    ensures forall c :: c in s'.next ==> Kept(s', c)
  {
    forall c | c in s'.next
      ensures Kept(s', c)
    {
      assert Kept(s, c);
      assert t in s'.threads && s'.threads[t] == pc;
      if u :| u in s.threads && s.threads[u].Carries(c) && u != t {
        assert s'.threads[u].Carries(c);
      }
    }
  }

  /** A thread has swung the head and leaves; no context turns up that was not there or in its hands. */
  lemma SwungThreads(s: State, s': State, t: nat)
    requires Inv(s) && t in s.threads && s'.threads == s.threads[t := Outside]
    requires s'.version == s.version + 1 && s'.next == s.next
    requires forall c :: c in s'.stack || c in s'.out ==> c in s.stack || c in s.out || s.threads[t].Carries(c)
    ensures Hands(s') && forall u :: u in s'.threads ==> SightOk(s', s'.threads[u])
  {
    hide Kept, Chain, Places;
    forall u | u in s'.threads
      ensures HandOk(s', u) && SightOk(s', s'.threads[u])
    {
      assert HandOk(s, u) && SightOk(s, s.threads[u]);
      if s'.threads[u].Pushing? || s'.threads[u].Linked? { assert s.threads[u].Carries(s.threads[u].context); }
    }
  }

  lemma NextTag(version: nat)
    ensures (version % TWO32 + 1) % TWO32 == (version + 1) % TWO32
  {
  }

  lemma PopInv(s: State, t: nat)
    requires Inv(s) && Enabled(s, PopCas(t, false)) && s.head == s.threads[t].head
    requires s.head.index in s.next && s.threads[t].following == s.next[s.head.index]
    ensures Inv(Next(s, PopCas(t, false)))
  {
    hide Chain, Kept, Hands, SightOk;
    var next := Next(s, PopCas(t, false));
    ChainPop(s.next, s.head.index, s.stack);
    assert s.head.index in s.stack;
    NextTag(s.version);
    SwungThreads(s, next, t);
    KeptMoves(s, next, t, Outside);
  }

  lemma PushInv(s: State, t: nat)
    requires Inv(s) && Enabled(s, PushCas(t, false)) && s.head == s.threads[t].head
    ensures Inv(Next(s, PushCas(t, false)))
  {
    hide Chain, Kept, Hands;
    var next, c := Next(s, PushCas(t, false)), s.threads[t].context;
    ThreadHand(s, t);
    ChainPush(s.next, s.head.index, s.stack, c);
    NextTag(s.version);
    assert s.threads[t].Carries(c);
    SwungThreads(s, next, t);
    KeptMoves(s, next, t, Outside);
  }

  lemma ThreadHand(s: State, t: nat)
    requires Inv(s) && t in s.threads
    ensures HandOk(s, t)
  {
  }

  /** Writing mNextFree of a context in hand touches no link of the stack and nothing a pop in time has read. */
  lemma WriteInv(s: State, t: nat)
    requires Inv(s) && Enabled(s, WriteNext(t))
    ensures Inv(Next(s, WriteNext(t)))
  {
    hide Kept;
    var next, c := Next(s, WriteNext(t)), s.threads[t].context;
    assert HandOk(s, t) && s.threads[t].Carries(c);
    assert next.next.Keys == s.next.Keys;
    assert Chain(next.next, next.head.index, next.stack) by {
      assert forall i :: 0 <= i < |s.stack| ==> s.stack[i] in s.stack;
    }
    KeptMoves(s, next, t, next.threads[t]);
    forall u | u in next.threads
      ensures SightOk(next, next.threads[u]) && HandOk(next, u)
    {
      assert SightOk(s, s.threads[u]) && HandOk(s, u);
      if u != t && s.threads[u].Linked? { assert s.threads[u].Carries(s.threads[u].context); }
      TopInStack(s);
    }
  }

  lemma TopInStack(s: State)
    requires Inv(s)
    ensures s.head.index in s.next ==> s.head.index in s.stack
  {
  }

  lemma StartInv(s: State, t: nat, c: nat)
    requires Inv(s) && Enabled(s, StartPush(t, c))
    ensures Inv(Next(s, StartPush(t, c)))
  {
    hide Chain, Kept;
    var next := Next(s, StartPush(t, c));
    forall u | u in s.threads
      ensures !s.threads[u].Carries(c)
    {
      assert HandOk(s, u);
    }
    KeptMoves(s, next, t, next.threads[t]);
    forall u | u in next.threads
      ensures HandOk(next, u)
    {
      assert HandOk(s, u);
    }
  }

  /** Only the thread changes, and what it carries does not. */
  lemma ThreadInv(s: State, t: nat, pc: Pc)
    requires Inv(s) && t in s.threads && SightOk(s, pc) && forall c :: pc.Carries(c) <==> s.threads[t].Carries(c)
    ensures Inv(At(s, t, pc))
  {
    hide Kept, Chain;
    var next := At(s, t, pc);
    KeptMoves(s, next, t, pc);
    assert HandOk(s, t);
    if pc.Pushing? || pc.Linked? { assert pc.Carries(pc.context); }
    forall u | u in next.threads
      ensures HandOk(next, u) && SightOk(next, next.threads[u])
    {
      assert HandOk(s, u) && SightOk(s, s.threads[u]);
    }
  }

  /** The steps that change nothing but the thread. */
  lemma LookInv(s: State, step: Step)
    requires Inv(s) && Enabled(s, step) && Next(s, step) == At(s, step.thread, Next(s, step).threads[step.thread])
    requires step.Load? || step.ReadNext? || step.PopCas? || step.PushCas?
    ensures Inv(Next(s, step))
  {
    hide Inv;
    var t := step.thread;
    TopKnown(s);
    assert SightOk(s, s.threads[t]) by { ThreadSight(s, t); }
    ThreadInv(s, t, Next(s, step).threads[t]);
  }

  lemma ThreadSight(s: State, t: nat)
    requires Inv(s) && t in s.threads
    ensures SightOk(s, s.threads[t])
  {
  }

  lemma TopKnown(s: State)
    requires Inv(s)
    ensures s.head.index == INVALID || s.head.index in s.next
    ensures s.head.tag == s.version % TWO32
  {
  }

  lemma StepInv(s: State, step: Step)
    requires Inv(s) && Enabled(s, step) && Timely(s, step)
    ensures Inv(Next(s, step))
  {
    hide Inv;
    var t := step.thread;
    match step
    case Load(_) => LookInv(s, step);
    case ReadNext(_) => LookInv(s, step);
    case PopCas(_, spurious) =>
      if spurious || s.head != s.threads[t].head {
        LookInv(s, step);
      } else {
        TimelyIsFresh(s, t);
        PopInv(s, t);
      }
    case StartPush(_, c) => StartInv(s, t, c);
    case WriteNext(_) => WriteInv(s, t);
    case PushCas(_, spurious) =>
      if spurious || s.head != s.threads[t].head { LookInv(s, step); } else { PushInv(s, t); }
  }

  /** In time, an equal head is the head that was loaded, and the link read is still right. */
  lemma TimelyIsFresh(s: State, t: nat)
    requires Inv(s) && Enabled(s, PopCas(t, false)) && Timely(s, PopCas(t, false)) && s.head == s.threads[t].head
    ensures s.head.index in s.next && s.threads[t].since == s.version && s.threads[t].following == s.next[s.head.index]
  {
    assert SightOk(s, s.threads[t]);
    SameVersion(s.threads[t].since, s.version);
  }

  // ---- whole runs ----

  predicate IsRun(run: seq<State>, steps: seq<Step>)
  {
    && |run| == |steps| + 1
    && forall i :: 0 <= i < |steps| ==> Enabled(run[i], steps[i]) && run[i + 1] == Next(run[i], steps[i])
  }

  predicate TimelyRun(run: seq<State>, steps: seq<Step>)
    requires IsRun(run, steps)
  {
    forall i :: 0 <= i < |steps| ==> Timely(run[i], steps[i])
  }

  lemma {:induction false} RunInv(run: seq<State>, steps: seq<Step>, i: nat)
    requires IsRun(run, steps) && Init(run[0]) && TimelyRun(run, steps) && i < |run|
    ensures Inv(run[i])
  {
    hide Inv, Next, Enabled, Init, Timely;
    if i == 0 {
      InitInv(run[0]);
    } else {
      RunInv(run, steps, i - 1);
      StepInv(run[i - 1], steps[i - 1]);
    }
  }

  /** At every point of a timely run each context is in one place: once on the stack, once out, or in the hands
      of one push. */
  lemma OnePlace(run: seq<State>, steps: seq<Step>, i: nat, c: nat)
    requires IsRun(run, steps) && Init(run[0]) && TimelyRun(run, steps) && i < |run| && c in run[i].next
    ensures var s := run[i];
            && Kept(s, c) && s.out[c] <= 1 && !(c in s.stack && c in s.out)
            && (forall t :: t in s.threads && s.threads[t].Carries(c) ==> c !in s.stack && c !in s.out)
            && (forall t, u ::
                  t in s.threads && u in s.threads && s.threads[t].Carries(c) && s.threads[u].Carries(c) ==> t == u)
            && (forall j, k :: 0 <= j < k < |s.stack| ==> s.stack[j] != s.stack[k])
  {
    RunInv(run, steps, i);
    forall t | t in run[i].threads && run[i].threads[t].Carries(c)
      ensures c !in run[i].stack && c !in run[i].out
    {
      assert HandOk(run[i], t);
    }
  }

  /** A pop that swings the head gets the top of the plain stack, which was not out. */
  lemma PopsTheTop(run: seq<State>, steps: seq<Step>, i: nat)
    requires IsRun(run, steps) && Init(run[0]) && TimelyRun(run, steps) && i < |steps|
    requires steps[i].PopCas? && run[i + 1].version > run[i].version
    ensures run[i].stack != [] && run[i].stack[0] !in run[i].out
    ensures run[i + 1].stack == run[i].stack[1..] && run[i + 1].out == run[i].out + multiset{run[i].stack[0]}
  {
    RunInv(run, steps, i);
    var t := steps[i].thread;
    assert SightOk(run[i], run[i].threads[t]);
    ChainPop(run[i].next, run[i].head.index, run[i].stack);
    assert run[i].stack[0] in run[i].stack;
  }

  /** A pop comes back without a context only from an empty stack. */
  lemma EmptyHanded(run: seq<State>, steps: seq<Step>, i: nat)
    requires IsRun(run, steps) && Init(run[0]) && TimelyRun(run, steps) && i < |steps|
    requires steps[i].Load? || steps[i].PopCas?
    requires run[i + 1].version == run[i].version && run[i + 1].threads[steps[i].thread].Outside?
    ensures run[i].stack == []
  {
    RunInv(run, steps, i);
  }

  /** Every step of a thread leaves every other thread alone. */
  lemma OthersStay(s: State, step: Step, u: nat)
    requires Enabled(s, step) && u in s.threads && u != step.thread
    ensures u in Next(s, step).threads && Next(s, step).threads[u] == s.threads[u]
  {
  }

  /** A compare-and-swap that does not fail at will fails only if another has succeeded since the load: some
      thread always gets on. */
  lemma BeatenOnlyByOthers(run: seq<State>, steps: seq<Step>, i: nat)
    requires IsRun(run, steps) && Init(run[0]) && TimelyRun(run, steps) && i < |steps|
    requires steps[i].PopCas? && !steps[i].spurious && run[i + 1].version == run[i].version
    ensures run[i].threads[steps[i].thread].since < run[i].version
  {
    RunInv(run, steps, i);
    assert SightOk(run[i], run[i].threads[steps[i].thread]);
  }

  /** A pop that swings the head keeps the stack right exactly when the link it read is still the link. */
  lemma PopExactly(s: State, t: nat)
    requires Inv(s) && Enabled(s, PopCas(t, false)) && s.head == s.threads[t].head
    ensures s.head.index in s.next
    ensures Inv(Next(s, PopCas(t, false))) <==> s.threads[t].following == s.next[s.head.index]
  {
    assert SightOk(s, s.threads[t]);
    ChainPop(s.next, s.head.index, s.stack);
    if s.threads[t].following == s.next[s.head.index] { PopInv(s, t); }
  }

  // ---- a pop that is not timely ----

  predicate Path(run: seq<State>, steps: seq<Step>, s: State, s': State)
  {
    IsRun(run, steps) && run[0] == s && run[|steps|] == s'
  }

  ghost predicate Reaches(s: State, s': State)
  {
    exists run, steps :: Path(run, steps, s, s')
  }

  lemma Stay(s: State)
    ensures Reaches(s, s)
  {
    assert Path([s], [], s, s);
  }

  lemma Go(s0: State, s: State, step: Step) returns (s': State)
    requires Reaches(s0, s) && Enabled(s, step)
    ensures Reaches(s0, s') && s' == Next(s, step)
  {
    hide Next, Enabled;
    var run, steps :| Path(run, steps, s0, s);
    s' := Next(s, step);
    assert Path(run + [s'], steps + [step], s0, s');
  }

  function Tag(n: nat): nat
  {
    n % TWO32
  }

  /** A whole push with no other thread in between. */
  lemma Push(s0: State, s: State, u: nat, c: nat) returns (s': State)
    requires Reaches(s0, s) && u in s.threads && s.threads[u].Outside? && c in s.out
    ensures Reaches(s0, s')
    ensures s' == s.(head := Head(Tag(s.head.tag + 1), c), next := s.next[c := s.head.index],
              out := s.out - multiset{c},
                     stack := [c] + s.stack, version := s.version + 1)
  {
    hide Reaches;
    s' := Go(s0, s, StartPush(u, c));
    s' := Go(s0, s', WriteNext(u));
    s' := Go(s0, s', PushCas(u, false));
    assert s'.threads == s.threads;
  }

  /** A whole pop with no other thread in between. */
  lemma Pop(s0: State, s: State, u: nat) returns (s': State)
    requires Reaches(s0, s) && u in s.threads && s.threads[u].Outside? && s.head.index in s.next && INVALID !in s.next
    ensures Reaches(s0, s')
    ensures s' == s.(head := Head(Tag(s.head.tag + 1), s.next[s.head.index]), out := s.out + multiset{s.head.index},
                     stack := if s.stack == [] then [] else s.stack[1..], version := s.version + 1)
  {
    hide Reaches;
    s' := Go(s0, s, Load(u));
    s' := Go(s0, s', ReadNext(u));
    s' := Go(s0, s', PopCas(u, false));
    assert s'.threads == s.threads;
  }

  /** The only context on the stack, popped and pushed n times. */
  lemma {:induction false} Cycles(s0: State, s: State, u: nat, n: nat) returns (s': State)
    requires Reaches(s0, s) && u in s.threads && s.threads[u].Outside? && INVALID !in s.next
    requires s.stack == [s.head.index] && s.head.index in s.next && s.next[s.head.index] == INVALID
               && s.head.tag < TWO32
    ensures Reaches(s0, s')
    ensures s' == s.(head := Head(Tag(s.head.tag + 2 * n), s.head.index), version := s.version + 2 * n)
    decreases n
  {
    hide Reaches;
    s' := s;
    if n > 0 {
      s' := Cycles(s0, s, u, n - 1);
      var c := s.head.index;
      s' := Pop(s0, s', u);
      s' := Push(s0, s', u, c);
      assert s'.next == s.next && s'.out == s.out && s'.stack == s.stack;
      TagTwice(s.head.tag + 2 * (n - 1));
    }
  }

  lemma TagTwice(n: nat)
    ensures Tag(Tag(Tag(n) + 1) + 1) == Tag(n + 2)
  {
  }

  /** Three contexts are pushed, and t begins to pop the last one. */
  lemma Begun(s: State, t: nat, u: nat, a: nat, b: nat, c: nat) returns (s': State)
    requires Init(s) && t in s.threads && u in s.threads && t != u && s.next.Keys == {a, b, c} && a != b && b != c
               && a != c
    ensures Reaches(s, s') && s'.threads == s.threads[t := Popping(Head(3, a), b, 3)]
    ensures s'.head == Head(3, a) && s'.next == s.next[c := INVALID][b := c][a := b] && s'.stack == [a, b, c]
    ensures s'.out == multiset(s.next.Keys) - multiset{c} - multiset{b} - multiset{a} && s'.version == 3
  {
    hide Reaches;
    Stay(s);
    s' := Push(s, s, u, c);
    s' := Push(s, s', u, b);
    s' := Push(s, s', u, a);
    assert s'.stack == [a, b, c];
    s' := Go(s, s', Load(t));
    s' := Go(s, s', ReadNext(t));
  }

  /** Others pop all three, push the first one back, and go on until the tag has come round. */
  lemma ComeRound(s0: State, s: State, u: nat, a: nat, b: nat, c: nat) returns (s': State)
    requires Reaches(s0, s) && u in s.threads && s.threads[u].Outside? && a != b && b != c && a != c
    requires s.head == Head(3, a) && s.stack == [a, b, c] && {a, b, c} <= s.next.Keys && INVALID !in s.next
    requires s.next[a] == b && s.next[b] == c && s.next[c] == INVALID && s.version == 3
    ensures Reaches(s0, s') && s'.head == Head(3, a) && s'.next == s.next[a := INVALID] && s'.threads == s.threads
    ensures s'.out == s.out + multiset{b, c} && s'.stack == [a] && s'.version == 3 + TWO32
  {
    hide Reaches;
    s' := Pop(s0, s, u);
    s' := Pop(s0, s', u);
    s' := Pop(s0, s', u);
    assert s'.stack == [];
    s' := Push(s0, s', u, a);
    assert s'.stack == [a] && s'.out == s.out + multiset{b, c};
    s' := Cycles(s0, s', u, 0x7FFF_FFFE);
  }

  /** With two threads and three contexts, a pop that is not timely puts a context on the stack that is out,
      and the next pop hands it out a second time. */
  lemma PoppedTwice(s: State, t: nat, u: nat, a: nat, b: nat, c: nat)
    requires Init(s) && t in s.threads && u in s.threads && t != u && s.next.Keys == {a, b, c} && a != b && b != c
               && a != c
    ensures exists s' :: Reaches(s, s') && s'.out[b] == 2
  {
    hide Reaches;
    var s1 := Begun(s, t, u, a, b, c);
    assert s1.out[b] == 0;
    var s2 := ComeRound(s, s1, u, a, b, c);
    assert s2.out[b] == 1;
    var s3 := Go(s, s2, PopCas(t, false));
    assert s3.out[b] == 1 && s3.head.index == b;
    var s4 := Pop(s, s3, u);
    assert s4.out[b] == 2;
  }
}
