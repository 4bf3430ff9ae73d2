/**
 The double-buffered subscription snapshot of Publisher: any number of readers, rebuilds one at a time
 under a lock. Each atomic load, store, addition or write is one step, in any interleaving.
 `sides` are numbered by a bool; `published` lists every version ever made current, oldest first.
 */
module Snapshot {

  type Content = seq<nat>

  /** A reader in AcquireSubscriptionSnapshot or past it. `since` is the number of the version that was
      current when it began, `version` that of the one it holds. */
  datatype Reader =
    | Outside
    | Loaded(side: bool, since: nat)
    | Counted(side: bool, since: nat)
    | Backing(side: bool, since: nat)
    | Holding(side: bool, since: nat, version: nat)
  {
    /** It has added itself to the counter of this side and not taken itself off. */
    predicate On(s: bool)
    {
      (Counted? || Backing? || Holding?) && side == s
    }
  }

  /** A rebuild in RebuildSubscriptionGroupsLocked, on its way to publish `content` on `side`. */
  datatype Writer = Idle | Waiting(side: bool, content: Content) | Writing(side: bool, content: Content)

  datatype State = State(
    index: bool,
    counters: map<bool, int>,
    snapshots: map<bool, Content>,
    readers: map<nat, Reader>,
    writer: Writer,
    published: seq<Content>)

  // ---- steps ----

  datatype Step =
    | LoadIndex(reader: nat)
    | AddReader(reader: nat)
    | CheckIndex(reader: nat)
    | BackOff(reader: nat)
    | Release(reader: nat)
    | StartRebuild(content: Content)
    | SeeNoReaders
    | WriteSome(partial: Content)
    | Publish

  predicate Current(s: State)
  {
    s.published != [] && s.counters.Keys == {true, false} && s.snapshots.Keys == {true, false}
  }

  function SetReader(s: State, r: nat, pc: Reader): State
  {
    s.(readers := s.readers[r := pc])
  }

  function Bump(s: State, side: bool, delta: int): State
    requires Current(s)
  {
    s.(counters := s.counters[side := s.counters[side] + delta])
  }

  /** What a step does. */
  function Next(s: State, step: Step): (r: State)
    requires Current(s) && Enabled(s, step)
    ensures Current(r)
  {
    match step
    case LoadIndex(r) => SetReader(s, r, Loaded(s.index, |s.published| - 1))
    case AddReader(r) => SetReader(Bump(s, s.readers[r].side, 1), r, Counted(s.readers[r].side, s.readers[r].since))
    case CheckIndex(r) =>
      var pc := s.readers[r];
      if pc.side == s.index then SetReader(s, r, Holding(pc.side, pc.since, |s.published| - 1))
      else SetReader(s, r, Backing(pc.side, pc.since))
    case BackOff(r) => SetReader(Bump(s, s.readers[r].side, -1), r, Outside)
    case Release(r) => SetReader(Bump(s, s.readers[r].side, -1), r, Outside)
    case StartRebuild(content) => s.(writer := Waiting(!s.index, content))
    case SeeNoReaders => s.(writer := Writing(s.writer.side, s.writer.content))
    case WriteSome(partial) => s.(snapshots := s.snapshots[s.writer.side := partial])
    case Publish => s.(index := s.writer.side, published := s.published + [s.writer.content], writer := Idle)
  }

  predicate Enabled(s: State, step: Step)
    requires Current(s)
  {
    match step
    case LoadIndex(r) => r in s.readers && s.readers[r].Outside?
    case AddReader(r) => r in s.readers && s.readers[r].Loaded?
    case CheckIndex(r) => r in s.readers && s.readers[r].Counted?
    case BackOff(r) => r in s.readers && s.readers[r].Backing?
    case Release(r) => r in s.readers && s.readers[r].Holding?
    case StartRebuild(content) => s.writer.Idle?
    case SeeNoReaders => s.writer.Waiting? && s.counters[s.writer.side] == 0
    case WriteSome(partial) => s.writer.Writing?
    case Publish => s.writer.Writing? && s.snapshots[s.writer.side] == s.writer.content
  }

  predicate Init(s: State)
  {
    && s.index == false && s.counters == map[false := 0, true := 0] && s.snapshots == map[false := [], true := []]
    && (forall r :: r in s.readers ==> s.readers[r].Outside?) && s.writer.Idle? && s.published == [[]]
  }

  /** Some interleaving of steps leads from s to t. */
  ghost predicate Leads(s: State, steps: seq<Step>, t: State)
    decreases |steps|
  {
    if steps == [] then s == t
    else Current(s) && Enabled(s, steps[0]) && Leads(Next(s, steps[0]), steps[1..], t)
  }

  // ---- what every step keeps ----

  function OnSide(readers: map<nat, Reader>, side: bool): set<nat>
  {
    set r | r in readers && readers[r].On(side)
  }

  /** The version a reader holds is the one stored on its side, and was current at some point since the
      reader began. */
  predicate ReaderOk(s: State, pc: Reader)
    requires Current(s)
  {
    match pc
    case Outside => true
    case Loaded(side, since) => since < |s.published|
    case Counted(side, since) => since < |s.published|
    case Backing(side, since) => since < |s.published|
    case Holding(side, since, version) =>
      since <= version < |s.published| && s.snapshots[side] == s.published[version]
  }

  predicate Inv(s: State)
  {
    && Current(s)
    && s.counters[false] == |OnSide(s.readers, false)| && s.counters[true] == |OnSide(s.readers, true)|
    && s.snapshots[s.index] == s.published[|s.published| - 1]
    && (forall r :: r in s.readers ==> ReaderOk(s, s.readers[r]))
    && (!s.writer.Idle? ==> s.writer.side == !s.index)
    && (s.writer.Writing? ==> forall r :: r in s.readers ==>
         !(s.readers[r].Holding? && s.readers[r].side == s.writer.side))
  }

  /** A reader that changes its state changes the counted sets by itself alone. */
  lemma OnSideAfter(readers: map<nat, Reader>, r: nat, pc: Reader, side: bool)
    requires r in readers
    ensures |OnSide(readers[r := pc], side)| ==
              |OnSide(readers, side)| - (if readers[r].On(side) then 1 else 0) + (if pc.On(side) then 1 else 0)
  {
    var was, now := OnSide(readers, side), OnSide(readers[r := pc], side);
    assert now - {r} == was - {r};
    assert r in was <==> readers[r].On(side);
    assert r in now <==> pc.On(side);
    assert |was - {r}| == |was| - if r in was then 1 else 0;
    assert |now - {r}| == |now| - if r in now then 1 else 0;
  }

  lemma InitInv(s: State)
    requires Init(s)
    ensures Inv(s)
  {
    assert OnSide(s.readers, false) == {} && OnSide(s.readers, true) == {};
  }

  lemma StepInv(s: State, step: Step)
    requires Inv(s) && Enabled(s, step)
    ensures Inv(Next(s, step))
  {
    if step.StartRebuild? || step.SeeNoReaders? || step.WriteSome? || step.Publish? {
      WriterStepInv(s, step);
    } else {
      ReaderStepInv(s, step);
    }
  }

  lemma WriterStepInv(s: State, step: Step)
    requires Inv(s) && Enabled(s, step) && (step.StartRebuild? || step.SeeNoReaders? || step.WriteSome?
               || step.Publish?)
    ensures Inv(Next(s, step))
  {
    hide OnSide;
    if step.SeeNoReaders? { NobodyHolds(s, s.writer.side); }
  }

  lemma ReaderStepInv(s: State, step: Step)
    requires Inv(s) && Enabled(s, step)
    requires step.LoadIndex? || step.AddReader? || step.CheckIndex? || step.BackOff? || step.Release?
    ensures Inv(Next(s, step))
  {
    hide OnSide;
    OnSideAfter(s.readers, step.reader, Next(s, step).readers[step.reader], false);
    OnSideAfter(s.readers, step.reader, Next(s, step).readers[step.reader], true);
  }

  lemma NobodyHolds(s: State, side: bool)
    requires Inv(s) && s.counters[side] == 0
    ensures forall r :: r in s.readers ==> !s.readers[r].On(side)
  {
    forall r | r in s.readers
      ensures !s.readers[r].On(side)
    {
      assert s.readers[r].On(side) ==> r in OnSide(s.readers, side);
    }
  }

  lemma {:induction false} RunInv(s: State, steps: seq<Step>, t: State)
    requires Inv(s) && Leads(s, steps, t)
    ensures Inv(t)
    decreases |steps|
  {
    if steps != [] {
      StepInv(s, steps[0]);
      RunInv(Next(s, steps[0]), steps[1..], t);
    }
  }

  // ---- what readers see ----

  /** In every interleaving, a reader between acquire and release sees one whole published version, and
      that version was current while it acquired. */
  lemma ReaderSeesOneVersion(s: State, steps: seq<Step>, t: State, r: nat)
    requires Init(s) && Leads(s, steps, t) && r in t.readers && t.readers[r].Holding?
    ensures var h := t.readers[r];
            && t.snapshots.Keys == {true, false} && h.since <= h.version < |t.published|
            && t.snapshots[h.side] == t.published[h.version]
  {
    InitInv(s);
    RunInv(s, steps, t);
  }

  /** No write goes to a side while a reader holds it. */
  lemma HeldIsNotWritten(s: State, steps: seq<Step>, t: State, step: Step, r: nat)
    requires Init(s) && Leads(s, steps, t) && r in t.readers && t.readers[r].Holding? && Current(t) && Enabled(t, step)
    requires step.WriteSome?
    ensures t.writer.side != t.readers[r].side
    ensures Next(t, step).snapshots[t.readers[r].side] == t.snapshots[t.readers[r].side]
  {
    InitInv(s);
    RunInv(s, steps, t);
  }

  lemma HeldStep(s: State, step: Step, r: nat)
    requires Inv(s) && Enabled(s, step) && r in s.readers && s.readers[r].Holding? && step != Release(r)
    ensures var next := Next(s, step);
            && r in next.readers && next.readers[r] == s.readers[r]
            && next.snapshots[s.readers[r].side] == s.snapshots[s.readers[r].side]
  {
    hide OnSide;
  }

  /** From a successful acquire to the release the held side keeps its content, whatever others do. */
  lemma {:induction false} HeldStays(s: State, steps: seq<Step>, t: State, r: nat)
    requires Inv(s) && Leads(s, steps, t) && r in s.readers && s.readers[r].Holding?
    requires forall i :: 0 <= i < |steps| ==> steps[i] != Release(r)
    ensures r in t.readers && t.readers[r] == s.readers[r] && Current(s) && Current(t)
    ensures t.snapshots[s.readers[r].side] == s.snapshots[s.readers[r].side]
    decreases |steps|
  {
    hide Next, Enabled, OnSide, ReaderOk;
    if steps != [] {
      var next := Next(s, steps[0]);
      StepInv(s, steps[0]);
      assert steps[0] != Release(r);
      HeldStep(s, steps[0], r);
      forall i | 0 <= i < |steps[1..]| ensures steps[1..][i] != Release(r) { assert steps[1..][i] == steps[i + 1]; }
      HeldStays(next, steps[1..], t, r);
    }
  }

  // ---- what is published ----

  /** What the last rebuild that was begun is to publish. */
  function Pending(steps: seq<Step>): Content
  {
    if steps == [] then []
    else
      var last := steps[|steps| - 1];
      if last.StartRebuild? then last.content else Pending(steps[..|steps| - 1])
  }

  /** What the rebuilds that were completed have published, after the empty first version. */
  function PublishedBy(steps: seq<Step>): seq<Content>
  {
    if steps == [] then [[]]
    else
      var before := steps[..|steps| - 1];
      if steps[|steps| - 1].Publish? then PublishedBy(before) + [Pending(before)] else PublishedBy(before)
  }

  /** A run, cut before its last step. */
  lemma {:induction false} CutLast(s: State, steps: seq<Step>, t: State) returns (m: State)
    requires Leads(s, steps, t) && steps != []
    ensures Leads(s, steps[..|steps| - 1], m) && Current(m) && Enabled(m, steps[|steps| - 1])
    ensures t == Next(m, steps[|steps| - 1])
    decreases |steps|
  {
    hide Next, Enabled, Current;
    if |steps| == 1 {
      m := s;
    } else {
      m := CutLast(Next(s, steps[0]), steps[1..], t);
      assert steps[1..][..|steps| - 2] == steps[..|steps| - 1][1..];
      assert steps[1..][|steps| - 2] == steps[|steps| - 1];
    }
  }

  /** Every version ever current is what a rebuild was asked to publish, and every rebuild that was completed has
      published it, in order. */
  lemma {:induction false} PublishesAll(s: State, steps: seq<Step>, t: State)
    requires Init(s) && Leads(s, steps, t)
    ensures t.published == PublishedBy(steps) && (!t.writer.Idle? ==> t.writer.content == Pending(steps))
    decreases |steps|
  {
    hide Leads, Next, Enabled;
    if steps == [] {
      assert s == t by { NoSteps(s, t); }
    } else {
      var m := CutLast(s, steps, t);
      PublishesAll(s, steps[..|steps| - 1], m);
      PublishesNext(m, steps[|steps| - 1]);
    }
  }

  lemma NoSteps(s: State, t: State)
    requires Leads(s, [], t)
    ensures s == t
  {
  }

  /** Only Publish adds a version, and it is the pending content, which only StartRebuild sets. */
  lemma PublishesNext(s: State, step: Step)
    requires Current(s) && Enabled(s, step)
    ensures step.Publish? ==> !s.writer.Idle? && Next(s, step).published == s.published + [s.writer.content]
    ensures !step.Publish? ==> Next(s, step).published == s.published
    ensures step.StartRebuild? ==> Next(s, step).writer.content == step.content
    ensures !step.StartRebuild? && !Next(s, step).writer.Idle? ==>
              !s.writer.Idle? && Next(s, step).writer.content == s.writer.content
  {
  }

  /** A reader that was outside at some point and holds a snapshot later sees a version that was published then
      or after. */
  lemma NotOlder(s: State, before: seq<Step>, m: State, after: seq<Step>, t: State, r: nat) returns (version: nat)
    requires Init(s) && Leads(s, before, m) && Leads(m, after, t)
    requires r in m.readers && m.readers[r].Outside? && r in t.readers && t.readers[r].Holding?
    ensures |PublishedBy(before)| - 1 <= version < |t.published|
    ensures Current(t) && t.snapshots[t.readers[r].side] == t.published[version]
  {
    hide Leads, OnSide;
    InitInv(s);
    RunInv(s, before, m);
    RunInv(m, after, t);
    PublishesAll(s, before, m);
    SinceThen(m, after, t, r, |m.published| - 1);
    version := t.readers[r].version;
  }

  predicate BegunSince(pc: Reader, v: nat)
  {
    pc.Outside? || v <= pc.since
  }

  lemma {:induction false} SinceThen(s: State, steps: seq<Step>, t: State, r: nat, v: nat)
    requires Inv(s) && Leads(s, steps, t) && r in s.readers && BegunSince(s.readers[r], v) && v < |s.published|
    ensures r in t.readers && BegunSince(t.readers[r], v)
    decreases |steps|
  {
    hide Inv, Next, Enabled, Current;
    if steps != [] {
      StepInv(s, steps[0]);
      SinceNext(s, steps[0], r, v);
      SinceThen(Next(s, steps[0]), steps[1..], t, r, v);
    }
  }

  lemma SinceNext(s: State, step: Step, r: nat, v: nat)
    requires Current(s) && Enabled(s, step) && r in s.readers && BegunSince(s.readers[r], v) && v < |s.published|
    ensures var next := Next(s, step); r in next.readers && BegunSince(next.readers[r], v) && v < |next.published|
  {
  }

  // ---- each operation alone ----

  lemma {:induction false} LeadsOn(s: State, steps: seq<Step>, t: State, step: Step)
    requires Leads(s, steps, t) && Current(t) && Enabled(t, step)
    ensures Leads(s, steps + [step], Next(t, step))
    decreases |steps|
  {
    hide Next, Enabled, Current;
    if steps == [] {
      assert (steps + [step])[1..] == [];
    } else {
      LeadsOn(Next(s, steps[0]), steps[1..], t, step);
      assert (steps + [step])[1..] == steps[1..] + [step];
    }
  }

  /** AcquireSubscriptionSnapshot without interruption gets the current version at the first try. */
  lemma AcquireAlone(s: State, r: nat) returns (t: State)
    requires Current(s) && r in s.readers && s.readers[r].Outside?
    ensures Leads(s, [LoadIndex(r), AddReader(r), CheckIndex(r)], t)
    ensures t == s.(readers := s.readers[r := Holding(s.index, |s.published| - 1, |s.published| - 1)],
                    counters := s.counters[s.index := s.counters[s.index] + 1])
  {
    hide Leads;
    var a := Next(s, LoadIndex(r));
    var b := Next(a, AddReader(r));
    t := Next(b, CheckIndex(r));
    assert Leads(s, [], s) by { Nowhere(s); }
    LeadsOn(s, [], s, LoadIndex(r));
    LeadsOn(s, [] + [LoadIndex(r)], a, AddReader(r));
    LeadsOn(s, [] + [LoadIndex(r)] + [AddReader(r)], b, CheckIndex(r));
    assert [] + [LoadIndex(r)] + [AddReader(r)] + [CheckIndex(r)] == [LoadIndex(r), AddReader(r), CheckIndex(r)];
  }

  lemma Nowhere(s: State)
    ensures Leads(s, [], s)
  {
  }

  /** A reader that still finds its side current gets it, and one that does not takes itself off the counter and
      begins again. */
  lemma CheckDecides(s: State, r: nat)
    requires Current(s) && Enabled(s, CheckIndex(r))
    ensures var t, side := Next(s, CheckIndex(r)), s.readers[r].side;
            && (t.readers[r].Holding? <==> side == s.index)
            && (side != s.index ==>
                  && Enabled(t, BackOff(r))
                  && Next(t, BackOff(r)) == s.(readers := s.readers[r := Outside],
                                               counters := s.counters[side := s.counters[side] - 1]))
  {
  }

  /** RebuildSubscriptionGroupsLocked without interruption, when nobody is on the other side. */
  lemma RebuildAlone(s: State, content: Content) returns (t: State)
    requires Current(s) && s.writer.Idle? && s.counters[!s.index] == 0
    ensures Leads(s, [StartRebuild(content), SeeNoReaders, WriteSome(content), Publish], t)
    ensures t == s.(index := !s.index, snapshots := s.snapshots[!s.index := content],
              published := s.published + [content])
  {
    hide Leads;
    var a := Next(s, StartRebuild(content));
    var b := Next(a, SeeNoReaders);
    var c := Next(b, WriteSome(content));
    t := Next(c, Publish);
    assert Leads(s, [], s) by { Nowhere(s); }
    LeadsOn(s, [], s, StartRebuild(content));
    LeadsOn(s, [] + [StartRebuild(content)], a, SeeNoReaders);
    LeadsOn(s, [] + [StartRebuild(content)] + [SeeNoReaders], b, WriteSome(content));
    LeadsOn(s, [] + [StartRebuild(content)] + [SeeNoReaders] + [WriteSome(content)], c, Publish);
    assert [] + [StartRebuild(content)] + [SeeNoReaders] + [WriteSome(content)] + [Publish] ==
           [StartRebuild(content), SeeNoReaders, WriteSome(content), Publish];
  }

  /** A rebuild waits only while a reader is on the side it is to write. */
  lemma WaitsForReaders(s: State)
    requires Inv(s) && s.writer.Waiting? && !Enabled(s, SeeNoReaders)
    ensures exists r :: r in s.readers && s.readers[r].On(s.writer.side)
  {
    assert OnSide(s.readers, s.writer.side) != {};
    var r :| r in OnSide(s.readers, s.writer.side);
  }

  /** Release undoes what the acquire did to the counter, and nothing else. */
  lemma ReleaseAlone(s: State, r: nat)
    requires Current(s) && Enabled(s, Release(r))
    ensures var side := s.readers[r].side;
            Next(s, Release(r)) == s.(readers := s.readers[r := Outside],
                counters := s.counters[side := s.counters[side] - 1])
  {
  }
}
