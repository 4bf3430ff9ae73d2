/**
 What a multicast IO context promises, without threads: requests follow one another, each has one fate, and
 the fate says whether its callback is run or destroyed.
 */
module Requests {

  datatype Fate = GivenUp | Answered | AllFailed | Broken | TimedOut

  datatype Use = Ran(generation: nat) | Destroyed(generation: nat)

  /** A request is Given with its callback, Open once submitted, Decided when its fate is settled, and Used
      when its callback has been run or destroyed. */
  datatype Phase = Vacant | Given | Open | Decided(fate: Fate) | Used(fate: Fate)

  datatype Request = Request(
    generation: nat,
    phase: Phase,
    posted: bool,
    sent: nat,
    answers: nat,
    fates: map<nat, Fate>,
    log: seq<Use>)

  datatype Event =
    | Nothing
    | Take | GiveUp | Submit
    | Post(count: nat) | Answer(seqNo: nat)
    | Complete | Fail | Break | TimeOut
    | UseCallback | Return

  /** Submitted and not yet given back. */
  predicate Submitted(r: Request)
  {
    r.phase.Open? || ((r.phase.Decided? || r.phase.Used?) && r.phase.fate != GivenUp)
  }

  /** When an event may happen: only an answer to this very request counts, it is answered when as many
      answers are in as were sent, fails when none was sent, and times out only after sending. */
  predicate Allowed(r: Request, e: Event)
  {
    match e
    case Nothing => true
    case Take => r.phase.Vacant?
    case GiveUp => r.phase.Given?
    case Submit => r.phase.Given?
    case Post(_) => Submitted(r) && !r.posted
    case Answer(q) => Submitted(r) && q == r.generation
    case Complete => r.phase.Open? && r.posted && r.sent <= r.answers
    case Fail => r.phase.Open? && r.posted && r.sent == 0
    case Break => r.phase.Open?
    case TimeOut => r.phase.Open? && r.posted
    case UseCallback => r.phase.Decided?
    case Return => r.phase.Used?
  }

  predicate Runs(f: Fate)
  {
    f == Answered || f == Broken || f == TimedOut
  }

  function Settled(r: Request, f: Fate): Request
  {
    r.(phase := Decided(f), fates := r.fates[r.generation := f])
  }

  function UseOf(g: nat, f: Fate): Use
  {
    if Runs(f) then Ran(g) else Destroyed(g)
  }

  function After(r: Request, e: Event): Request
    requires Allowed(r, e)
  {
    match e
    case Nothing => r
    case Take => r.(phase := Given, generation := r.generation + 1)
    case GiveUp => Settled(r, GivenUp)
    case Submit => r.(phase := Open, posted := false, sent := 0, answers := 0)
    case Post(n) => r.(posted := true, sent := n)
    case Answer(_) => r.(answers := r.answers + 1)
    case Complete => Settled(r, Answered)
    case Fail => Settled(r, AllFailed)
    case Break => Settled(r, Broken)
    case TimeOut => Settled(r, TimedOut)
    case UseCallback => r.(phase := Used(r.phase.fate), log := r.log + [UseOf(r.generation, r.phase.fate)])
    case Return => r.(phase := Vacant)
  }

  const FIRST := Request(0, Vacant, false, 0, 0, map[], [])

  // ---- what follows ----

  predicate Logged(log: seq<Use>, g: nat)
  {
    Ran(g) in log || Destroyed(g) in log
  }

  predicate Distinct(log: seq<Use>)
  {
    forall i, j :: 0 <= i < j < |log| ==> log[i].generation != log[j].generation
  }

  /** The last request whose callback is used. */
  function Closed(r: Request): int
  {
    if r.phase.Vacant? || r.phase.Used? then r.generation else r.generation - 1
  }

  /** Every request whose callback is used has a fate, and the log holds each once, as its fate says. */
  ghost predicate SpecInv(r: Request)
  {
    && Distinct(r.log) && (r.generation == 0 ==> r.phase.Vacant?)
    && (forall u :: u in r.log ==> 1 <= u.generation <= Closed(r))
    && (forall g: nat :: 1 <= g <= Closed(r) ==> g in r.fates && UseOf(g, r.fates[g]) in r.log)
    && (r.phase.Decided? || r.phase.Used? ==> r.generation in r.fates && r.fates[r.generation] == r.phase.fate)
  }

  lemma FirstInv()
    ensures SpecInv(FIRST)
  {
  }

  lemma SpecStep(r: Request, e: Event)
    requires SpecInv(r) && Allowed(r, e)
    ensures SpecInv(After(r, e))
  {
    var r' := After(r, e);
    if e.UseCallback? {
      var u := UseOf(r.generation, r.phase.fate);
      assert u in r'.log;
      forall g: nat | 1 <= g <= Closed(r')
        ensures g in r'.fates && UseOf(g, r'.fates[g]) in r'.log
      {
        assert g < r.generation ==> UseOf(g, r.fates[g]) in r.log;
      }
    }
  }

  /** A used callback was run exactly if its request was answered, broken or timed out, and destroyed exactly if
      it was given up or none of its sends went out. */
  lemma FateDecides(r: Request, g: nat)
    requires SpecInv(r) && 1 <= g <= Closed(r)
    ensures g in r.fates
    ensures Ran(g) in r.log <==> Runs(r.fates[g])
    ensures Destroyed(g) in r.log <==> r.fates[g] == GivenUp || r.fates[g] == AllFailed
  {
    assert UseOf(g, r.fates[g]) in r.log;
    var i :| 0 <= i < |r.log| && r.log[i] == UseOf(g, r.fates[g]);
    forall j | 0 <= j < |r.log| && r.log[j].generation == g
      ensures j == i
    {
      SameUse(r.log, i, j);
    }
  }

  lemma SameUse(log: seq<Use>, i: nat, j: nat)
    requires Distinct(log) && i < |log| && j < |log| && log[i].generation == log[j].generation
    ensures i == j
  {
  }
}
