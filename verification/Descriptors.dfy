/** Who owns which file descriptor: the protocol of event guards against a kernel that hands out,
    closes and reuses descriptor numbers. */
module Descriptors {

  /** A guard without a descriptor holds this number. */
  const NONE := -1

  /** What the kernel was asked to do, in order. `group` is the group leader's number, or -1. */
  datatype Call = Opened(fd: int, group: int) | Closed(fd: int)

  /** `open`: numbers open in the process. `guards`: the number each live guard holds. `lost`: numbers
      opened by a guard constructor that then threw. `trace`: the calls made so far. */
  datatype State = State(open: set<int>, guards: map<nat, int>, lost: set<int>, trace: seq<Call>)

  /** The kernel's reply to opening an event; `nonblocking` says whether the following `fcntl` succeeds. */
  datatype Answer = Refused | Granted(fd: int, nonblocking: bool)

  datatype Op =
    | Open(id: nat, answer: Answer)
    | OpenChild(leader: nat, id: nat, answer: Answer)
    | MoveConstruct(source: nat, id: nat)
    | MoveAssign(target: nat, source: nat)
    | Destroy(id: nat)

  /** The kernel grants only numbers that are not open. */
  predicate Possible(s: State, answer: Answer) {
    answer.Granted? ==> answer.fd >= 0 && answer.fd !in s.open
  }

  /** Programs use live guards only, and construct each guard once. */
  predicate Legal(s: State, op: Op) {
    match op
    case Open(id, answer) => id !in s.guards && Possible(s, answer)
    case OpenChild(leader, id, answer) => leader in s.guards && id !in s.guards && Possible(s, answer)
    case MoveConstruct(source, id) => source in s.guards && id !in s.guards
    case MoveAssign(target, source) => target in s.guards && source in s.guards
    case Destroy(id) => id in s.guards
  }

  /** The guard constructor. If `fcntl` fails it throws after the open, and no destructor runs. */
  function Construct(s: State, id: nat, group: int, answer: Answer): State {
    match answer
    case Refused => s
    case Granted(fd, nonblocking) =>
      var after := s.(open := s.open + {fd}, trace := s.trace + [Opened(fd, group)]);
      if nonblocking then after.(guards := s.guards[id := fd]) else after.(lost := s.lost + {fd})
  }

  function Step(s: State, op: Op): State
    requires Legal(s, op)
  {
    match op
    case Open(id, answer) => Construct(s, id, NONE, answer)
    case OpenChild(leader, id, answer) => Construct(s, id, s.guards[leader], answer)
    case MoveConstruct(source, id) => s.(guards := s.guards[id := s.guards[source]][source := NONE])
    case MoveAssign(target, source) => s.(guards := s.guards[target := s.guards[source]][source := s.guards[target]])
    case Destroy(id) =>
      var fd := s.guards[id];
      var rest := s.(guards := s.guards - {id});
      if fd == NONE then rest else rest.(open := s.open - {fd}, trace := s.trace + [Closed(fd)])
  }

  /** The state after a run of operations, each legal when it is performed. */
  ghost predicate Runs(s: State, ops: seq<Op>, t: State)
    decreases |ops|
  {
    if ops == [] then s == t
    else Legal(s, ops[0]) && Runs(Step(s, ops[0]), ops[1..], t)
  }

  /** The start: some numbers are open that belong to others; no guard exists. */
  predicate Initial(s: State) {
    s.guards == map[] && s.lost == {} && s.trace == []
  }

  // ----- what every state keeps -----

  ghost predicate Held(s: State, fd: int) {
    exists id :: id in s.guards && s.guards[id] == fd && fd != NONE
  }

  /** Live guards hold pairwise distinct numbers, and every open number has exactly one owner:
      a guard, the lost, or the rest of the process (`foreign`). */
  ghost predicate Owned(s: State, foreign: set<int>) {
    && (forall a, b :: a in s.guards && b in s.guards && a != b && s.guards[a] == s.guards[b] ==> s.guards[a] == NONE)
    && (forall id :: id in s.guards && s.guards[id] != NONE ==> 0 <= s.guards[id] && s.guards[id] !in s.lost + foreign)
    && s.lost !! foreign
    && (forall fd :: fd in s.open <==> Held(s, fd) || fd in s.lost || fd in foreign)
  }

  /** The numbers open after a trace; none if it opens an open number or closes one that is not open. */
  function Replay(trace: seq<Call>, start: set<int>): (r: (bool, set<int>)) {
    if trace == [] then (true, start)
    else
      var before := Replay(trace[..|trace| - 1], start);
      match trace[|trace| - 1]
      case Opened(fd, _) => (before.0 && fd !in before.1, before.1 + {fd})
      case Closed(fd) => (before.0 && fd in before.1, before.1 - {fd})
  }

  function Opens(trace: seq<Call>, fd: int): nat {
    if trace == [] then 0
    else
      var last := trace[|trace| - 1];
      Opens(trace[..|trace| - 1], fd) + (if last.Opened? && last.fd == fd then 1 else 0)
  }

  function Closes(trace: seq<Call>, fd: int): nat {
    if trace == [] then 0
    else
      var last := trace[|trace| - 1];
      Closes(trace[..|trace| - 1], fd) + (if last == Closed(fd) then 1 else 0)
  }

  /** The trace explains the open set: opens hit closed numbers only, closes open ones only. */
  ghost predicate Explained(s: State, foreign: set<int>) {
    Replay(s.trace, foreign) == (true, s.open)
  }

  lemma MoveConstructKeepsOwnership(s: State, source: nat, id: nat, foreign: set<int>)
    requires Owned(s, foreign) && source in s.guards && id !in s.guards
    ensures Owned(Step(s, MoveConstruct(source, id)), foreign)
  {
    var t := Step(s, MoveConstruct(source, id));
    forall fd ensures Held(s, fd) <==> Held(t, fd) {
      if Held(s, fd) {
        var a :| a in s.guards && s.guards[a] == fd && fd != NONE;
        assert t.guards[if a == source then id else a] == fd;
      }
      if Held(t, fd) {
        var a :| a in t.guards && t.guards[a] == fd && fd != NONE;
        assert s.guards[if a == id then source else a] == fd;
      }
    }
  }

  lemma MoveAssignKeepsOwnership(s: State, target: nat, source: nat, foreign: set<int>)
    requires Owned(s, foreign) && target in s.guards && source in s.guards
    ensures Owned(Step(s, MoveAssign(target, source)), foreign)
  {
    var t := Step(s, MoveAssign(target, source));
    forall fd ensures Held(s, fd) <==> Held(t, fd) {
      if Held(s, fd) {
        var a :| a in s.guards && s.guards[a] == fd && fd != NONE;
        assert t.guards[if a == source then target else if a == target then source else a] == fd;
      }
      if Held(t, fd) {
        var a :| a in t.guards && t.guards[a] == fd && fd != NONE;
        assert s.guards[if a == source then target else if a == target then source else a] == fd;
      }
    }
  }

  lemma ConstructKeepsOwnership(s: State, id: nat, group: int, answer: Answer, foreign: set<int>)
    requires Owned(s, foreign) && id !in s.guards && Possible(s, answer)
    ensures Owned(Construct(s, id, group, answer), foreign)
  {
    if answer.Granted? {
      var t := Construct(s, id, group, answer);
      forall other | other in s.guards ensures s.guards[other] != answer.fd {
        if s.guards[other] != NONE {
          assert Held(s, s.guards[other]);
        }
      }
      forall fd ensures Held(t, fd) <==> Held(s, fd) || (answer.nonblocking && fd == answer.fd) {
        if Held(s, fd) {
          var other :| other in s.guards && s.guards[other] == fd && fd != NONE;
          assert t.guards[other] == fd;
        }
        if answer.nonblocking && fd == answer.fd {
          assert t.guards[id] == fd;
        }
      }
    }
  }

  lemma DestroyKeepsOwnership(s: State, id: nat, foreign: set<int>)
    requires Owned(s, foreign) && id in s.guards
    ensures Owned(Step(s, Destroy(id)), foreign)
    ensures s.guards[id] != NONE ==> s.guards[id] in s.open
  {
    var t := Step(s, Destroy(id));
    if s.guards[id] != NONE {
      assert Held(s, s.guards[id]);
    }
    forall fd ensures Held(t, fd) <==> Held(s, fd) && fd != s.guards[id] {
      if Held(s, fd) && fd != s.guards[id] {
        var other :| other in s.guards && s.guards[other] == fd && fd != NONE;
        assert other in t.guards && t.guards[other] == fd;
      }
    }
  }

  lemma StepKeepsOwnership(s: State, op: Op, foreign: set<int>)
    requires Owned(s, foreign) && Legal(s, op)
    ensures Owned(Step(s, op), foreign)
  {
    match op
    case Open(id, answer) => ConstructKeepsOwnership(s, id, NONE, answer, foreign);
    case OpenChild(leader, id, answer) => ConstructKeepsOwnership(s, id, s.guards[leader], answer, foreign);
    case MoveConstruct(source, id) => MoveConstructKeepsOwnership(s, source, id, foreign);
    case MoveAssign(target, source) => MoveAssignKeepsOwnership(s, target, source, foreign);
    case Destroy(id) => DestroyKeepsOwnership(s, id, foreign);
  }

  lemma TraceGrows(trace: seq<Call>, call: Call)
    ensures (trace + [call])[..|trace|] == trace
  {
  }

  lemma ConstructKeepsTrace(s: State, id: nat, group: int, answer: Answer, foreign: set<int>)
    requires Explained(s, foreign) && Possible(s, answer)
    ensures Explained(Construct(s, id, group, answer), foreign)
  {
    if answer.Granted? {
      TraceGrows(s.trace, Opened(answer.fd, group));
    }
  }

  lemma StepKeepsTrace(s: State, op: Op, foreign: set<int>)
    requires Owned(s, foreign) && Explained(s, foreign) && Legal(s, op)
    ensures Explained(Step(s, op), foreign)
    ensures s.trace <= Step(s, op).trace && s.lost <= Step(s, op).lost
  {
    var t := Step(s, op);
    if t.trace != s.trace {
      TraceGrows(s.trace, t.trace[|s.trace|]);
      if op.Destroy? {
        DestroyKeepsOwnership(s, op.id, foreign);
      }
    }
  }

  /** Every run from the start keeps both invariants. */
  lemma {:induction false} RunKeepsInvariants(s: State, ops: seq<Op>, t: State, foreign: set<int>)
    requires Owned(s, foreign) && Explained(s, foreign) && Runs(s, ops, t)
    ensures Owned(t, foreign) && Explained(t, foreign)
    ensures s.trace <= t.trace && s.lost <= t.lost
    decreases |ops|
  {
    if ops != [] {
      StepKeepsOwnership(s, ops[0], foreign);
      StepKeepsTrace(s, ops[0], foreign);
      RunKeepsInvariants(Step(s, ops[0]), ops[1..], t, foreign);
    }
  }

  // ----- the theorems -----

  /** In a trace that replays, a number is open iff it was opened once more than closed since the start. */
  lemma {:induction false} ReplayBalance(trace: seq<Call>, start: set<int>, fd: int)
    requires Replay(trace, start).0
    ensures Closes(trace, fd) + (if fd in Replay(trace, start).1 then 1 else 0)
         == Opens(trace, fd) + (if fd in start then 1 else 0)
  {
    if trace != [] {
      ReplayBalance(trace[..|trace| - 1], start, fd);
    }
  }

  lemma {:induction false} ReplayPrefix(trace: seq<Call>, start: set<int>, k: nat)
    requires Replay(trace, start).0 && k <= |trace|
    ensures Replay(trace[..k], start).0
    decreases |trace| - k
  {
    if k == |trace| {
      assert trace[..k] == trace;
    } else {
      ReplayPrefix(trace, start, k + 1);
      assert trace[..k + 1][..k] == trace[..k];
    }
  }

  /** What was open at the start stays open, and no call names it. */
  lemma ForeignUntouched(s: State, ops: seq<Op>, t: State)
    requires Initial(s) && Runs(s, ops, t)
    ensures s.open <= t.open
    ensures forall k :: 0 <= k < |t.trace| ==> t.trace[k].fd !in s.open
  {
    assert Owned(s, s.open);
    RunKeepsInvariants(s, ops, t, s.open);
    forall fd | fd in s.open
      ensures fd in t.open
      ensures forall k :: 0 <= k < |t.trace| ==> t.trace[k].fd != fd
    {
      NotOursUntouched(s, ops, t, s.open, fd);
    }
  }

  /** Ownership over every run: distinct holders, the open set is exactly the foreign, the held and the
      lost numbers; at every moment of the run every open was on a closed number and every close on an
      open one; and no call ever names a foreign number, so none of these is closed. */
  lemma OwnershipOverRuns(s: State, ops: seq<Op>, t: State)
    requires Initial(s) && Runs(s, ops, t)
    ensures Owned(t, s.open)
    ensures Replay(t.trace, s.open) == (true, t.open)
    ensures forall k :: 0 <= k < |t.trace| ==>
      Replay(t.trace[..k], s.open).0 &&
      (t.trace[k].fd in Replay(t.trace[..k], s.open).1 <==> t.trace[k].Closed?)
    ensures forall fd :: fd !in s.open ==> Closes(t.trace, fd) <= Opens(t.trace, fd) <= Closes(t.trace, fd) + 1
    ensures s.open <= t.open && forall k :: 0 <= k < |t.trace| ==> t.trace[k].fd !in s.open
  {
    assert Owned(s, s.open);
    RunKeepsInvariants(s, ops, t, s.open);
    ForeignUntouched(s, ops, t);
    forall k | 0 <= k < |t.trace|
      ensures Replay(t.trace[..k], s.open).0
      ensures t.trace[k].fd in Replay(t.trace[..k], s.open).1 <==> t.trace[k].Closed?
    {
      ReplayPrefix(t.trace, s.open, k);
      ReplayPrefix(t.trace, s.open, k + 1);
      assert t.trace[..k + 1][..k] == t.trace[..k];
    }
    forall fd | fd !in s.open ensures Closes(t.trace, fd) <= Opens(t.trace, fd) <= Closes(t.trace, fd) + 1 {
      ReplayBalance(t.trace, s.open, fd);
    }
  }

  // ----- groups -----

  lemma {:induction false} TraceOnlyGrows(s: State, ops: seq<Op>, t: State)
    requires Runs(s, ops, t)
    ensures s.trace <= t.trace
    decreases |ops|
  {
    if ops != [] {
      TraceOnlyGrows(Step(s, ops[0]), ops[1..], t);
    }
  }

  /** Which operation of the run made an opening call, and in which state. */
  lemma {:induction false} OpenedBy(s: State, ops: seq<Op>, t: State, k: nat) returns (m: nat, u: State)
    requires Runs(s, ops, t) && |s.trace| <= k < |t.trace| && t.trace[k].Opened?
    ensures m < |ops| && Runs(s, ops[..m], u) && |u.trace| == k && Legal(u, ops[m])
    ensures (ops[m].Open? || ops[m].OpenChild?) && ops[m].answer.Granted? && t.trace[k].fd == ops[m].answer.fd
    ensures ops[m].Open? ==> t.trace[k].group == -1
    ensures ops[m].OpenChild? ==> ops[m].leader in u.guards && t.trace[k].group == u.guards[ops[m].leader]
    decreases |ops|
  {
    var next := Step(s, ops[0]);
    TraceOnlyGrows(next, ops[1..], t);
    if k < |next.trace| {
      m, u := 0, s;
      assert t.trace[k] == next.trace[k];
    } else {
      var n;
      n, u := OpenedBy(next, ops[1..], t, k);
      m := n + 1;
      assert ops[..m][0] == ops[0] && ops[..m][1..] == ops[1..][..n];
    }
  }

  /** Over every run: an event is opened alone, or as a child in the group of the number its leader held at
      that moment, which was then open. */
  lemma GroupIsLeaders(s: State, ops: seq<Op>, t: State, k: nat) returns (m: nat, u: State)
    requires Initial(s) && Runs(s, ops, t) && k < |t.trace| && t.trace[k].Opened?
    ensures m < |ops| && Runs(s, ops[..m], u) && |u.trace| == k
    ensures (ops[m].Open? || ops[m].OpenChild?) && ops[m].answer.Granted?
    ensures ops[m].Open? ==> t.trace[k] == Opened(ops[m].answer.fd, -1)
    ensures ops[m].OpenChild? ==>
      && ops[m].leader in u.guards && t.trace[k] == Opened(ops[m].answer.fd, u.guards[ops[m].leader])
      && (u.guards[ops[m].leader] == -1 || u.guards[ops[m].leader] in u.open)
  {
    m, u := OpenedBy(s, ops, t, k);
    assert Owned(s, s.open);
    RunKeepsInvariants(s, ops[..m], u, s.open);
    if ops[m].OpenChild? && u.guards[ops[m].leader] != -1 {
      assert Held(u, u.guards[ops[m].leader]);
    }
  }

  // ----- moves -----

  predicate SameElsewhere(s: State, t: State, a: nat, b: nat) {
    forall id :: id in s.guards && id != a && id != b ==> id in t.guards && t.guards[id] == s.guards[id]
  }

  /** Moves call nothing, and pass numbers on without losing or doubling any: the new guard has the number of
      its source, which is left with none; an assignment exchanges the two. */
  lemma MovesPassNumbers(s: State, a: nat, b: nat)
    requires a in s.guards
    ensures b !in s.guards ==>
      var t := Step(s, MoveConstruct(a, b));
      && t == s.(guards := t.guards) && t.guards.Keys == s.guards.Keys + {b} && SameElsewhere(s, t, a, b)
      && t.guards[b] == s.guards[a] && t.guards[a] == -1
    ensures b in s.guards ==>
      var t := Step(s, MoveAssign(b, a));
      && t == s.(guards := t.guards) && t.guards.Keys == s.guards.Keys && SameElsewhere(s, t, a, b)
      && t.guards[b] == s.guards[a] && t.guards[a] == s.guards[b]
  {
  }

  /** The numbers lost in a run are exactly those granted to a constructor whose `fcntl` failed. */
  function LostBy(op: Op): set<int> {
    if (op.Open? || op.OpenChild?) && op.answer.Granted? && !op.answer.nonblocking then {op.answer.fd} else {}
  }

  function AllLostBy(ops: seq<Op>): set<int> {
    if ops == [] then {} else LostBy(ops[0]) + AllLostBy(ops[1..])
  }

  lemma {:induction false} LostExactly(s: State, ops: seq<Op>, t: State)
    requires Runs(s, ops, t)
    ensures t.lost == s.lost + AllLostBy(ops)
    decreases |ops|
  {
    if ops != [] {
      LostExactly(Step(s, ops[0]), ops[1..], t);
    }
  }

  /** Once all guards are destroyed, exactly the lost descriptors are still open beside those open at the
      start, each opened once more than closed; every other number was closed as often as opened;
      without an `fcntl` failure the process is back where it started. */
  lemma NothingLeaksButTheLost(s: State, ops: seq<Op>, t: State)
    requires Initial(s) && Runs(s, ops, t) && t.guards == map[]
    ensures t.open == s.open + AllLostBy(ops) && s.open !! AllLostBy(ops)
    ensures forall fd :: fd in AllLostBy(ops) ==> Opens(t.trace, fd) == Closes(t.trace, fd) + 1
    ensures forall fd :: fd !in t.open ==> Opens(t.trace, fd) == Closes(t.trace, fd)
  {
    OwnershipOverRuns(s, ops, t);
    LostExactly(s, ops, t);
    forall fd ensures fd in t.open <==> fd in s.open + AllLostBy(ops) {
      assert !Held(t, fd);
    }
    forall fd ensures fd in AllLostBy(ops) ==> Opens(t.trace, fd) == Closes(t.trace, fd) + 1
      ensures fd !in t.open ==> Opens(t.trace, fd) == Closes(t.trace, fd)
    {
      ReplayBalance(t.trace, s.open, fd);
    }
  }

  /** A lost number is never closed afterwards, whatever the program does. */
  lemma LostStaysOpen(s: State, ops: seq<Op>, t: State, foreign: set<int>, fd: int)
    requires Owned(s, foreign) && Explained(s, foreign) && Runs(s, ops, t) && fd in s.lost
    ensures fd in t.open && !Held(t, fd)
    ensures forall k :: |s.trace| <= k < |t.trace| ==> t.trace[k].fd != fd
  {
    RunKeepsInvariants(s, ops, t, foreign);
    NotOursUntouched(s, ops, t, foreign, fd);
  }

  /** No call of a run names a number that is lost or foreign at its start. */
  lemma {:induction false} NotOursUntouched(s: State, ops: seq<Op>, t: State, foreign: set<int>, fd: int)
    requires Owned(s, foreign) && Explained(s, foreign) && Runs(s, ops, t) && fd in s.lost + foreign
    ensures s.trace <= t.trace
    ensures forall k :: |s.trace| <= k < |t.trace| ==> t.trace[k].fd != fd
    decreases |ops|
  {
    if ops != [] {
      var next := Step(s, ops[0]);
      StepKeepsOwnership(s, ops[0], foreign);
      StepKeepsTrace(s, ops[0], foreign);
      NotOursUntouched(next, ops[1..], t, foreign, fd);
      forall k | |s.trace| <= k < |t.trace| ensures t.trace[k].fd != fd {
        if k < |next.trace| {
          assert t.trace[k] == next.trace[k];
        }
      }
    }
  }
}
