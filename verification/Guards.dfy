/** Event guards as objects: the constructor that may throw, moves by swap, the closing destructor.
    A `Program` performs them on real guards and is shown to follow the descriptor protocol. */
module Guards {
  import opened Outcomes
  import opened Words
  import opened Descriptors

  /** The part of `perf_event_attr` that decides whether an event opens. */
  datatype Attr = Attr(kind: int, config: Word, config1: Word, excludeKernel: bool)

  datatype Location = OnCpu(cpu: int) | OnThread(tid: int)

  /** The system's reaction to an event at a place: refuse it, open it but fail `fcntl`, or do both. */
  datatype Verdict = Refuses | Fumbles | Opens

  /** The system calls the guards use. Verdicts are fixed; descriptor numbers are the kernel's choice. */
  class Kernel {
    const verdict: (Attr, Location) -> Verdict
    var open: set<int>
    ghost var lost: set<int>
    ghost var trace: seq<Call>

    constructor (verdict: (Attr, Location) -> Verdict, foreign: set<int>)
      ensures this.verdict == verdict && open == foreign && lost == {} && trace == []
    {
      this.verdict, open, lost, trace := verdict, foreign, {}, [];
    }

    method PerfEventOpen(attr: Attr, location: Location, group: int) returns (fd: int)
      modifies this
      ensures lost == old(lost)
      ensures verdict(attr, location).Refuses? ==> fd == -1 && open == old(open) && trace == old(trace)
      ensures !verdict(attr, location).Refuses? ==>
        && fd >= 0 && fd !in old(open)
        && open == old(open) + {fd} && trace == old(trace) + [Opened(fd, group)]
    {
      if verdict(attr, location).Refuses? {
        return -1;
      }
      UnusedNumber(open);
      fd :| fd >= 0 && fd !in open;
      open, trace := open + {fd}, trace + [Opened(fd, group)];
    }

    /** Returns whether making the descriptor non-blocking failed. */
    method Fcntl(attr: Attr, location: Location, fd: int) returns (failed: bool)
      requires fd in open
      ensures failed == verdict(attr, location).Fumbles?
    {
      failed := verdict(attr, location).Fumbles?;
    }

    method Close(fd: int)
      requires fd in open
      modifies this
      ensures open == old(open) - {fd} && trace == old(trace) + [Closed(fd)] && lost == old(lost)
    {
      open, trace := open - {fd}, trace + [Closed(fd)];
    }
  }

  lemma UnusedNumber(used: set<int>)
    ensures exists fd :: fd >= 0 && fd !in used
  {
    var fd := UnusedAbove(used, 0);
  }

  lemma {:induction false} UnusedAbove(used: set<int>, low: nat) returns (fd: int)
    ensures fd >= low && fd !in used
    decreases used
  {
    if low in used {
      fd := UnusedAbove(used - {low}, low + 1);
    } else {
      fd := low;
    }
  }

  class EventGuard {
    var fd: int

    constructor (fd: int)
      ensures this.fd == fd
    {
      this.fd := fd;
    }

    /** The constructor that opens an event; `None` stands for the `std::system_error` it throws.
        When `fcntl` fails the object never comes to life, so nobody closes the number. */
    static method Construct(kernel: Kernel, attr: Attr, location: Location, group: int)
      returns (guard: Option<EventGuard>, ghost fd: int)
      modifies kernel
      ensures kernel.verdict(attr, location).Refuses? ==>
        && guard.None? && kernel.open == old(kernel.open)
        && kernel.trace == old(kernel.trace) && kernel.lost == old(kernel.lost)
      ensures !kernel.verdict(attr, location).Refuses? ==>
        && fd >= 0 && fd !in old(kernel.open)
        && kernel.open == old(kernel.open) + {fd} && kernel.trace == old(kernel.trace) + [Opened(fd, group)]
      ensures kernel.verdict(attr, location).Fumbles? ==> guard.None? && kernel.lost == old(kernel.lost) + {fd}
      ensures kernel.verdict(attr, location).Opens? ==>
        guard.Some? && fresh(guard.value) && guard.value.fd == fd && kernel.lost == old(kernel.lost)
    {
      var number := kernel.PerfEventOpen(attr, location, group);
      fd := number;
      if number < 0 {
        return None, fd;
      }
      var failed := kernel.Fcntl(attr, location, number);
      if failed {
        kernel.lost := kernel.lost + {number};
        return None, fd;
      }
      var g := new EventGuard(number);
      return Some(g), fd;
    }

    /** The move constructor: a guard without descriptor swaps with the other. */
    constructor Moved(other: EventGuard)
      modifies other
      ensures fd == old(other.fd) && other.fd == NONE
    {
      fd := NONE;
      new;
      fd, other.fd := other.fd, fd;
    }

    /** Move assignment, also from itself. */
    method MoveFrom(other: EventGuard)
      modifies this, other
      ensures fd == old(other.fd) && other.fd == old(fd)
    {
      var t := fd;
      fd := other.fd;
      other.fd := t;
    }

    /** The destructor. */
    method Destroy(kernel: Kernel)
      requires fd == NONE || fd in kernel.open
      modifies kernel
      ensures kernel.lost == old(kernel.lost)
      ensures fd == NONE ==> kernel.open == old(kernel.open) && kernel.trace == old(kernel.trace)
      ensures fd != NONE ==> kernel.open == old(kernel.open) - {fd} && kernel.trace == old(kernel.trace) + [Closed(fd)]
    {
      if fd != -1 {
        kernel.Close(fd);
      }
    }
  }

  /** A program that creates, moves and destroys guards, each named by a number. */
  class Program {
    const kernel: Kernel
    ghost const foreign: set<int>
    var guards: map<nat, EventGuard>

    ghost function View(): State
      reads this, kernel, guards.Values
    {
      State(kernel.open, map id | id in guards :: guards[id].fd, kernel.lost, kernel.trace)
    }

    ghost predicate Valid()
      reads this, kernel, guards.Values
    {
      && Distinct()
      && Owned(View(), foreign) && Explained(View(), foreign)
    }

    constructor (kernel: Kernel)
      requires kernel.lost == {} && kernel.trace == []
      ensures Valid() && Initial(View()) && this.kernel == kernel && foreign == kernel.open
    {
      this.kernel, foreign, guards := kernel, kernel.open, map[];
    }

    /** `EventAttr::open` */
    method Open(id: nat, attr: Attr, location: Location) returns (ghost op: Op)
      requires Valid() && id !in guards
      modifies this, kernel
      ensures op.Open? && op.id == id && Legal(old(View()), op) && View() == Step(old(View()), op) && Valid()
      ensures op.answer.Refused? <==> kernel.verdict(attr, location).Refuses?
      ensures op.answer.Granted? ==> (op.answer.nonblocking <==> kernel.verdict(attr, location).Opens?)
      ensures op.answer.Granted? ==> kernel.trace == old(kernel.trace) + [Opened(op.answer.fd, -1)]
      ensures Opens(id, op.answer)
    {
      ghost var answer := Construct(id, attr, location, NONE);
      op := Op.Open(id, answer);
    }

    /** `EventGuard::open_child` */
    method OpenChild(leader: nat, id: nat, attr: Attr, location: Location) returns (ghost op: Op)
      requires Valid() && id !in guards && leader in guards
      modifies this, kernel
      ensures op.OpenChild? && op.id == id && op.leader == leader
      ensures Legal(old(View()), op) && View() == Step(old(View()), op) && Valid()
      ensures op.answer.Refused? <==> kernel.verdict(attr, location).Refuses?
      ensures op.answer.Granted? ==> (op.answer.nonblocking <==> kernel.verdict(attr, location).Opens?)
      ensures op.answer.Granted? ==>
        kernel.trace == old(kernel.trace) + [Opened(op.answer.fd, old(guards[leader].fd))]
      ensures Opens(id, op.answer)
    {
      ghost var answer := Construct(id, attr, location, guards[leader].fd);
      op := Op.OpenChild(leader, id, answer);
    }

    /** The guard `id` exists iff it was opened without a fault, and then holds the granted number; the other
        guards keep theirs. */
    twostate predicate Opens(id: nat, answer: Answer)
      reads this, guards.Values
    {
      && guards.Keys == old(guards.Keys) + (if answer.Granted? && answer.nonblocking then {id} else {})
      && (answer.Granted? && answer.nonblocking ==> guards[id].fd == answer.fd)
      && forall other :: other in old(guards) && other != id ==> guards[other].fd == old(guards[other].fd)
    }

    method Construct(id: nat, attr: Attr, location: Location, group: int) returns (ghost answer: Answer)
      requires Valid() && id !in guards
      modifies this, kernel
      ensures Possible(old(View()), answer) && View() == Descriptors.Construct(old(View()), id, group, answer)
      ensures answer.Refused? <==> kernel.verdict(attr, location).Refuses?
      ensures answer.Granted? ==> (answer.nonblocking <==> kernel.verdict(attr, location).Opens?)
      ensures Opens(id, answer)
      ensures Valid()
    {
      ghost var before := View();
      answer := Adopt(id, attr, location, group);
      ConstructKeepsOwnership(before, id, group, answer, foreign);
      ConstructKeepsTrace(before, id, group, answer, foreign);
    }

    ghost predicate Distinct()
      reads this
    {
      forall a, b :: a in guards && b in guards && a != b ==> guards[a] != guards[b]
    }

    /** Runs a guard constructor and keeps the guard, if one was made. */
    method Adopt(id: nat, attr: Attr, location: Location, group: int) returns (ghost answer: Answer)
      requires Distinct() && id !in guards
      modifies this, kernel
      ensures Possible(old(View()), answer) && View() == Descriptors.Construct(old(View()), id, group, answer)
      ensures answer.Refused? <==> kernel.verdict(attr, location).Refuses?
      ensures answer.Granted? ==> (answer.nonblocking <==> kernel.verdict(attr, location).Opens?)
      ensures Opens(id, answer)
      ensures Distinct()
    {
      ghost var before := View();
      var guard, fd := EventGuard.Construct(kernel, attr, location, group);
      if guard.Some? {
        guards := guards[id := guard.value];
      }
      answer := if kernel.verdict(attr, location).Refuses? then Refused
                else Granted(fd, kernel.verdict(attr, location).Opens?);
      assert View().guards == Descriptors.Construct(before, id, group, answer).guards;
    }

    method MoveConstruct(source: nat, id: nat)
      requires Valid() && source in guards && id !in guards
      modifies this, guards.Values
      ensures View() == Step(old(View()), Op.MoveConstruct(source, id)) && Valid()
      ensures guards.Keys == old(guards.Keys) + {id}
      ensures guards[id].fd == old(guards[source].fd) && guards[source].fd == -1
      ensures forall other :: other in old(guards) && other != source ==> guards[other].fd == old(guards[other].fd)
    {
      ghost var before := View();
      var g := new EventGuard.Moved(guards[source]);
      guards := guards[id := g];
      assert View().guards == Step(before, Op.MoveConstruct(source, id)).guards;
      StepKeepsOwnership(before, Op.MoveConstruct(source, id), foreign);
    }

    method MoveAssign(target: nat, source: nat)
      requires Valid() && target in guards && source in guards
      modifies guards.Values
      ensures View() == Step(old(View()), Op.MoveAssign(target, source)) && Valid()
      ensures guards == old(guards)
      ensures guards[target].fd == old(guards[source].fd) && guards[source].fd == old(guards[target].fd)
      ensures forall other :: other in guards && other != source && other != target ==>
        guards[other].fd == old(guards[other].fd)
    {
      ghost var before := View();
      guards[target].MoveFrom(guards[source]);
      assert View().guards == Step(before, Op.MoveAssign(target, source)).guards;
      StepKeepsOwnership(before, Op.MoveAssign(target, source), foreign);
    }

    method Destroy(id: nat)
      requires Valid() && id in guards
      modifies this, kernel
      ensures View() == Step(old(View()), Op.Destroy(id)) && Valid()
      ensures guards == old(guards) - {id}
      ensures kernel.trace == old(kernel.trace) + if old(guards[id].fd) == -1 then [] else [Closed(old(guards[id].fd))]
      ensures forall other :: other in guards ==> guards[other].fd == old(guards[other].fd)
    {
      ghost var before := View();
      DestroyKeepsOwnership(before, id, foreign);
      guards[id].Destroy(kernel);
      guards := guards - {id};
      assert View().guards == Step(before, Op.Destroy(id)).guards;
      StepKeepsTrace(before, Op.Destroy(id), foreign);
    }
  }
}
