/** The event resolver: a memo table, with negative entries, in front of the event constructors. */
module Resolver {
  import opened Outcomes

  /** Resolving a name afresh runs an event constructor: an event, `InvalidEvent`, or another exception.
      The first two settle the matter and are remembered. */
  predicate Settled<E>(a: Result<E>) {
    a.Ok? || a.fault == InvalidEvent
  }

  type Table<E> = map<string, Option<E>>

  // ----- single calls -----

  function Stored<E>(entry: Option<E>): Result<E> {
    match entry
    case Some(e) => Ok(e)
    case None => Threw(InvalidEvent)
  }

  /** The answer given for `name`: the table's if it has one, otherwise the fresh one. */
  function Given<E>(t: Table<E>, name: string, now: Result<E>): Result<E> {
    if name in t then Stored(t[name]) else now
  }

  /** Settled answers to new names are stored; other faults are not. */
  function After<E>(t: Table<E>, name: string, now: Result<E>): Table<E> {
    if name in t || !Settled(now) then t
    else t[name := if now.Ok? then Some(now.value) else None]
  }

  // ----- the object -----

  class EventResolver<E> {
    var eventMap: Table<E>

    /** The constructor's loops: each predefined event is added if it can be built, the first one under
        a name wins, and an event that cannot be built is left out. The rows carry the outcome of
        building each event; an exception other than `InvalidEvent` ends the construction. */
    static method Fill(rows: seq<(string, Result<E>)>) returns (r: Result<Table<E>>)
      ensures r.Threw? <==> exists k :: 0 <= k < |rows| && rows[k].1.Threw? && rows[k].1.fault != InvalidEvent
      ensures forall k: nat :: FirstUnsettled(rows, k) ==> r == Threw(rows[k].1.fault)
      ensures r.Ok? ==> r.value == FirstBuilt(rows)
    {
      var t: Table<E> := map[];
      for k := 0 to |rows|
        invariant t == FirstBuilt(rows[..k])
        invariant forall j :: 0 <= j < k ==> Settled(rows[j].1)
      {
        FirstBuiltGrows(rows, k);
        match rows[k].1 {
          case Ok(e) =>
            if rows[k].0 !in t {
              t := t[rows[k].0 := Some(e)];
            }
          case Threw(f) =>
            if f != InvalidEvent {
              return Threw(f);
            }
        }
      }
      assert rows[..|rows|] == rows;
      return Ok(t);
    }

    constructor (table: Table<E>)
      ensures eventMap == table
    {
      eventMap := table;
    }

    /** `cache_event`: `now` is what the event's own constructor does this time. */
    method CacheEvent(name: string, now: Result<E>) returns (r: Result<E>)
      requires name !in eventMap
      modifies this
      ensures r == now && eventMap == After(old(eventMap), name, now)
      ensures eventMap == match now
        case Ok(e) => old(eventMap)[name := Some(e)]
        case Threw(InvalidEvent) => old(eventMap)[name := None]
        case Threw(_) => old(eventMap)
    {
      match now {
        case Ok(e) =>
          eventMap := eventMap[name := Some(e)];
        case Threw(f) =>
          if f == InvalidEvent {
            eventMap := eventMap[name := None];
          }
      }
      return now;
    }

    /** `get_event_by_name` */
    method GetEventByName(name: string, now: Result<E>) returns (r: Result<E>)
      modifies this
      ensures r == Given(old(eventMap), name, now)
      ensures eventMap == After(old(eventMap), name, now)
      ensures name !in old(eventMap) ==> r == now
      ensures name in old(eventMap) ==> eventMap == old(eventMap)
      ensures name in old(eventMap) ==> r == match old(eventMap)[name]
        case Some(e) => Ok(e)
        case None => Threw(InvalidEvent)
    {
      if name in eventMap {
        match eventMap[name] {
          case Some(e) => return Ok(e);
          case None => return Threw(InvalidEvent);
        }
      }
      r := CacheEvent(name, now);
    }

    /** `has_event`: true, false, or an exception that is not `InvalidEvent`. */
    method HasEvent(name: string, now: Result<E>) returns (r: Result<bool>)
      modifies this
      ensures var a := Given(old(eventMap), name, now);
        r == if Settled(a) then Ok(a.Ok?) else Threw(a.fault)
      ensures name in old(eventMap) ==> r == Ok(old(eventMap)[name].Some?) && eventMap == old(eventMap)
      ensures name !in old(eventMap) ==> r == match now
        case Ok(_) => Ok(true)
        case Threw(InvalidEvent) => Ok(false)
        case Threw(f) => Threw(f)
      ensures eventMap == After(old(eventMap), name, now)
    {
      if name in eventMap {
        return Ok(eventMap[name].Some?);
      }
      var made := CacheEvent(name, now);
      match made {
        case Ok(_) => return Ok(true);
        case Threw(f) => return if f == InvalidEvent then Ok(false) else Threw(f);
      }
    }

    /** `get_predefined_events`: the events of all entries that hold one. The hash map is walked in an order
        of its own, which meets every entry once. */
    method GetPredefinedEvents() returns (events: seq<E>)
      ensures exists names :: Enumerates(names, eventMap.Keys) && events == EventsOf(eventMap, names)
    {
      events := [];
      ghost var names := [];
      var rest := eventMap.Keys;
      while rest != {}
        invariant rest <= eventMap.Keys
        invariant Enumerates(names, eventMap.Keys - rest)
        invariant events == EventsOf(eventMap, names)
        decreases rest
      {
        var name :| name in rest;
        rest := rest - {name};
        EventsOfStep(eventMap, names, name);
        var event := eventMap[name];
        if event.Some? {
          events := events + [event.value];
        }
        names := names + [name];
      }
    }
  }

  /** The events the table holds for `names`, skipping the negative entries. */
  function EventsOf<E>(t: Table<E>, names: seq<string>): seq<E> {
    if names == [] then [] else EventUnder(t, names[0]) + EventsOf(t, names[1..])
  }

  function EventUnder<E>(t: Table<E>, name: string): seq<E> {
    if name in t && t[name].Some? then [t[name].value] else []
  }

  /** `names` has every element of `keys` once, and nothing else. */
  ghost predicate Enumerates(names: seq<string>, keys: set<string>) {
    && (forall name :: name in names <==> name in keys)
    && forall i, j :: 0 <= i < j < |names| ==> names[i] != names[j]
  }

  lemma {:induction false} EventsOfStep<E>(t: Table<E>, names: seq<string>, name: string)
    ensures EventsOf(t, names + [name]) == EventsOf(t, names) + EventUnder(t, name)
  {
    if names == [] {
      assert names + [name] == [name];
      assert EventsOf(t, [name]) == EventUnder(t, name) + EventsOf(t, []);
    } else {
      assert (names + [name])[1..] == names[1..] + [name];
      EventsOfStep(t, names[1..], name);
    }
  }

  /** Visiting the entries in any order delivers exactly the events of the positive ones. */
  lemma {:induction false} EventsOfExactly<E>(t: Table<E>, names: seq<string>, event: E)
    ensures event in EventsOf(t, names) <==> exists n :: n in names && n in t && t[n] == Some(event)
  {
    if names != [] {
      EventsOfExactly(t, names[1..], event);
      assert names == [names[0]] + names[1..];
      assert names[0] in names && forall n :: n in names <==> n == names[0] || n in names[1..];
    }
  }

  /** The names whose entries hold an event. */
  function Positive<E>(t: Table<E>): set<string> {
    set name | name in t && t[name].Some?
  }

  lemma {:induction false} CountAmong<E>(t: Table<E>, names: seq<string>)
    requires forall i, j :: 0 <= i < j < |names| ==> names[i] != names[j]
    ensures |EventsOf(t, names)| == |set name | name in names && name in Positive(t)|
  {
    if names != [] {
      CountAmong(t, names[1..]);
      var tail := set name | name in names[1..] && name in Positive(t);
      var all := set name | name in names && name in Positive(t);
      assert names == [names[0]] + names[1..];
      assert names[0] !in tail;
      assert all == if names[0] in Positive(t) then {names[0]} + tail else tail;
    }
  }

  /** Whatever the order in which the entries are visited, each event is delivered as often as there are
      entries that hold one: none is lost and none comes twice. */
  lemma EveryEntryOnce<E>(t: Table<E>, names: seq<string>)
    requires Enumerates(names, t.Keys)
    ensures |EventsOf(t, names)| == |Positive(t)|
    ensures forall event :: event in EventsOf(t, names) <==> exists n :: n in t && t[n] == Some(event)
  {
    CountAmong(t, names);
    assert (set name | name in names && name in Positive(t)) == Positive(t);
    forall event ensures event in EventsOf(t, names) <==> exists n :: n in t && t[n] == Some(event) {
      EventsOfExactly(t, names, event);
    }
  }

  /** Row `k` is the first whose event meets an exception other than `InvalidEvent`. */
  ghost predicate FirstUnsettled<E>(rows: seq<(string, Result<E>)>, k: nat) {
    && k < |rows| && rows[k].1.Threw? && rows[k].1.fault != InvalidEvent
    && forall j :: 0 <= j < k ==> rows[j].1.Ok? || rows[j].1.fault == InvalidEvent
  }

  /** Row `k` is the first that builds an event under its name. */
  ghost predicate FirstUnderName<E>(rows: seq<(string, Result<E>)>, k: nat) {
    && k < |rows| && rows[k].1.Ok?
    && forall j :: 0 <= j < k && rows[j].0 == rows[k].0 ==> !rows[j].1.Ok?
  }

  function FirstBuilt<E>(rows: seq<(string, Result<E>)>): Table<E> {
    if rows == [] then map[]
    else
      var before := FirstBuilt(rows[..|rows| - 1]);
      var (name, a) := rows[|rows| - 1];
      if a.Ok? && name !in before then before[name := Some(a.value)] else before
  }

  lemma FirstBuiltGrows<E>(rows: seq<(string, Result<E>)>, k: nat)
    requires k < |rows|
    ensures FirstBuilt(rows[..k + 1]) ==
      (if rows[k].1.Ok? && rows[k].0 !in FirstBuilt(rows[..k])
       then FirstBuilt(rows[..k])[rows[k].0 := Some(rows[k].1.value)] else FirstBuilt(rows[..k]))
  {
    assert rows[..k + 1][..k] == rows[..k];
  }

  /** The filled table maps exactly the names with a row that builds, each to its first built event. */
  lemma {:induction false} FirstBuiltMeaning<E>(rows: seq<(string, Result<E>)>, name: string)
    ensures name in FirstBuilt(rows) <==> exists k :: 0 <= k < |rows| && rows[k].0 == name && rows[k].1.Ok?
    ensures forall k: nat :: FirstUnderName(rows, k) && rows[k].0 == name ==>
      name in FirstBuilt(rows) && FirstBuilt(rows)[name] == Some(rows[k].1.value)
    decreases |rows|
  {
    if rows != [] {
      var n := |rows| - 1;
      var init := rows[..n];
      FirstBuiltMeaning(init, name);
      forall k: nat | FirstUnderName(rows, k) && rows[k].0 == name
        ensures name in FirstBuilt(rows) && FirstBuilt(rows)[name] == Some(rows[k].1.value)
      {
        if k < n {
          assert FirstUnderName(init, k);
        }
      }
    }
  }

  // ----- runs -----

  /** A call of either method on a name, with the answer a fresh resolution would yield at that moment.
      The system may change between calls, so the answers for one name may differ. */
  datatype Call<+E> = Call(name: string, now: Result<E>)

  function TableAfter<E>(t: Table<E>, calls: seq<Call<E>>): Table<E> {
    if calls == [] then t
    else
      var last := calls[|calls| - 1];
      After(TableAfter(t, calls[..|calls| - 1]), last.name, last.now)
  }

  /** The answer given by call `k` of a run. */
  function AnswerAt<E>(t: Table<E>, calls: seq<Call<E>>, k: nat): Result<E>
    requires k < |calls|
  {
    Given(TableAfter(t, calls[..k]), calls[k].name, calls[k].now)
  }

  /** Whether call `k` has to resolve its name afresh. */
  predicate Consults<E>(t: Table<E>, calls: seq<Call<E>>, k: nat)
    requires k < |calls|
  {
    calls[k].name !in TableAfter(t, calls[..k])
  }

  /** Whether call `j` of the run asks for `name` and a fresh answer would be valid or invalid. */
  predicate Settles<E>(calls: seq<Call<E>>, j: nat, name: string)
    requires j < |calls|
  {
    calls[j].name == name && Settled(calls[j].now)
  }

  /** Call `j` is the first among the first `n` to settle `name`. */
  ghost predicate FirstToSettle<E>(calls: seq<Call<E>>, n: nat, name: string, j: nat)
    requires n <= |calls|
  {
    j < n && Settles(calls, j, name) && forall i :: 0 <= i < j ==> !Settles(calls, i, name)
  }

  /** What the table says about a name after a run: what it said at the start, else the first valid or
      invalid answer a call on that name met. */
  lemma {:induction false} TableMeaning<E>(t: Table<E>, calls: seq<Call<E>>, n: nat, name: string)
    requires n <= |calls|
    ensures name in TableAfter(t, calls[..n]) <==> name in t || exists j: nat :: j < n && Settles(calls, j, name)
    ensures name in t ==> name in TableAfter(t, calls[..n]) && TableAfter(t, calls[..n])[name] == t[name]
    ensures name !in t ==> forall j: nat :: FirstToSettle(calls, n, name, j) ==>
      name in TableAfter(t, calls[..n]) && Stored(TableAfter(t, calls[..n])[name]) == calls[j].now
    decreases n
  {
    if n != 0 {
      TableMeaning(t, calls, n - 1, name);
      assert calls[..n][..n - 1] == calls[..n - 1];
      var before := TableAfter(t, calls[..n - 1]);
      assert TableAfter(t, calls[..n]) == After(before, calls[n - 1].name, calls[n - 1].now);
      assert calls[n - 1].name == name && Settled(calls[n - 1].now) <==> Settles(calls, n - 1, name);
      forall j: nat | name !in t && FirstToSettle(calls, n, name, j)
        ensures name in TableAfter(t, calls[..n]) && Stored(TableAfter(t, calls[..n])[name]) == calls[j].now
      {
        if j < n - 1 {
          assert FirstToSettle(calls, n - 1, name, j);
        } else {
          assert name !in before;
        }
      }
    }
  }

  /** The memo table never changes what callers see from the first settled answer on: over any run, call
      `k` answers with the initial entry for its name, else with the first valid or invalid answer any
      call up to `k` met for it, else with the other fault it meets itself. */
  lemma MemoAgrees<E>(t: Table<E>, calls: seq<Call<E>>, k: nat)
    requires k < |calls|
    ensures var name := calls[k].name;
      && (name in t ==> AnswerAt(t, calls, k) == Stored(t[name]))
      && (name !in t ==> forall j: nat :: FirstToSettle(calls, k + 1, name, j) ==>
            AnswerAt(t, calls, k) == calls[j].now)
      && (name !in t && (forall j :: 0 <= j <= k ==> !Settles(calls, j, name)) ==>
            AnswerAt(t, calls, k) == calls[k].now && !Settled(AnswerAt(t, calls, k)))
  {
    var name := calls[k].name;
    TableMeaning(t, calls, k, name);
    assert Settles(calls, k, name) <==> Settled(calls[k].now);
    forall j: nat | name !in t && FirstToSettle(calls, k + 1, name, j) ensures AnswerAt(t, calls, k) == calls[j].now {
      if j < k {
        assert FirstToSettle(calls, k, name, j);
      }
    }
  }

  /** A name is settled at most once, and never if it was in the table at the start. */
  lemma SettledOnce<E>(t: Table<E>, calls: seq<Call<E>>, j: nat, k: nat)
    requires j < k < |calls| && calls[j].name == calls[k].name && Settled(calls[j].now)
    ensures !Consults(t, calls, k)
    ensures calls[j].name in t ==> !Consults(t, calls, j)
  {
    TableMeaning(t, calls, k, calls[k].name);
    TableMeaning(t, calls, j, calls[j].name);
    assert Settles(calls, j, calls[k].name);
  }

  /** Entries are never removed or changed. */
  lemma {:induction false} EntriesStay<E>(t: Table<E>, calls: seq<Call<E>>, j: nat, k: nat, name: string)
    requires j <= k <= |calls| && name in TableAfter(t, calls[..j])
    ensures name in TableAfter(t, calls[..k]) && TableAfter(t, calls[..k])[name] == TableAfter(t, calls[..j])[name]
    decreases k
  {
    if j < k {
      EntriesStay(t, calls, j, k - 1, name);
      assert calls[..k][..k - 1] == calls[..k - 1];
    }
  }

  /** From a settled answer on, every later call on the name gets the same answer. */
  lemma AnswersStay<E>(t: Table<E>, calls: seq<Call<E>>, j: nat, k: nat)
    requires j < k < |calls| && calls[j].name == calls[k].name && Settled(AnswerAt(t, calls, j))
    ensures AnswerAt(t, calls, k) == AnswerAt(t, calls, j)
  {
    assert calls[..j + 1][..j] == calls[..j];
    EntriesStay(t, calls, j + 1, k, calls[j].name);
  }

  /** `has_event` followed by `get_event_by_name` on the same name: unless `has_event` itself met another
      fault, it is true iff the event is then delivered, whatever the second resolution would yield. */
  lemma HasThenGet<E>(t: Table<E>, name: string, first: Result<E>, second: Result<E>)
    ensures Given(After(t, name, first), name, second) ==
      if Settled(Given(t, name, first)) then Given(t, name, first) else second
  {
  }
}
