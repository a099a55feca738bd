/** Lists of CPU ids such as `0-3,8,10-11` (`parse_list`). */
module CpuList {
  import opened Outcomes
  import opened Words
  import opened Numerals
  import opened Bitmask
  import opened Text

  const U32: nat := 0x1_0000_0000
  const U32_MAX: nat := 0xffff_ffff

  type Id = n: nat | n < U32

  /** An int converted to `std::uint32_t`. */
  function ToId(n: int): Id {
    n % U32
  }

  /** A `std::uint32_t` converted to int. */
  function ToInt(id: Id): (n: int)
    ensures -0x8000_0000 <= n <= 0x7fff_ffff && (n == id || n + 0x1_0000_0000 == id)
  {
    if id <= INT_MAX then id else id - U32
  }

  /** Where `c` first occurs in `s`, or the length of `s`. */
  function Find(s: string, c: char): (n: nat)
    ensures n <= |s|
    ensures n < |s| ==> s[n] == c
    ensures c !in s[..n]
  {
    if s == "" || s[0] == c then 0 else 1 + Find(s[1..], c)
  }

  /** What repeated `std::getline(s, part, ',')` delivers: a comma at the very end opens no further part. */
  function Parts(s: string): seq<string>
    decreases |s|
  {
    if s == "" then []
    else
      var n := Find(s, ',');
      if n == |s| then [s] else [s[..n]] + Parts(s[n + 1..])
  }

  /** The ids one part names. A single number is a range of one. */
  datatype Item = Span(from: Id, to: Id) | Rejected(fault: Fault) | Single(id: Id)

  function SpanFrom(from: int, to: Result<int>): Item {
    match to
    case Threw(f) => Rejected(f)
    case Ok(n) => Span(ToId(from), ToId(n))
  }

  function ItemOf(part: string): Item {
    var dash := Find(part, '-');
    if dash < |part| then
      match Stoi(part[..dash])
      case Threw(f) => Rejected(f)
      case Ok(from) => SpanFrom(from, Stoi(part[dash + 1..]))
    else
      match Stoi(part)
      case Threw(f) => Rejected(f)
      case Ok(n) => Single(ToId(n))
  }

  /** The ids from `from` up to but not including `until`. */
  function Interval(from: nat, until: nat): (r: set<Id>)
    requires until <= U32
    ensures forall i: Id :: i in r <==> from <= i < until
    decreases until - from
  {
    if from >= until then {} else Interval(from + 1, until) + {from}
  }

  function Ids(item: Item): set<Id> {
    match item
    case Span(from, to) => Interval(from, to + 1)
    case Single(id) => {id}
    case Rejected(_) => {}
  }

  /** `for (i = from; i <= to; ++i)` cannot end when every 32-bit value satisfies its guard. */
  predicate Endless(item: Item) {
    item.Span? && item.to == U32_MAX
  }

  function Items(parts: seq<string>): (items: seq<Item>)
    ensures |items| == |parts|
    ensures forall k :: 0 <= k < |parts| ==> items[k] == ItemOf(parts[k])
  {
    seq(|parts|, k requires 0 <= k < |parts| => ItemOf(parts[k]))
  }

  datatype Listing = Listing(ids: set<Id>) | Aborted(fault: Fault) | NeverReturns

  /** The items are added one by one until one throws or never ends. */
  function Collect(items: seq<Item>, ids: set<Id>): Listing {
    if items == [] then Listing(ids)
    else if items[0].Rejected? then Aborted(items[0].fault)
    else if Endless(items[0]) then NeverReturns
    else Collect(items[1..], ids + Ids(items[0]))
  }

  function Listed(list: string): Listing {
    Collect(Items(Parts(list)), {})
  }

  // ----- the inner loop's counter -----

  /** The 32-bit counter after `turns` increments. */
  function Counter(from: Id, turns: nat): Id {
    if turns == 0 then from else (Counter(from, turns - 1) + 1) % U32
  }

  lemma {:induction false} CounterClimbs(from: Id, turns: nat)
    requires from + turns < U32
    ensures Counter(from, turns) == from + turns
  {
    if turns != 0 {
      CounterClimbs(from, turns - 1);
    }
  }

  /** The loop's guard fails at some point iff `to` is not the largest 32-bit value; the `to` that
      makes it run forever is -1 before the conversion. */
  lemma LoopEndsIff(from: Id, to: Id)
    ensures (exists turns :: Counter(from, turns) > to) <==> to != U32_MAX
    ensures forall n :: INT_MIN <= n <= INT_MAX ==> (ToId(n) == U32_MAX <==> n == -1)
  {
    if to != U32_MAX {
      var turns := U32_MAX - from;
      CounterClimbs(from, turns);
      assert Counter(from, turns) > to;
    }
  }

  // ----- the loops -----

  lemma ItemsTail(parts: seq<string>)
    requires parts != []
    ensures Items(parts)[1..] == Items(parts[1..])
  {
  }

  /** The text after the first part. */
  function AfterPart(s: string): (r: string)
    requires s != ""
    ensures |r| < |s|
  {
    var end := Find(s, ',');
    if end == |s| then "" else s[end + 1..]
  }

  /** One turn of the outer loop, seen from the specification. */
  lemma CollectTurn(rest: string, ids: set<Id>)
    requires rest != ""
    ensures var item := ItemOf(rest[..Find(rest, ',')]);
      Collect(Items(Parts(rest)), ids) ==
        if item.Rejected? then Aborted(item.fault)
        else if Endless(item) then NeverReturns
        else Collect(Items(Parts(AfterPart(rest))), ids + Ids(item))
  {
    var part := rest[..Find(rest, ',')];
    assert Find(rest, ',') == |rest| ==> part == rest;
    assert Parts(rest)[0] == part && Parts(rest)[1..] == Parts(AfterPart(rest));
    ItemsTail(Parts(rest));
  }

  /** `parse_list`. The precondition excludes the inputs on which the code does not return, and no others. */
  method ParseList(list: string) returns (r: Result<set<Id>>)
    requires !Listed(list).NeverReturns?
    ensures Listed(list).Aborted? ==> r == Threw(Listed(list).fault)
    ensures Listed(list).Listing? ==> r == Ok(Listed(list).ids)
  {
    var res: set<Id> := {};
    var rest := list;
    while rest != ""
      invariant Collect(Items(Parts(rest)), res) == Listed(list)
      decreases |rest|
    {
      CollectTurn(rest, res);
      var part := rest[..Find(rest, ',')];
      rest := AfterPart(rest);
      var pos := Find(part, '-');
      if pos < |part| {
        var first := Stoi(part[..pos]);
        if first.Threw? {
          return Threw(first.fault);
        }
        var second := Stoi(part[pos + 1..]);
        if second.Threw? {
          return Threw(second.fault);
        }
        res := InsertSpan(res, ToId(first.value), ToId(second.value));
      } else {
        var n := Stoi(part);
        if n.Threw? {
          return Threw(n.fault);
        }
        res := res + {ToId(n.value)};
      }
    }
    return Ok(res);
  }

  /** The inner loop, on a 32-bit counter that wraps. */
  method InsertSpan(ids: set<Id>, from: Id, to: Id) returns (res: set<Id>)
    requires to != U32_MAX
    ensures res == ids + Ids(Span(from, to))
  {
    res := ids;
    var i: Id := from;
    while i <= to
      invariant from <= i && (i <= to + 1 || i == from)
      invariant res == ids + Interval(from, i)
      decreases U32 - i
    {
      res := res + {i};
      i := (i + 1) % U32;
    }
  }

  // ----- what the set means -----

  ghost predicate Named(items: seq<Item>, id: Id) {
    exists item :: item in items && id in Ids(item)
  }

  ghost predicate AllGood(items: seq<Item>) {
    forall item :: item in items ==> !item.Rejected? && !Endless(item)
  }

  /** Parsing succeeds iff every part is in order, and then yields exactly the ids some part names. */
  lemma {:induction false} CollectMeaning(items: seq<Item>, ids: set<Id>, id: Id)
    ensures Collect(items, ids).Listing? <==> AllGood(items)
    ensures Collect(items, ids).Listing? ==> (id in Collect(items, ids).ids <==> id in ids || Named(items, id))
    decreases |items|
  {
    if items != [] {
      var head, tail := items[0], items[1..];
      assert items == [head] + tail;
      assert head in items;
      assert forall item :: item in items <==> item == head || item in tail;
      if !head.Rejected? && !Endless(head) {
        CollectMeaning(tail, ids + Ids(head), id);
      }
    }
  }

  lemma SetOf(items: seq<Item>, ids: set<Id>)
    requires AllGood(items)
    requires forall id: Id :: id in ids <==> Named(items, id)
    ensures Collect(items, {}) == Listing(ids)
  {
    var zero: Id := 0;
    CollectMeaning(items, {}, zero);
    forall id: Id ensures id in Collect(items, {}).ids <==> id in ids {
      CollectMeaning(items, {}, id);
    }
    assert Collect(items, {}).ids == ids;
  }

  /** The first part that is not in order decides. */
  lemma {:induction false} CollectAppend(a: seq<Item>, b: seq<Item>, ids: set<Id>)
    ensures Collect(a + b, ids) == if Collect(a, ids).Listing? then Collect(b, Collect(a, ids).ids) else Collect(a, ids)
    decreases |a|
  {
    if a == [] {
      assert a + b == b;
    } else {
      assert (a + b)[1..] == a[1..] + b;
      if !a[0].Rejected? && !Endless(a[0]) {
        CollectAppend(a[1..], b, ids + Ids(a[0]));
      }
    }
  }

  lemma {:induction false} CollectGrows(items: seq<Item>, ids: set<Id>)
    requires Collect(items, {}).Listing?
    ensures Collect(items, ids) == Listing(ids + Collect(items, {}).ids)
  {
    var zero: Id := 0;
    CollectMeaning(items, ids, zero);
    CollectMeaning(items, {}, zero);
    forall id: Id ensures id in Collect(items, ids).ids <==> id in ids + Collect(items, {}).ids {
      CollectMeaning(items, ids, id);
      CollectMeaning(items, {}, id);
    }
  }

  /** Parsing does not return iff a part whose range ends at the largest 32-bit value is reached. */
  lemma {:induction false} NeverReturnsIff(items: seq<Item>, ids: set<Id>)
    ensures Collect(items, ids).NeverReturns? <==>
      exists k :: 0 <= k < |items| && Endless(items[k]) && AllGood(items[..k])
    decreases |items|
  {
    if items != [] {
      var head, tail := items[0], items[1..];
      if Endless(head) {
        assert AllGood(items[..0]);
      } else if !head.Rejected? {
        NeverReturnsIff(tail, ids + Ids(head));
        forall k | 0 <= k < |tail| ensures AllGood(items[..k + 1]) <==> AllGood(tail[..k]) {
          assert items[..k + 1] == [head] + tail[..k];
          assert forall item :: item in items[..k + 1] <==> item == head || item in tail[..k];
        }
        if k :| 0 <= k < |items| && Endless(items[k]) && AllGood(items[..k]) {
          assert tail[k - 1] == items[k];
        }
        if k :| 0 <= k < |tail| && Endless(tail[k]) && AllGood(tail[..k]) {
          assert items[k + 1] == tail[k];
        }
      } else {
        forall k | 0 < k < |items| ensures !AllGood(items[..k]) {
          assert items[..k][0] == head;
        }
      }
    }
  }

  /** The part is read without an exception and does not make the loop run forever. */
  predicate InOrder(part: string) {
    var dash := Find(part, '-');
    if dash == |part| then Stoi(part).Ok?
    else Stoi(part[..dash]).Ok? && Stoi(part[dash + 1..]).Ok? && Stoi(part[dash + 1..]).value != -1
  }

  /** The text before the first dash reads as an int and the text after it as -1. */
  predicate EndsAtMinusOne(part: string) {
    var dash := Find(part, '-');
    dash < |part| && Stoi(part[..dash]).Ok? && Stoi(part[dash + 1..]) == Ok(-1)
  }

  lemma PartOnText(part: string)
    ensures InOrder(part) <==> !ItemOf(part).Rejected? && !Endless(ItemOf(part))
    ensures EndsAtMinusOne(part) <==> Endless(ItemOf(part))
  {
  }

  /** On the text: `parse_list` does not return iff some part reads as an int, a dash and -1, and all parts
      before it are in order. */
  lemma NeverReturnsOnText(list: string)
    ensures Listed(list).NeverReturns? <==>
      exists k :: 0 <= k < |Parts(list)| && EndsAtMinusOne(Parts(list)[k]) &&
        forall j :: 0 <= j < k ==> InOrder(Parts(list)[j])
  {
    var parts := Parts(list);
    var items := Items(parts);
    NeverReturnsIff(items, {});
    forall k | 0 <= k < |parts|
      ensures EndsAtMinusOne(parts[k]) <==> Endless(items[k])
      ensures AllGood(items[..k]) <==> forall j :: 0 <= j < k ==> InOrder(parts[j])
    {
      PartOnText(parts[k]);
      GoodOnText(parts, k);
    }
  }

  lemma GoodOnText(parts: seq<string>, k: nat)
    requires k <= |parts|
    ensures AllGood(Items(parts)[..k]) <==> forall j :: 0 <= j < k ==> InOrder(parts[j])
  {
    var items := Items(parts);
    forall j | 0 <= j < k ensures InOrder(parts[j]) <==> !items[j].Rejected? && !Endless(items[j]) {
      PartOnText(parts[j]);
    }
    assert forall j :: 0 <= j < k ==> items[..k][j] == items[j];
    assert forall j :: 0 <= j < k ==> items[j] in items[..k];
  }

  /** One input on which the code does not return. */
  lemma DoubleDashNeverReturns()
    ensures Listed("3--1").NeverReturns?
  {
    var list := "3--1";
    NoneFound(list, ',');
    assert list[..4] == list;
    assert Parts(list) == [list];
    assert Find(list, '-') == 1 && list[..1] == "3" && list[2..] == "-1";
    StoiOfPrinted(3);
    assert Print(3, 10) == "3";
    NumeralOfPrint(-1, "");
    assert PrintInt(-1) == "-1" && "-1" + "" == "-1";
    assert EndsAtMinusOne(list);
    NeverReturnsOnText(list);
  }

  /** A text that `getline` would follow by an empty part if a comma came next. */
  predicate OpensEmptyPart(s: string) {
    s == "" || s[|s| - 1] == ','
  }

  lemma {:induction false} FindIn(s: string, c: char, t: string)
    ensures Find(s + [c] + t, c) == Find(s, c)
  {
    var u := s + [c] + t;
    if s != "" && s[0] != c {
      assert u[1..] == s[1..] + [c] + t;
      FindIn(s[1..], c, t);
    }
  }

  lemma PartsStep(s: string, end: nat)
    requires end == Find(s, ',') < |s|
    ensures Parts(s) == [s[..end]] + Parts(s[end + 1..])
  {
  }

  function EmptyPart(s: string): seq<string> {
    if OpensEmptyPart(s) then [""] else []
  }

  lemma EmptyPartOfTail(s: string, end: nat)
    requires end < |s| && s[end] == ','
    ensures EmptyPart(s) == EmptyPart(s[end + 1..])
  {
  }

  lemma PartsWithoutComma(s: string)
    requires Find(s, ',') == |s|
    ensures Parts(s) + EmptyPart(s) == [s]
  {
    assert s[..|s|] == s;
    assert s != "" ==> s[|s| - 1] in s;
  }

  lemma {:induction false} PartsOfConcatenation(s: string, t: string)
    ensures Parts(s + "," + t) == Parts(s) + EmptyPart(s) + Parts(t)
    decreases |s|
  {
    var u, n := s + "," + t, Find(s, ',');
    FindIn(s, ',', t);
    PartsStep(u, n);
    if n == |s| {
      assert u[..n] == s && u[n + 1..] == t;
      PartsWithoutComma(s);
    } else {
      var tail := s[n + 1..];
      assert u[..n] == s[..n] && u[n + 1..] == tail + "," + t;
      PartsOfConcatenation(tail, t);
      PartsStep(s, n);
      EmptyPartOfTail(s, n);
      Regroup([s[..n]], Parts(tail), EmptyPart(s), Parts(t));
    }
  }

  lemma Regroup(a: seq<string>, b: seq<string>, c: seq<string>, d: seq<string>)
    ensures a + (b + c + d) == a + b + c + d
  {
  }

  lemma ItemsAppend(a: seq<string>, b: seq<string>)
    ensures Items(a + b) == Items(a) + Items(b)
  {
  }

  /** Two lists joined by a comma name the union of their ids, except after an empty list or a list that
      already ends in a comma: there an empty part arises, which the number reader rejects. */
  lemma ConcatenationIsUnion(s: string, t: string)
    requires Listed(s).Listing? && Listed(t).Listing?
    ensures Listed(s + "," + t) ==
      if OpensEmptyPart(s) then Aborted(InvalidArgument) else Listing(Listed(s).ids + Listed(t).ids)
  {
    PartsOfConcatenation(s, t);
    ItemsAppend(Parts(s) + EmptyPart(s), Parts(t));
    ItemsAppend(Parts(s), EmptyPart(s));
    var a, b := Items(Parts(s)), Items(Parts(t));
    CollectAppend(a + Items(EmptyPart(s)), b, {});
    CollectAppend(a, Items(EmptyPart(s)), {});
    if OpensEmptyPart(s) {
      EmptyPartRejected();
    } else {
      CollectGrows(b, Listed(s).ids);
    }
  }

  lemma EmptyPartRejected()
    ensures ItemOf("") == Rejected(InvalidArgument)
  {
  }

  // ----- the list on its text -----

  /** The part names the id: the number it is, or one from its first number up to its second, where a negative
      second number counts from 2^32 down. A range that ends before it starts names nothing. */
  predicate PartNames(part: string, id: Id) {
    var dash := Find(part, '-');
    if dash == |part| then Stoi(part) == Ok(id)
    else
      && Stoi(part[..dash]).Ok? && Stoi(part[dash + 1..]).Ok?
      && var from, to := Stoi(part[..dash]).value, Stoi(part[dash + 1..]).value;
         from <= id <= if to < 0 then to + 0x1_0000_0000 else to
  }

  lemma PartNamesIds(part: string, id: Id)
    requires InOrder(part)
    ensures PartNames(part, id) <==> id in Ids(ItemOf(part))
  {
    var dash := Find(part, '-');
    if dash == |part| {
      assert part[..dash] == part;
      NoDashNotNegative(part);
      SmallId(Stoi(part).value);
    } else {
      NoDashNotNegative(part[..dash]);
      SmallId(Stoi(part[..dash]).value);
      Converted(Stoi(part[dash + 1..]).value);
    }
  }

  lemma Converted(n: int)
    requires INT_MIN <= n <= INT_MAX
    ensures ToId(n) == if n < 0 then n + 0x1_0000_0000 else n
  {
  }

  ghost predicate AllInOrder(list: string) {
    forall k :: 0 <= k < |Parts(list)| ==> InOrder(Parts(list)[k])
  }

  ghost predicate SomePartNames(list: string, id: Id) {
    exists k :: 0 <= k < |Parts(list)| && PartNames(Parts(list)[k], id)
  }

  lemma ReadIffInOrder(list: string)
    ensures Listed(list).Listing? <==> AllInOrder(list)
  {
    var parts := Parts(list);
    var zero: Id := 0;
    CollectMeaning(Items(parts), {}, zero);
    GoodOnText(parts, |parts|);
    assert Items(parts)[..|parts|] == Items(parts);
  }

  lemma ListedIffNamed(list: string, id: Id)
    requires Listed(list).Listing?
    ensures id in Listed(list).ids <==> SomePartNames(list, id)
  {
    ListedOnText(list, id);
    forall k | 0 <= k < |Parts(list)|
      ensures PartNames(Parts(list)[k], id) <==> id in Ids(ItemOf(Parts(list)[k]))
    {
      PartNamesIds(Parts(list)[k], id);
    }
  }

  /** On the text: a list is read iff every part is in order, and then names exactly the ids of its parts. */
  lemma ListMeaning(list: string, id: Id)
    ensures Listed(list).Listing? <==> AllInOrder(list)
    ensures Listed(list).Listing? ==> (id in Listed(list).ids <==> SomePartNames(list, id))
  {
    ReadIffInOrder(list);
    if Listed(list).Listing? {
      ListedIffNamed(list, id);
    }
  }

  /** One range of printed numbers: from the first to the second, and nothing when the second is smaller. */
  lemma RangeNames(from: nat, to: nat, id: Id)
    requires from <= INT_MAX && to <= INT_MAX
    ensures var listing := Listed(Print(from, 10) + "-" + Print(to, 10));
      listing.Listing? && (id in listing.ids <==> from <= id <= to)
  {
    PrintedNumber(from);
    PrintedNumber(to);
    SmallId(from);
    SmallId(to);
    RangeListed(Print(from, 10), Print(to, 10), from, to);
  }

  lemma {:induction false} FirstRejectedDecides(items: seq<Item>, ids: set<Id>, k: nat)
    requires k < |items| && items[k].Rejected? && AllGood(items[..k])
    ensures Collect(items, ids) == Aborted(items[k].fault)
    decreases k
  {
    if k > 0 {
      assert items[..k][0] == items[0];
      assert items[..k] == [items[0]] + items[1..][..k - 1];
      FirstRejectedDecides(items[1..], ids + Ids(items[0]), k - 1);
    }
  }

  /** The first part that cannot be read decides the exception, its first number before its second. */
  lemma FirstBadPartDecides(list: string, k: nat)
    requires k < |Parts(list)| && !InOrder(Parts(list)[k]) && !EndsAtMinusOne(Parts(list)[k])
    requires forall j :: 0 <= j < k ==> InOrder(Parts(list)[j])
    ensures var part := Parts(list)[k];
      var dash := Find(part, '-');
      && (dash == |part| ==> Stoi(part).Threw? && Listed(list) == Aborted(Stoi(part).fault))
      && (dash < |part| && Stoi(part[..dash]).Threw? ==> Listed(list) == Aborted(Stoi(part[..dash]).fault))
      && (dash < |part| && Stoi(part[..dash]).Ok? ==>
            Stoi(part[dash + 1..]).Threw? && Listed(list) == Aborted(Stoi(part[dash + 1..]).fault))
  {
    PartRejected(Parts(list)[k]);
    FirstBadItem(list, k);
  }

  lemma FirstBadItem(list: string, k: nat)
    requires k < |Parts(list)| && ItemOf(Parts(list)[k]).Rejected?
    requires forall j :: 0 <= j < k ==> InOrder(Parts(list)[j])
    ensures Listed(list) == Aborted(ItemOf(Parts(list)[k]).fault)
  {
    GoodOnText(Parts(list), k);
    FirstRejectedDecides(Items(Parts(list)), {}, k);
  }

  lemma PartRejected(part: string)
    requires !InOrder(part) && !EndsAtMinusOne(part)
    ensures var dash := Find(part, '-');
      && (dash == |part| ==> Stoi(part).Threw? && ItemOf(part) == Rejected(Stoi(part).fault))
      && (dash < |part| && Stoi(part[..dash]).Threw? ==> ItemOf(part) == Rejected(Stoi(part[..dash]).fault))
      && (dash < |part| && Stoi(part[..dash]).Ok? ==>
            Stoi(part[dash + 1..]).Threw? && ItemOf(part) == Rejected(Stoi(part[dash + 1..]).fault))
  {
  }

  // ----- ids too large for an int -----

  /** The text before the first dash reads as an int and the text after it as a negative one. */
  predicate EndsNegative(part: string) {
    var dash := Find(part, '-');
    dash < |part| && Stoi(part[..dash]).Ok? && Stoi(part[dash + 1..]).Ok? && Stoi(part[dash + 1..]).value < 0
  }

  lemma {:induction false} SkippedKeeps(s: string, c: char)
    requires c !in s
    ensures c !in SkipSpace(s)
  {
    if s != "" && IsSpace(s[0]) {
      SkippedKeeps(s[1..], c);
    }
  }

  lemma NoDashNotNegative(s: string)
    requires '-' !in s && Stoi(s).Ok?
    ensures Stoi(s).value >= 0
  {
    SkippedKeeps(s, '-');
  }

  /** The start of a range is never negative, so a negative end makes it reach across 2^31. */
  lemma LargeIdsOfPart(part: string)
    requires InOrder(part)
    ensures EndsNegative(part) ==> INT_MAX in Ids(ItemOf(part)) && INT_MAX + 1 in Ids(ItemOf(part))
    ensures !EndsNegative(part) ==> forall id :: id in Ids(ItemOf(part)) ==> id <= INT_MAX
  {
    var dash := Find(part, '-');
    if dash == |part| {
      assert part[..dash] == part;
      NoDashNotNegative(part);
      SmallId(Stoi(part).value);
    } else {
      NoDashNotNegative(part[..dash]);
      SmallId(Stoi(part[..dash]).value);
    }
  }

  lemma ListedOnText(list: string, id: Id)
    requires Listed(list).Listing?
    ensures id in Listed(list).ids <==> exists k :: 0 <= k < |Parts(list)| && id in Ids(ItemOf(Parts(list)[k]))
    ensures forall k :: 0 <= k < |Parts(list)| ==> InOrder(Parts(list)[k])
  {
    var parts := Parts(list);
    var items := Items(parts);
    CollectMeaning(items, {}, id);
    GoodOnText(parts, |parts|);
    assert items[..|parts|] == items;
    assert forall k :: 0 <= k < |parts| ==> items[k] in items;
  }

  /** An id above the largest int is listed iff some range has a negative end, and then ids on both sides of
      2^31 are listed. */
  lemma LargeIdsOnText(list: string)
    requires Listed(list).Listing?
    ensures (exists id :: id in Listed(list).ids && id > INT_MAX) <==>
      exists k :: 0 <= k < |Parts(list)| && EndsNegative(Parts(list)[k])
    ensures (exists id :: id in Listed(list).ids && id > INT_MAX) ==>
      INT_MAX in Listed(list).ids && INT_MAX + 1 in Listed(list).ids
  {
    var parts := Parts(list);
    forall k | 0 <= k < |parts| && EndsNegative(parts[k])
      ensures INT_MAX in Listed(list).ids && INT_MAX + 1 in Listed(list).ids
    {
      ListedOnText(list, INT_MAX);
      ListedOnText(list, INT_MAX + 1);
      LargeIdsOfPart(parts[k]);
    }
    if id :| id in Listed(list).ids && id > INT_MAX {
      ListedOnText(list, id);
      var k :| 0 <= k < |parts| && id in Ids(ItemOf(parts[k]));
      LargeIdsOfPart(parts[k]);
    }
  }

  lemma RangeListed(first: string, last: string, from: int, to: int)
    requires '-' !in first && ',' !in first && ',' !in last
    requires Stoi(first) == Ok(from) && Stoi(last) == Ok(to) && to != -1
    ensures Listed(first + "-" + last) == Listing(Ids(Span(ToId(from), ToId(to))))
  {
    var list := first + "-" + last;
    FoundAtDash(first, last);
    NoneFound(list, ',');
    assert Parts(list) == [list];
    var item := ItemOf(list);
    assert Items([list]) == [item];
    assert item == Span(ToId(from), ToId(to)) && !Endless(item);
    SetOf([item], Ids(item));
  }

  lemma PrintedNegative(n: int)
    requires 0 < n <= INT_MAX + 1
    ensures Stoi("-" + Print(n, 10)) == Ok(-n)
    ensures ',' !in "-" + Print(n, 10)
  {
    PrintIsDigits(n, 10);
    DigitsAreNo(Print(n, 10), ',');
    NumeralOfPrint(-n, "");
    assert PrintInt(-n) + "" == "-" + Print(n, 10);
  }

  /** A range with a negative end lists the ids up to what the conversion makes of it. */
  lemma NegativeEnd(from: nat, minus: int)
    requires from <= INT_MAX && 1 < minus <= INT_MAX + 1
    ensures Listed(Print(from, 10) + "-" + ("-" + Print(minus, 10))) == Listing(Ids(Span(from, U32 - minus)))
  {
    PrintedNumber(from);
    PrintedNegative(minus);
    SmallId(from);
    NegativeId(minus);
    RangeListed(Print(from, 10), "-" + Print(minus, 10), from, -minus);
  }

  lemma NegativeId(n: int)
    requires 0 < n <= U32
    ensures ToId(-n) == U32 - n
  {
  }

  /** For example, one id on each side of 2^31. */
  lemma LargeRange(list: string)
    requires list == "2147483647--2147483648"
    ensures Listed(list) == Listing({0x7fff_ffff, 0x8000_0000})
  {
    LargeRangeText(list, 0x7fff_ffff, 0x8000_0000);
    NegativeEnd(0x7fff_ffff, 0x8000_0000);
    LimitIds();
  }

  lemma LargeRangeText(list: string, from: nat, minus: nat)
    requires list == "2147483647--2147483648" && from == 0x7fff_ffff && minus == 0x8000_0000
    ensures list == Print(from, 10) + "-" + ("-" + Print(minus, 10))
  {
  }

  lemma LimitIds()
    ensures Ids(Span(0x7fff_ffff, 0x8000_0000)) == {0x7fff_ffff, 0x8000_0000}
  {
  }

  // ----- printing a set and reading it back -----

  /** The set's members below `bound`, as bits. */
  function Members(ids: set<nat>, bound: nat): (m: Bits)
    ensures |m| == bound
    ensures forall i :: 0 <= i < bound ==> m[i] == (i in ids)
  {
    seq(bound, i requires 0 <= i < bound => i in ids)
  }

  /** A set as text: its maximal runs as `a` or `a-b`, in ascending order, separated by commas. */
  function ListText(ids: set<nat>, bound: nat): string {
    MaskText(Members(ids, bound), true)
  }

  lemma {:induction false} PartsOfJoin(parts: seq<string>)
    requires forall p :: p in parts ==> p != "" && ',' !in p
    ensures Parts(Join(parts, ",")) == parts
    ensures parts != [] ==> Join(parts, ",") != ""
  {
    if |parts| == 1 {
      NoneFound(parts[0], ',');
    } else if |parts| > 1 {
      assert parts[0] in parts && forall p :: p in parts[1..] ==> p in parts;
      var rest := Join(parts[1..], ",");
      PartsOfJoin(parts[1..]);
      PartsOfConcatenation(parts[0], rest);
      NoneFound(parts[0], ',');
      assert parts[0][|parts[0]| - 1] in parts[0];
    }
  }

  lemma {:induction false} NoneFound(s: string, c: char)
    requires c !in s
    ensures Find(s, c) == |s|
  {
    if s != "" {
      NoneFound(s[1..], c);
    }
  }

  lemma DigitsAreNo(s: string, c: char)
    requires AllDigits(s, 10) && DigitValue(c) == 16
    ensures c !in s
  {
    assert forall i :: 0 <= i < |s| ==> s[i] != c;
  }

  lemma FoundAtDash(first: string, last: string)
    requires '-' !in first
    ensures var s := first + "-" + last;
      Find(s, '-') == |first| < |s| && s[..|first|] == first && s[|first| + 1..] == last
  {
    NoneFound(first, '-');
    FindIn(first, '-', last);
  }

  lemma PrintedNumber(n: nat)
    requires n <= INT_MAX
    ensures Stoi(Print(n, 10)) == Ok(n)
    ensures ',' !in Print(n, 10) && '-' !in Print(n, 10)
  {
    StoiOfPrinted(n);
    PrintIsDigits(n, 10);
    DigitsAreNo(Print(n, 10), ',');
    DigitsAreNo(Print(n, 10), '-');
  }

  lemma SpanOfNumbers(part: string, from: nat, to: nat)
    requires Find(part, '-') < |part| && from <= INT_MAX && to <= INT_MAX
    requires Stoi(part[..Find(part, '-')]) == Ok(from) && Stoi(part[Find(part, '-') + 1..]) == Ok(to)
    ensures ItemOf(part) == Span(from, to)
  {
    SmallId(from);
    SmallId(to);
    assert ItemOf(part) == SpanFrom(from, Ok(to));
  }

  lemma SmallId(n: nat)
    requires n < U32
    ensures ToId(n) == n
  {
  }

  /** A printed run is read as exactly its ids. */
  lemma RunItem(run: (nat, nat))
    requires run.0 <= run.1 <= INT_MAX
    ensures RunText(run, true) != "" && ',' !in RunText(run, true)
    ensures ItemOf(RunText(run, true)) == RunItemOf(run)
  {
    PrintedNumber(run.0);
    PrintedNumber(run.1);
    if run.0 == run.1 {
      NoneFound(Print(run.0, 10), '-');
    } else {
      FoundAtDash(Print(run.0, 10), Print(run.1, 10));
      SpanOfNumbers(RunText(run, true), run.0, run.1);
    }
  }

  function RunItemOf(run: (nat, nat)): Item {
    if run.0 <= run.1 <= U32_MAX then (if run.0 == run.1 then Single(run.0) else Span(run.0, run.1))
    else Rejected(OutOfRange)
  }

  function RunItems(runs: seq<(nat, nat)>): (items: seq<Item>)
    ensures |items| == |runs|
  {
    if runs == [] then [] else [RunItemOf(runs[0])] + RunItems(runs[1..])
  }

  lemma {:induction false} ItemsOfRuns(runs: seq<(nat, nat)>)
    requires Fit(runs, INT_MAX)
    ensures Items(RunTexts(runs, true)) == RunItems(runs)
    ensures forall p :: p in RunTexts(runs, true) ==> p != "" && ',' !in p
    ensures AllGood(RunItems(runs))
  {
    if runs != [] {
      RunItem(runs[0]);
      ItemsOfRuns(runs[1..]);
      ItemsTail(RunTexts(runs, true));
    }
  }

  lemma RunsFit(m: Bits, i: nat)
    requires i <= |m| <= INT_MAX + 1
    ensures Fit(Runs(m, i), INT_MAX)
  {
    var runs := Runs(m, i);
    forall k | 0 <= k < |runs| ensures runs[k].0 <= runs[k].1 <= INT_MAX {
      assert runs[k] in runs;
    }
  }

  lemma NamedCons(head: Item, tail: seq<Item>, id: Id)
    ensures Named([head] + tail, id) <==> id in Ids(head) || Named(tail, id)
  {
    assert head in [head] + tail;
    assert forall item :: item in [head] + tail <==> item == head || item in tail;
  }

  lemma RunIds(m: Bits, i: nat, id: Id)
    requires i < |m| <= INT_MAX + 1 && m[i]
    ensures id in Ids(RunItemOf((i, RunEnd(m, i)))) <==> i <= id <= RunEnd(m, i)
  {
  }

  lemma {:induction false} RunsName(m: Bits, i: nat, id: Id)
    requires i <= |m| <= INT_MAX + 1
    ensures Named(RunItems(Runs(m, i)), id) <==> i <= id < |m| && m[id]
    decreases |m| - i
  {
    if i < |m| {
      if m[i] {
        var run: (nat, nat) := (i, RunEnd(m, i));
        var after := Runs(m, run.1 + 1);
        assert Runs(m, i) == [run] + after;
        assert RunItems(Runs(m, i)) == [RunItemOf(run)] + RunItems(after);
        RunsName(m, run.1 + 1, id);
        RunIds(m, i, id);
        NamedCons(RunItemOf(run), RunItems(after), id);
      } else {
        RunsName(m, i + 1, id);
      }
    }
  }

  /** Any set of ids an int can hold, printed as its runs, is read back as the same set. */
  lemma ListRoundTrip(ids: set<nat>, bound: nat)
    requires bound <= INT_MAX + 1 && forall id :: id in ids ==> id < bound
    ensures Listed(ListText(ids, bound)).Listing?
    ensures forall id: Id :: id in Listed(ListText(ids, bound)).ids <==> id in ids
  {
    var m := Members(ids, bound);
    var runs := Runs(m, 0);
    RunsFit(m, 0);
    ItemsOfRuns(runs);
    PartsOfJoin(RunTexts(runs, true));
    var want := set id: Id | 0 <= id < bound && m[id];
    forall id: Id ensures id in want <==> Named(RunItems(runs), id) {
      RunsName(m, 0, id);
    }
    SetOf(RunItems(runs), want);
  }
}
