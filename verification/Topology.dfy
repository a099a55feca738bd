/** Which CPU belongs to which core and package, and which CPU measures for a core or package. */
module Topology {
  import opened Outcomes
  import opened CpuList
  import opened OrderedSets
  import opened Numerals

  /** One online CPU with the ids read for it. */
  datatype Row = Row(cpu: Id, core: Id, package: Id)

  /** The maps, keyed and ordered by the ids as ints. */
  datatype Tables = Tables(cpuToCore: map<int, int>, coreToPackage: map<int, int>, cpuToPackage: map<int, int>)

  /** `std::map::emplace`: an existing entry stays. */
  function Emplace(m: map<int, int>, key: int, value: int): map<int, int> {
    if key in m then m else m[key := value]
  }

  function Enter(t: Tables, row: Row): Tables {
    Tables(Emplace(t.cpuToCore, ToInt(row.cpu), ToInt(row.core)),
           Emplace(t.coreToPackage, ToInt(row.core), ToInt(row.package)),
           Emplace(t.cpuToPackage, ToInt(row.cpu), ToInt(row.package)))
  }

  function Build(rows: seq<Row>): Tables {
    if rows == [] then Tables(map[], map[], map[]) else Enter(Build(rows[..|rows| - 1]), rows[|rows| - 1])
  }

  /** The online CPUs come from an ordered set of unsigned numbers. */
  predicate Ordered(rows: seq<Row>) {
    forall i, j :: 0 <= i < j < |rows| ==> rows[i].cpu < rows[j].cpu
  }

  /** `std::map::at`; `None` is the exception for an unknown key. */
  function At(m: map<int, int>, key: int): Option<int> {
    if key in m then Some(m[key]) else None
  }

  /** `std::find_if` over a map in key order: the first key with the value, or the invalid id. */
  function FindIf(m: map<int, int>, value: int): int
    decreases |m|
  {
    if m == map[] then -1
    else
      var key := FirstKey(m);
      if m[key] == value then key else FindIf(m - {key}, value)
  }

  function FirstKey(m: map<int, int>): (k: int)
    requires m != map[]
    ensures k in m && forall x :: x in m ==> k <= x
    ensures |m - {k}| < |m|
  {
    NoKeysNoMap(m);
    var k := Least(m.Keys);
    assert (m - {k}).Keys == m.Keys - {k};
    k
  }

  lemma NoKeysNoMap(m: map<int, int>)
    ensures m.Keys == {} ==> m == map[]
  {
  }

  class Topology {
    var cpus: set<int>
    var cores: set<int>
    var packages: set<int>
    var cpuToCore: map<int, int>
    var coreToPackage: map<int, int>
    var cpuToPackage: map<int, int>

    ghost function View(): Tables
      reads this
    {
      Tables(cpuToCore, coreToPackage, cpuToPackage)
    }

    constructor ()
      ensures View() == Build([]) && cpus == cores == packages == {}
    {
      cpus, cores, packages := {}, {}, {};
      cpuToCore, coreToPackage, cpuToPackage := map[], map[], map[];
    }

    /** The known ids are those that occur in the rows. */
    ghost predicate Knows(rows: seq<Row>)
      reads this
    {
      && cpus == cpuToCore.Keys == cpuToPackage.Keys && cores == coreToPackage.Keys
      && forall p :: p in packages <==> exists row :: row in rows && ToInt(row.package) == p
    }

    /** The loop of `read_proc`, on the rows read from sysfs. */
    method ReadProc(rows: seq<Row>)
      requires View() == Build([]) && cpus == cores == packages == {}
      modifies this
      ensures View() == Build(rows) && Knows(rows)
    {
      for k := 0 to |rows|
        invariant View() == Build(rows[..k]) && Knows(rows[..k])
      {
        assert rows[..k + 1] == rows[..k] + [rows[k]];
        BuildStep(rows[..k + 1]);
        EnterRow(rows[..k], rows[k]);
      }
      assert rows[..|rows|] == rows;
    }

    /** One turn of the loop. */
    method EnterRow(ghost before: seq<Row>, row: Row)
      requires Knows(before)
      modifies this
      ensures View() == Enter(old(View()), row) && Knows(before + [row])
    {
      var cpu, core, package := ToInt(row.cpu), ToInt(row.core), ToInt(row.package);
      assert forall r :: r in before + [row] <==> r in before || r == row;
      cpus := cpus + {cpu};
      cores := cores + {core};
      packages := packages + {package};
      cpuToCore := Emplace(cpuToCore, cpu, core);
      coreToPackage := Emplace(coreToPackage, core, package);
      cpuToPackage := Emplace(cpuToPackage, cpu, package);
    }

    function CoreOf(cpu: int): Option<int>
      reads this
    {
      At(cpuToCore, cpu)
    }

    function PackageOfCpu(cpu: int): Option<int>
      reads this
    {
      At(cpuToPackage, cpu)
    }

    function PackageOfCore(core: int): Option<int>
      reads this
    {
      At(coreToPackage, core)
    }

    function MeasuringCpuForCore(core: int): int
      reads this
    {
      FindIf(cpuToCore, core)
    }

    function MeasuringCpuForPackage(package: int): int
      reads this
    {
      FindIf(cpuToPackage, package)
    }

    /** On a topology read from rows, the lookups for a known core agree. */
    lemma CoreLookupsAgree(rows: seq<Row>, core: int)
      requires View() == Build(rows) && Ordered(rows) && KeepsOrder(rows) && PackageOfCore(core).Some?
      ensures PackageOfCore(core) == PackageOfCpu(MeasuringCpuForCore(core))
      ensures CoreOf(MeasuringCpuForCore(core)) == Some(core)
    {
      CoresAgree(rows, core);
    }

    /** The lookups of a row's CPU, and of a core by its first row. */
    lemma LookupsOfRow(rows: seq<Row>, k: nat)
      requires View() == Build(rows) && Ordered(rows) && k < |rows|
      ensures CoreOf(ToInt(rows[k].cpu)) == Some(ToInt(rows[k].core))
      ensures PackageOfCpu(ToInt(rows[k].cpu)) == Some(ToInt(rows[k].package))
      ensures FirstOfCore(rows, k) ==> PackageOfCore(ToInt(rows[k].core)) == Some(ToInt(rows[k].package))
    {
      CpuEntered(rows, k);
      if FirstOfCore(rows, k) {
        FirstRowDecides(rows, k);
      }
    }

    /** The CPU that measures for a core is the smallest of the core's CPUs, as ints; without a row of the core
        it is -1. */
    lemma MeasuresForCore(rows: seq<Row>, core: int)
      requires View() == Build(rows) && Ordered(rows)
      ensures if exists k :: 0 <= k < |rows| && ToInt(rows[k].core) == core
        then SmallestCpu(rows, (row: Row) => ToInt(row.core) == core, MeasuringCpuForCore(core))
        else MeasuringCpuForCore(core) == -1
    {
      SearchedCore(rows, core);
    }

    /** The same for a package. */
    lemma MeasuresForPackage(rows: seq<Row>, package: int)
      requires View() == Build(rows) && Ordered(rows)
      ensures if exists k :: 0 <= k < |rows| && ToInt(rows[k].package) == package
        then SmallestCpu(rows, (row: Row) => ToInt(row.package) == package, MeasuringCpuForPackage(package))
        else MeasuringCpuForPackage(package) == -1
    {
      SearchedPackage(rows, package);
    }

    /** Ids that no row has are unknown to the lookups. */
    lemma UnknownIds(rows: seq<Row>, id: int)
      requires View() == Build(rows)
      ensures (forall k :: 0 <= k < |rows| ==> ToInt(rows[k].cpu) != id) ==> CoreOf(id) == PackageOfCpu(id) == None
      ensures (forall k :: 0 <= k < |rows| ==> ToInt(rows[k].core) != id) ==> PackageOfCore(id) == None
    {
      if CoreOf(id).Some? || PackageOfCpu(id).Some? {
        var k := KnownCpu(rows, id);
      }
      if PackageOfCore(id).Some? {
        var k := KnownCore(rows, id);
      }
    }

    /** The CPU that measures for a package of some row lies in that package. */
    lemma PackageLookupsAgree(rows: seq<Row>, k: nat)
      requires View() == Build(rows) && Ordered(rows) && k < |rows|
      ensures PackageOfCpu(MeasuringCpuForPackage(ToInt(rows[k].package))) == Some(ToInt(rows[k].package))
    {
      PackageMeasuredInside(rows, k);
    }
  }

  // ----- what searching and building mean -----

  /** The search returns the smallest key with the value, if there is any. */
  lemma {:induction false} FindIfIsLeast(m: map<int, int>, value: int)
    ensures (exists k :: k in m && m[k] == value) ==>
      var r := FindIf(m, value); r in m && m[r] == value && forall k :: k in m && m[k] == value ==> r <= k
    ensures (forall k :: k in m ==> m[k] != value) ==> FindIf(m, value) == -1
    decreases |m|
  {
    if m != map[] {
      var key := FirstKey(m);
      if m[key] != value {
        var rest := m - {key};
        FindIfIsLeast(rest, value);
        assert forall k :: k in m && m[k] == value <==> k in rest && rest[k] == value;
      }
    }
  }

  lemma ToIntInjective(a: Id, b: Id)
    ensures ToInt(a) == ToInt(b) <==> a == b
  {
  }

  /** Row `k` is the first of its core. */
  predicate FirstOfCore(rows: seq<Row>, k: nat) {
    k < |rows| && forall j :: 0 <= j < k ==> rows[j].core != rows[k].core
  }

  predicate Entered(t: Tables, row: Row) {
    && At(t.cpuToCore, ToInt(row.cpu)) == Some(ToInt(row.core))
    && At(t.cpuToPackage, ToInt(row.cpu)) == Some(ToInt(row.package))
    && ToInt(row.core) in t.coreToPackage
  }

  lemma BuildStep(rows: seq<Row>)
    requires rows != []
    ensures Build(rows) == Enter(Build(rows[..|rows| - 1]), rows[|rows| - 1])
  {
  }

  /** A known CPU is that of some row. */
  lemma {:induction false} KnownCpu(rows: seq<Row>, cpu: int) returns (k: nat)
    requires cpu in Build(rows).cpuToCore || cpu in Build(rows).cpuToPackage
    ensures k < |rows| && ToInt(rows[k].cpu) == cpu
    decreases |rows|
  {
    var n := |rows| - 1;
    BuildStep(rows);
    if ToInt(rows[n].cpu) == cpu {
      k := n;
    } else {
      k := KnownCpu(rows[..n], cpu);
    }
  }

  /** Every CPU has the core and the package of its row. */
  lemma {:induction false} CpuEntered(rows: seq<Row>, k: nat)
    requires Ordered(rows) && k < |rows|
    ensures Entered(Build(rows), rows[k])
    decreases |rows|
  {
    var n := |rows| - 1;
    var before := Build(rows[..n]);
    BuildStep(rows);
    if k < n {
      CpuEntered(rows[..n], k);
    } else if ToInt(rows[n].cpu) in before.cpuToCore || ToInt(rows[n].cpu) in before.cpuToPackage {
      var j := KnownCpu(rows[..n], ToInt(rows[n].cpu));
      ToIntInjective(rows[j].cpu, rows[n].cpu);
    }
  }

  /** A known core is that of a first row, and its package is that row's. */
  lemma {:induction false} KnownCore(rows: seq<Row>, core: int) returns (k: nat)
    requires core in Build(rows).coreToPackage
    ensures FirstOfCore(rows, k) && ToInt(rows[k].core) == core
    ensures Build(rows).coreToPackage[core] == ToInt(rows[k].package)
    decreases |rows|
  {
    var n := |rows| - 1;
    var init := rows[..n];
    BuildStep(rows);
    if core in Build(init).coreToPackage {
      k := KnownCore(init, core);
      assert rows[k] == init[k];
    } else {
      k := n;
      forall j | 0 <= j < n ensures rows[j].core != rows[n].core {
        CoreEntered(init, j);
      }
    }
  }

  lemma {:induction false} CoreEntered(rows: seq<Row>, k: nat)
    requires k < |rows|
    ensures ToInt(rows[k].core) in Build(rows).coreToPackage
    decreases |rows|
  {
    var n := |rows| - 1;
    BuildStep(rows);
    if k < n {
      CoreEntered(rows[..n], k);
    }
  }

  /** A core has the package of its first row. */
  lemma FirstRowDecides(rows: seq<Row>, k: nat)
    requires FirstOfCore(rows, k)
    ensures At(Build(rows).coreToPackage, ToInt(rows[k].core)) == Some(ToInt(rows[k].package))
  {
    CoreEntered(rows, k);
    var j := KnownCore(rows, ToInt(rows[k].core));
    ToIntInjective(rows[j].core, rows[k].core);
    assert !(j < k) && !(k < j);
  }

  /** `cpu` is that of some of the rows, and no other of these has a smaller one. */
  ghost predicate SmallestCpu(rows: seq<Row>, among: Row -> bool, cpu: int) {
    && (exists k :: 0 <= k < |rows| && among(rows[k]) && ToInt(rows[k].cpu) == cpu)
    && forall k :: 0 <= k < |rows| && among(rows[k]) ==> cpu <= ToInt(rows[k].cpu)
  }

  lemma SearchedCore(rows: seq<Row>, core: int)
    requires Ordered(rows)
    ensures var m := Build(rows).cpuToCore;
      if exists k :: 0 <= k < |rows| && ToInt(rows[k].core) == core
        then SmallestCpu(rows, (row: Row) => ToInt(row.core) == core, FindIf(m, core))
        else FindIf(m, core) == -1
  {
    var m := Build(rows).cpuToCore;
    FindIfIsLeast(m, core);
    forall k | 0 <= k < |rows| ensures ToInt(rows[k].cpu) in m && m[ToInt(rows[k].cpu)] == ToInt(rows[k].core) {
      CpuEntered(rows, k);
    }
    forall cpu | cpu in m ensures exists k :: 0 <= k < |rows| && ToInt(rows[k].cpu) == cpu {
      var k := KnownCpu(rows, cpu);
    }
  }

  lemma SearchedPackage(rows: seq<Row>, package: int)
    requires Ordered(rows)
    ensures var m := Build(rows).cpuToPackage;
      if exists k :: 0 <= k < |rows| && ToInt(rows[k].package) == package
        then SmallestCpu(rows, (row: Row) => ToInt(row.package) == package, FindIf(m, package))
        else FindIf(m, package) == -1
  {
    var m := Build(rows).cpuToPackage;
    FindIfIsLeast(m, package);
    forall k | 0 <= k < |rows| ensures ToInt(rows[k].cpu) in m && m[ToInt(rows[k].cpu)] == ToInt(rows[k].package) {
      CpuEntered(rows, k);
    }
    forall cpu | cpu in m ensures exists k :: 0 <= k < |rows| && ToInt(rows[k].cpu) == cpu {
      var k := KnownCpu(rows, cpu);
    }
  }

  // ----- agreement -----

  /** The package of a core is the package of the CPU that measures for it. */
  predicate CoreAgrees(t: Tables, core: int) {
    At(t.coreToPackage, core) == At(t.cpuToPackage, FindIf(t.cpuToCore, core))
  }

  /** The ids keep their order as ints: all below 2^31, or none. */
  predicate KeepsOrder(rows: seq<Row>) {
    || (forall k :: 0 <= k < |rows| ==> rows[k].cpu < 0x8000_0000)
    || (forall k :: 0 <= k < |rows| ==> rows[k].cpu >= 0x8000_0000)
  }

  /** The search for a core's CPU ends at a row of that core, and no row of that core has a smaller CPU. */
  lemma SearchedRow(rows: seq<Row>, k: nat) returns (j: nat)
    requires Ordered(rows) && k < |rows|
    ensures j < |rows| && rows[j].core == rows[k].core
    ensures FindIf(Build(rows).cpuToCore, ToInt(rows[k].core)) == ToInt(rows[j].cpu) <= ToInt(rows[k].cpu)
  {
    var m, core := Build(rows).cpuToCore, ToInt(rows[k].core);
    CpuEntered(rows, k);
    FindIfIsLeast(m, core);
    assert ToInt(rows[k].cpu) in m && m[ToInt(rows[k].cpu)] == core;
    j := KnownCpu(rows, FindIf(m, core));
    CpuEntered(rows, j);
    ToIntInjective(rows[j].core, rows[k].core);
  }

  lemma OrderKept(rows: seq<Row>, k: nat, j: nat)
    requires Ordered(rows) && KeepsOrder(rows) && k < j < |rows|
    ensures ToInt(rows[k].cpu) < ToInt(rows[j].cpu)
  {
    assert rows[k].cpu < rows[j].cpu;
  }

  /** The CPU found for a core is that of the core's first row. */
  lemma MeasuringCpuIsFirst(rows: seq<Row>, k: nat)
    requires Ordered(rows) && KeepsOrder(rows) && FirstOfCore(rows, k)
    ensures FindIf(Build(rows).cpuToCore, ToInt(rows[k].core)) == ToInt(rows[k].cpu)
  {
    var j := SearchedRow(rows, k);
    if k < j {
      OrderKept(rows, k, j);
    }
  }

  /** First-wins insertion and first-match search pick the same CPU, so they agree on every known core. */
  lemma CoresAgree(rows: seq<Row>, core: int)
    requires Ordered(rows) && KeepsOrder(rows) && core in Build(rows).coreToPackage
    ensures CoreAgrees(Build(rows), core)
    ensures At(Build(rows).cpuToCore, FindIf(Build(rows).cpuToCore, core)) == Some(core)
  {
    var k := KnownCore(rows, core);
    MeasuringCpuIsFirst(rows, k);
    CpuEntered(rows, k);
  }

  /** The online ids of the rows. */
  function CpuIds(rows: seq<Row>): (ids: seq<Id>)
    ensures |ids| == |rows|
    ensures forall k :: 0 <= k < |rows| ==> ids[k] == rows[k].cpu
  {
    seq(|rows|, k requires 0 <= k < |rows| => rows[k].cpu)
  }

  /** Whatever cores and packages the CPUs have, the lookups agree iff the ids keep their order as ints:
      an id of 2^31 or more becomes negative, is searched first, and was inserted last. */
  lemma AgreementIffOrderKept(sample: seq<Row>)
    requires Ordered(sample)
    ensures (forall rows: seq<Row>, core :: CpuIds(rows) == CpuIds(sample) && core in Build(rows).coreToPackage ==>
               CoreAgrees(Build(rows), core))
        <==> KeepsOrder(sample)
  {
    if KeepsOrder(sample) {
      forall rows: seq<Row>, core | CpuIds(rows) == CpuIds(sample) && core in Build(rows).coreToPackage
        ensures CoreAgrees(Build(rows), core)
      {
        assert forall k :: 0 <= k < |rows| ==> rows[k].cpu == CpuIds(rows)[k] == sample[k].cpu;
        CoresAgree(rows, core);
      }
    } else {
      var rows := Split(sample);
      SplitDisagrees(sample);
      assert CpuIds(rows) == CpuIds(sample);
    }
  }

  /** The same CPUs, all of core 0, in two packages: one for ids below 2^31, one for the others. */
  function Split(rows: seq<Row>): (r: seq<Row>)
    ensures |r| == |rows|
    ensures forall k :: 0 <= k < |rows| ==> r[k] == Row(rows[k].cpu, 0, if rows[k].cpu < 0x8000_0000 then 0 else 1)
  {
    seq(|rows|, k requires 0 <= k < |rows| => Row(rows[k].cpu, 0, if rows[k].cpu < 0x8000_0000 then 0 else 1))
  }

  lemma SplitDisagrees(rows: seq<Row>)
    requires Ordered(rows) && !KeepsOrder(rows)
    ensures 0 in Build(Split(rows)).coreToPackage && !CoreAgrees(Build(Split(rows)), 0)
  {
    var split := Split(rows);
    var low :| 0 <= low < |rows| && rows[low].cpu < 0x8000_0000;
    var high :| 0 <= high < |rows| && rows[high].cpu >= 0x8000_0000;
    assert rows[0].cpu <= rows[low].cpu;
    assert FirstOfCore(split, 0);
    FirstRowDecides(split, 0);
    var j := SearchedRow(split, high);
    assert rows[j].cpu >= 0x8000_0000;
    CpuEntered(split, j);
  }

  // ----- agreement on the list text -----

  /** The rows are those of the ids that `parse_list` finds in the text, in the order of the set it returns. */
  ghost predicate ReadFrom(list: string, rows: seq<Row>) {
    && Listed(list).Listing? && Ordered(rows)
    && forall id: Id :: id in Listed(list).ids <==> HasCpu(rows, id)
  }

  ghost predicate HasCpu(rows: seq<Row>, id: Id) {
    exists k :: 0 <= k < |rows| && rows[k].cpu == id
  }

  /** Whatever cores and packages the listed CPUs have, the lookups agree on every known core. */
  ghost predicate AlwaysAgrees(list: string) {
    forall rows: seq<Row>, core :: ReadFrom(list, rows) && core in Build(rows).coreToPackage ==>
      CoreAgrees(Build(rows), core)
  }

  lemma {:induction false} SomeRows(ids: set<Id>, n: nat) returns (rows: seq<Row>)
    requires n <= U32
    ensures Ordered(rows) && forall k :: 0 <= k < |rows| ==> rows[k].cpu < n
    ensures forall id: Id :: HasCpu(rows, id) <==> id in ids && id < n
  {
    rows := [];
    if n > 0 {
      var before := SomeRows(ids, n - 1);
      var last: Id := n - 1;
      rows := before;
      if last in ids {
        rows := before + [Row(last, 0, 0)];
        assert forall k :: 0 <= k < |before| ==> rows[k] == before[k];
        assert rows[|before|].cpu == last;
      }
      forall id: Id ensures HasCpu(rows, id) <==> id in ids && id < n {
        assert HasCpu(before, id) ==> HasCpu(rows, id);
      }
    }
  }

  /** On the text of the list: the lookups agree, whatever cores and packages its CPUs have, iff no range has
      a negative end. Such a range reaches from an int to ids that become negative. */
  lemma AgreementOnText(list: string)
    requires Listed(list).Listing?
    ensures AlwaysAgrees(list) <==> forall k :: 0 <= k < |Parts(list)| ==> !EndsNegative(Parts(list)[k])
  {
    LargeIdsOnText(list);
    if exists id :: id in Listed(list).ids && id > INT_MAX {
      var sample := SomeRows(Listed(list).ids, U32);
      assert HasCpu(sample, INT_MAX) && HasCpu(sample, INT_MAX + 1);
      SplitDisagrees(sample);
      SplitReads(list, sample);
    } else {
      forall rows: seq<Row>, core | ReadFrom(list, rows) && core in Build(rows).coreToPackage
        ensures CoreAgrees(Build(rows), core)
      {
        assert forall k :: 0 <= k < |rows| ==> HasCpu(rows, rows[k].cpu);
        CoresAgree(rows, core);
      }
    }
  }

  lemma SplitReads(list: string, rows: seq<Row>)
    requires ReadFrom(list, rows)
    ensures ReadFrom(list, Split(rows))
  {
    forall id: Id ensures HasCpu(rows, id) <==> HasCpu(Split(rows), id) {
      if k :| 0 <= k < |rows| && rows[k].cpu == id {
        assert Split(rows)[k].cpu == id;
      }
    }
  }

  /** The CPUs of any set of ids below 2^31, written as their runs, get lookups that agree. */
  lemma PrintedListAgrees(ids: set<nat>, bound: nat, rows: seq<Row>, core: int)
    requires bound <= INT_MAX + 1 && forall id :: id in ids ==> id < bound
    requires ReadFrom(ListText(ids, bound), rows) && core in Build(rows).coreToPackage
    ensures forall id: Id :: HasCpu(rows, id) <==> id in ids
    ensures CoreAgrees(Build(rows), core)
    ensures At(Build(rows).cpuToCore, FindIf(Build(rows).cpuToCore, core)) == Some(core)
  {
    ListRoundTrip(ids, bound);
    assert forall k :: 0 <= k < |rows| ==> HasCpu(rows, rows[k].cpu);
    CoresAgree(rows, core);
  }

  /** A list on which they do not: it names two CPUs, which may belong to one core id in two packages. */
  lemma LargeRangeDisagrees(list: string, rows: seq<Row>)
    requires list == "2147483647--2147483648"
    requires rows == [Row(0x7fff_ffff, 0, 0), Row(0x8000_0000, 0, 1)]
    ensures ReadFrom(list, rows) && 0 in Build(rows).coreToPackage && !CoreAgrees(Build(rows), 0)
  {
    LargeRange(list);
    assert rows[0].cpu == 0x7fff_ffff && rows[1].cpu == 0x8000_0000;
    assert Split(rows) == rows;
    SplitDisagrees(rows);
  }

  /** Rows of the same core are in the same package. */
  predicate Unambiguous(rows: seq<Row>) {
    forall i, j :: 0 <= i < |rows| && 0 <= j < |rows| && rows[i].core == rows[j].core ==>
      rows[i].package == rows[j].package
  }

  predicate CpuAgrees(t: Tables, cpu: int)
    requires cpu in t.cpuToCore
  {
    At(t.coreToPackage, t.cpuToCore[cpu]) == At(t.cpuToPackage, cpu)
  }

  /** A CPU's package through its core is its own iff its core's first row has the same package. */
  lemma CpuAgreesWithFirst(rows: seq<Row>, k: nat, f: nat)
    requires Ordered(rows) && k < |rows| && FirstOfCore(rows, f) && rows[f].core == rows[k].core
    ensures ToInt(rows[k].cpu) in Build(rows).cpuToCore
    ensures CpuAgrees(Build(rows), ToInt(rows[k].cpu)) <==> rows[f].package == rows[k].package
  {
    CpuEntered(rows, k);
    FirstRowDecides(rows, f);
    ToIntInjective(rows[f].package, rows[k].package);
  }

  /** Going from a CPU to its package through its core is the same as going directly, for all CPUs, iff no
      core id appears with two packages. */
  lemma DirectIffUnambiguous(rows: seq<Row>)
    requires Ordered(rows)
    ensures (forall cpu :: cpu in Build(rows).cpuToCore ==> CpuAgrees(Build(rows), cpu)) <==> Unambiguous(rows)
  {
    var t := Build(rows);
    if Unambiguous(rows) {
      forall cpu | cpu in t.cpuToCore ensures CpuAgrees(t, cpu) {
        var k := KnownCpu(rows, cpu);
        var f := FirstRow(rows, k);
        CpuAgreesWithFirst(rows, k, f);
      }
    } else {
      var i, j :| 0 <= i < |rows| && 0 <= j < |rows| &&
        rows[i].core == rows[j].core && rows[i].package != rows[j].package;
      var f := FirstRow(rows, i);
      CpuAgreesWithFirst(rows, i, f);
      CpuAgreesWithFirst(rows, j, f);
    }
  }

  /** The first row of the core of row `k`. */
  lemma {:induction false} FirstRow(rows: seq<Row>, k: nat) returns (f: nat)
    requires k < |rows|
    ensures f <= k && FirstOfCore(rows, f) && rows[f].core == rows[k].core
    decreases k
  {
    if j: nat :| j < k && rows[j].core == rows[k].core {
      f := FirstRow(rows, j);
    } else {
      f := k;
    }
  }

  /** The CPU that measures for a known package lies in it. */
  lemma PackageMeasuredInside(rows: seq<Row>, k: nat)
    requires Ordered(rows) && k < |rows|
    ensures var m, package := Build(rows).cpuToPackage, ToInt(rows[k].package);
      At(m, FindIf(m, package)) == Some(package)
  {
    CpuEntered(rows, k);
    FindIfIsLeast(Build(rows).cpuToPackage, ToInt(rows[k].package));
  }
}
