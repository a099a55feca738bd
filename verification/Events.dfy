/** What the event constructors are expected to produce, as functions of their inputs. */
module Events {
  import opened Outcomes
  import opened EventString
  import EventText
  import opened Guards
  import opened OrderedSets
  import CpuList
  import Numerals

  datatype Availability = Unavailable | SystemMode | ProcessMode | Universal

  type Verdicts = (Attr, Location) -> Verdict

  // ----- probing -----

  function Modes(process: bool, system: bool): Availability {
    if process then (if system then Universal else ProcessMode)
    else if system then SystemMode else Unavailable
  }

  /** What opening an event for the calling thread and on one CPU says about it. */
  function Probed(verdict: Verdicts, attr: Attr, cpu: int): Availability {
    Modes(verdict(attr, OnThread(0)).Opens?, verdict(attr, OnCpu(cpu)).Opens?)
  }

  /** The CPUs on which an event opens. */
  function OpenableOn(verdict: Verdicts, attr: Attr, online: set<int>): (r: set<int>)
    ensures r <= online
    ensures forall cpu :: cpu in r <==> cpu in online && verdict(attr, OnCpu(cpu)).Opens?
  {
    set cpu | cpu in online && verdict(attr, OnCpu(cpu)).Opens?
  }

  /** An event as its constructor leaves it, the fault it throws, or behaviour the language leaves open. */
  datatype Made = Event(attr: Attr, availability: Availability, cpus: set<int>) | Fails(fault: Fault) | Undefined

  /** Probe; if nothing opens, exclude the kernel and probe once more. */
  function Opened(verdict: Verdicts, attr: Attr, cpus: set<int>): Made {
    if cpus == {} then Undefined     // the first element of an empty set
    else
      var first := Probed(verdict, attr, Least(cpus));
      if first != Unavailable then Event(attr, first, cpus)
      else
        var restricted := attr.(excludeKernel := true);
        var second := Probed(verdict, restricted, Least(cpus));
        if second != Unavailable then Event(restricted, second, cpus) else Fails(InvalidEvent)
  }

  // ----- events from sysfs -----

  /** The files of one PMU, as the words read from them. */
  datatype PmuFiles = PmuFiles(kind: Option<nat>, event: Option<string>, cpus: Option<string>,
                               cpumask: Option<string>, formats: map<string, string>,
                               scale: Option<real>, unit: Option<string>)

  /** `std::optional::value_or` */
  function ValueOr<T>(file: Option<T>, default: T): T {
    if file.Some? then file.value else default
  }

  function ListedFile(file: Option<string>): CpuList.Listing {
    match file
    case None => CpuList.Listing({})
    case Some(text) => CpuList.Listed(text)
  }

  function ToCpus(ids: set<CpuList.Id>): set<int> {
    set id | id in ids :: CpuList.ToInt(id)
  }

  /** `cpus` if it names any CPU, else `cpumask`, else the CPUs on which the event opens before its
      configuration is known. */
  function CpusFor(verdict: Verdicts, files: PmuFiles, attr: Attr, online: set<int>): (r: (Ending, set<int>)) {
    match ListedFile(files.cpus)
    case Aborted(f) => (Raised(f), {})
    case NeverReturns => (Unforeseeable, {})
    case Listing(ids) =>
      if ids != {} then (Finished, ToCpus(ids))
      else
        match ListedFile(files.cpumask)
        case Aborted(f) => (Raised(f), {})
        case NeverReturns => (Unforeseeable, {})
        case Listing(mask) =>
          (Finished, if mask != {} then ToCpus(mask) else OpenableOn(verdict, attr, online))
  }

  function FromSysfs(verdict: Verdicts, files: PmuFiles, online: set<int>): Made {
    if files.kind.None? || files.event.None? then Fails(InvalidEvent)
    else
      var blank := Attr(files.kind.value, 0, 0, false);
      var (found, cpus) := CpusFor(verdict, files, blank, online);
      match found
      case Raised(f) => Fails(f)
      case Unforeseeable => Undefined
      case Finished =>
        var (words, ending) := EncodeText(Configuration(0, 0), files.event.value, files.formats);
        match ending
        case Raised(f) => Fails(f)
        case Unforeseeable => Undefined
        case Finished => Opened(verdict, Attr(files.kind.value, words.config, words.config1, false), cpus)
  }

  // ----- raw events -----

  const PERF_TYPE_RAW := 4

  /** An event whose CPUs are those on which it opens. */
  function SelfProbed(verdict: Verdicts, attr: Attr, online: set<int>): Made {
    Opened(verdict, attr, OpenableOn(verdict, attr, online))
  }

  function FromRaw(verdict: Verdicts, name: string, online: set<int>): Made {
    if name == "" then Fails(OutOfRange)        // substr(1) of an empty string
    else
      match Numerals.Stoull16(name[1..])
      case Threw(f) => Fails(f)
      case Ok(config) => SelfProbed(verdict, Attr(PERF_TYPE_RAW, config, 0, false), online)
  }

  // ----- what the constructors guarantee -----

  predicate IsFirst(cpus: set<int>, first: int) {
    first in cpus && forall cpu :: cpu in cpus ==> first <= cpu
  }

  predicate OpensSomewhere(verdict: Verdicts, attr: Attr, first: int) {
    verdict(attr, OnThread(0)).Opens? || verdict(attr, OnCpu(first)).Opens?
  }

  /** The availability is what opening for the calling thread and on the first CPU says. */
  predicate Says(verdict: Verdicts, attr: Attr, first: int, availability: Availability) {
    && (availability == Universal <==> verdict(attr, OnThread(0)).Opens? && verdict(attr, OnCpu(first)).Opens?)
    && (availability == ProcessMode <==> verdict(attr, OnThread(0)).Opens? && !verdict(attr, OnCpu(first)).Opens?)
    && (availability == SystemMode <==> !verdict(attr, OnThread(0)).Opens? && verdict(attr, OnCpu(first)).Opens?)
    && (availability == Unavailable <==> !verdict(attr, OnThread(0)).Opens? && !verdict(attr, OnCpu(first)).Opens?)
  }

  lemma ProbedSays(verdict: Verdicts, attr: Attr, first: int)
    ensures Says(verdict, attr, first, Probed(verdict, attr, first))
  {
  }

  /** What becomes of attributes that are probed, told by the verdicts: an event that opens for the thread or
      on the first CPU is kept as it is; one that opens only without the kernel is kept without it; one that
      opens in neither way is invalid. */
  ghost predicate Outcome(verdict: Verdicts, attr: Attr, cpus: set<int>, made: Made) {
    if cpus == {} then made.Undefined?
    else
      exists first :: IsFirst(cpus, first) &&
        var restricted := attr.(excludeKernel := true);
        if OpensSomewhere(verdict, attr, first) then
          made.Event? && made.attr == attr && made.cpus == cpus && Says(verdict, attr, first, made.availability)
        else if OpensSomewhere(verdict, restricted, first) then
          made.Event? && made.attr == restricted && made.cpus == cpus
          && Says(verdict, restricted, first, made.availability)
        else made == Fails(InvalidEvent)
  }

  /** Probing has exactly this outcome. */
  lemma OpenedMeaning(verdict: Verdicts, attr: Attr, cpus: set<int>, made: Made)
    ensures Outcome(verdict, attr, cpus, made) <==> made == Opened(verdict, attr, cpus)
  {
    if cpus != {} {
      var first := Least(cpus);
      assert IsFirst(cpus, first);
      assert forall other :: IsFirst(cpus, other) ==> other == first;
      ProbedSays(verdict, attr, first);
      ProbedSays(verdict, attr.(excludeKernel := true), first);
    }
  }

  /** An event whose CPUs are found by opening it never fails for lack of availability, never reaches the
      retry, and is never process-only: it is either constructed or left undefined, the latter exactly
      when it opens on no CPU at all. */
  lemma SelfProbedIsNeverRetried(verdict: Verdicts, attr: Attr, online: set<int>)
    ensures var made := SelfProbed(verdict, attr, online);
      && (made.Undefined? <==> forall cpu :: cpu in online ==> !verdict(attr, OnCpu(cpu)).Opens?)
      && (!made.Undefined? ==>
            && made.Event? && made.attr == attr
            && made.availability == (if verdict(attr, OnThread(0)).Opens? then Universal else SystemMode)
            && forall cpu :: cpu in made.cpus <==> cpu in online && verdict(attr, OnCpu(cpu)).Opens?)
  {
    var cpus := OpenableOn(verdict, attr, online);
    if cpus == {} {
      forall cpu | cpu in online ensures !verdict(attr, OnCpu(cpu)).Opens? {
        assert cpu !in cpus;
      }
    }
  }

  // ----- the CPUs of an event from sysfs -----

  /** The file is missing or lists nothing. */
  predicate NamesNothing(file: Option<string>) {
    file.None? || CpuList.Listed(file.value) == CpuList.Listing({})
  }

  /** The file lists ids, and `cpus` are these as ints. */
  ghost predicate Names(file: Option<string>, cpus: set<int>) {
    && file.Some? && CpuList.Listed(file.value).Listing? && CpuList.Listed(file.value).ids != {}
    && forall cpu :: cpu in cpus <==> exists id :: id in CpuList.Listed(file.value).ids && CpuList.ToInt(id) == cpu
  }

  /** The CPUs are those `cpus` lists, else those `cpumask` lists, else the online ones on which the event
      opens with a blank configuration. */
  ghost predicate CpusAre(verdict: Verdicts, files: PmuFiles, kind: nat, online: set<int>, cpus: set<int>) {
    || Names(files.cpus, cpus)
    || (NamesNothing(files.cpus) && Names(files.cpumask, cpus))
    || (NamesNothing(files.cpus) && NamesNothing(files.cpumask) &&
          forall cpu :: cpu in cpus <==> cpu in online && verdict(Attr(kind, 0, 0, false), OnCpu(cpu)).Opens?)
  }

  lemma NamesIds(file: Option<string>, cpus: set<int>)
    ensures Names(file, cpus) <==>
      ListedFile(file).Listing? && ListedFile(file).ids != {} && cpus == ToCpus(ListedFile(file).ids)
    ensures NamesNothing(file) <==> ListedFile(file) == CpuList.Listing({})
  {
    if file.Some? && CpuList.Listed(file.value).Listing? {
      var ids := CpuList.Listed(file.value).ids;
      assert forall cpu :: cpu in ToCpus(ids) <==> exists id :: id in ids && CpuList.ToInt(id) == cpu;
    }
  }

  /** The CPUs are found iff they are these. */
  lemma CpusFound(verdict: Verdicts, files: PmuFiles, kind: nat, online: set<int>, cpus: set<int>)
    ensures CpusAre(verdict, files, kind, online, cpus) <==>
      CpusFor(verdict, files, Attr(kind, 0, 0, false), online) == (Finished, cpus)
  {
    NamesIds(files.cpus, cpus);
    NamesIds(files.cpumask, cpus);
    var open := OpenableOn(verdict, Attr(kind, 0, 0, false), online);
    if forall cpu :: cpu in cpus <==> cpu in open {
      assert cpus == open;
    }
  }

  /** A missing type or event file comes first, then an exception of the `cpus` list, then of the `cpumask`
      list, then one of the terms. */
  lemma FirstFaultOfSysfs(verdict: Verdicts, files: PmuFiles, online: set<int>, cpus: set<int>)
    ensures var made := FromSysfs(verdict, files, online);
      if files.kind.None? || files.event.None? then made == Fails(InvalidEvent)
      else
        && (files.cpus.Some? && CpuList.Listed(files.cpus.value).Aborted? ==>
              made == Fails(CpuList.Listed(files.cpus.value).fault))
        && (NamesNothing(files.cpus) && files.cpumask.Some? && CpuList.Listed(files.cpumask.value).Aborted? ==>
              made == Fails(CpuList.Listed(files.cpumask.value).fault))
        && (CpusAre(verdict, files, files.kind.value, online, cpus) ==>
              var ending := EncodeText(Configuration(0, 0), files.event.value, files.formats).1;
              ending.Raised? ==> made == Fails(ending.fault))
  {
    if files.kind.Some? && files.event.Some? {
      NamesIds(files.cpus, {});
      CpusFound(verdict, files, files.kind.value, online, cpus);
    }
  }

  /** From text to a constructed event: the event file writes settings with disjoint masks, the format
      files denote those masks, and the CPUs are found. If every value is a long, the event is what becomes
      of attributes whose two words hold exactly the settings; otherwise the constructor throws. */
  lemma SysfsEventCarriesSettings(verdict: Verdicts, files: PmuFiles, online: set<int>, cpus: set<int>,
                                  settings: seq<EventText.Setting>) returns (words: Configuration)
    requires files.event == Some(EventText.EventTextOf(EventText.SettingTerms(settings))) && files.kind.Some?
    requires CpusAre(verdict, files, files.kind.value, online, cpus)
    requires EventText.AllProper(settings, files.formats)
    requires EventText.NoOverlap(settings)
    ensures var made := FromSysfs(verdict, files, online);
      if forall s :: s in settings ==> EventText.Fits(s.value) then
        && EventText.Holds(words, settings)
        && Outcome(verdict, Attr(files.kind.value, words.config, words.config1, false), cpus, made)
      else made == Fails(OutOfRange)
  {
    words := EncodeText(Configuration(0, 0), files.event.value, files.formats).0;
    EventText.TextToWordsAndBack(settings, files.formats);
    CpusFound(verdict, files, files.kind.value, online, cpus);
    var attr := Attr(files.kind.value, words.config, words.config1, false);
    OpenedMeaning(verdict, attr, cpus, FromSysfs(verdict, files, online));
  }

  /** The CPUs of an event are those its PMU's `cpus` file lists, or its `cpumask` file when `cpus` lists
      nothing: any non-empty set of int ids written as its runs arrives unchanged. */
  lemma SysfsEventHasListedCpus(verdict: Verdicts, files: PmuFiles, online: set<int>, ids: set<nat>, bound: nat)
    requires ids != {} && bound <= Numerals.INT_MAX + 1 && forall id :: id in ids ==> id < bound
    requires || files.cpus == Some(CpuList.ListText(ids, bound))
             || (NamesNothing(files.cpus) && files.cpumask == Some(CpuList.ListText(ids, bound)))
    ensures var made := FromSysfs(verdict, files, online);
      made.Event? ==> forall cpu :: cpu in made.cpus <==> cpu >= 0 && cpu in ids
  {
    ListedCpus(ids, bound);
    var made := FromSysfs(verdict, files, online);
    if made.Event? {
      var cpus := ToCpus(CpuList.Listed(CpuList.ListText(ids, bound)).ids);
      NamesIds(Some(CpuList.ListText(ids, bound)), cpus);
      CpusFound(verdict, files, files.kind.value, online, cpus);
      CpusOfEvent(verdict, files, online, cpus);
    }
  }

  lemma CpusOfEvent(verdict: Verdicts, files: PmuFiles, online: set<int>, cpus: set<int>)
    requires FromSysfs(verdict, files, online).Event?
    requires CpusFor(verdict, files, Attr(files.kind.value, 0, 0, false), online) == (Finished, cpus)
    ensures FromSysfs(verdict, files, online).cpus == cpus
  {
  }

  /** When neither file lists a CPU, the event's CPUs are the online ones on which it opens while its
      configuration is still blank. */
  lemma SysfsEventHasOpenableCpus(verdict: Verdicts, files: PmuFiles, online: set<int>)
    requires NamesNothing(files.cpus) && NamesNothing(files.cpumask)
    ensures var made := FromSysfs(verdict, files, online);
      made.Event? ==> forall cpu :: cpu in made.cpus <==>
        cpu in online && verdict(Attr(files.kind.value, 0, 0, false), OnCpu(cpu)).Opens?
  {
    var made := FromSysfs(verdict, files, online);
    if made.Event? {
      var cpus := OpenableOn(verdict, Attr(files.kind.value, 0, 0, false), online);
      NamesIds(files.cpus, cpus);
      NamesIds(files.cpumask, cpus);
      CpusOfEvent(verdict, files, online, cpus);
    }
  }

  lemma ListedCpus(ids: set<nat>, bound: nat)
    requires ids != {} && bound <= Numerals.INT_MAX + 1 && forall id :: id in ids ==> id < bound
    ensures var listing := CpuList.Listed(CpuList.ListText(ids, bound));
      && listing.Listing? && listing.ids != {}
      && forall cpu :: cpu in ToCpus(listing.ids) <==> cpu >= 0 && cpu in ids
  {
    CpuList.ListRoundTrip(ids, bound);
    var listed := CpuList.Listed(CpuList.ListText(ids, bound)).ids;
    var some :| some in ids;
    var same: CpuList.Id := some;
    assert same in listed;
    forall cpu ensures cpu in ToCpus(listed) <==> cpu >= 0 && cpu in ids {
      if cpu >= 0 && cpu in ids {
        var id: CpuList.Id := cpu;
        assert id in listed && CpuList.ToInt(id) == cpu;
      }
    }
  }

  // ----- raw names -----

  /** `r` and one to eight hexadecimal digits: the names that are taken for raw events. */
  predicate IsRawName(name: string) {
    && 2 <= |name| <= 9 && name[0] == 'r'
    && Numerals.AllDigits(name[1..], 16)
  }

  /** Reading a raw name never throws, and the number is what its digits denote. */
  lemma RawNameReads(name: string)
    requires IsRawName(name)
    ensures Numerals.Stoull16(name[1..]) == Ok(Numerals.Horner(name[1..], 16))
    ensures Numerals.Horner(name[1..], 16) < 0x1_0000_0000
  {
    var s := name[1..];
    Numerals.RunOfDigits(s, "", 16);
    assert s + "" == s && s[..|s|] == s;
    assert Numerals.DigitValue(s[0]) < 16;
    if |s| >= 2 {
      assert Numerals.DigitValue(s[1]) < 16;
    }
    assert Numerals.SkipSpace(s) == s;
    assert !Numerals.HasHexPrefix(s);
    assert Numerals.Numeral(s, 16) == Some(Numerals.Horner(s, 16));
    HornerBound(s);
    PowerSteps(|s|);
  }

  /** Resolving a raw name never throws: the event carries the number its digits denote and is available
      on the CPUs where it opens, or, when it opens on none, the behaviour is undefined. */
  lemma RawNamesNeverThrow(verdict: Verdicts, name: string, attr: Attr, online: set<int>)
    requires IsRawName(name)
    requires attr.kind == 4 && attr.config == Numerals.Horner(name[1..], 16) && attr.config1 == 0 && !attr.excludeKernel
    ensures var made := FromRaw(verdict, name, online);
      && !made.Fails?
      && (made.Undefined? <==> forall cpu :: cpu in online ==> !verdict(attr, OnCpu(cpu)).Opens?)
      && (made.Event? ==>
            && made.attr == attr
            && made.availability == (if verdict(attr, OnThread(0)).Opens? then Universal else SystemMode)
            && forall cpu :: cpu in made.cpus <==> cpu in online && verdict(attr, OnCpu(cpu)).Opens?)
  {
    RawNameReads(name);
    SelfProbedIsNeverRetried(verdict, attr, online);
  }

  /** The number of a raw name: any 32-bit number written in hexadecimal digits of either case. */
  lemma RawNumberArrives(verdict: Verdicts, n: nat, capital: bool, online: set<int>)
    requires n < 0x1_0000_0000
    ensures var name := "r" + Numerals.HexDigits(n, capital);
      IsRawName(name) && (FromRaw(verdict, name, online).Event? ==> FromRaw(verdict, name, online).attr.config == n)
  {
    var digits := Numerals.HexDigits(n, capital);
    Numerals.HexDigitsDenote(n, capital);
    HexLength(n, 8);
    assert ("r" + digits)[1..] == digits;
    RawNamesNeverThrow(verdict, "r" + digits, Attr(4, n, 0, false), online);
  }

  lemma {:induction false} HexLength(n: nat, length: nat)
    requires length > 0 && n < Power16(length)
    ensures |Numerals.Print(n, 16)| <= length
  {
    if n >= 16 {
      assert length >= 2;
      HexLength(n / 16, length - 1);
    }
  }

  /** Other raw texts: none at all is out of range, and one without a number after its first character is an
      invalid argument. */
  lemma RawFaults(verdict: Verdicts, first: char, rest: string, online: set<int>)
    requires rest == "" || (Numerals.DigitValue(rest[0]) == 16 && !Numerals.IsSpace(rest[0])
                            && rest[0] != '-' && rest[0] != '+')
    ensures FromRaw(verdict, "", online) == Fails(OutOfRange)
    ensures FromRaw(verdict, [first] + rest, online) == Fails(InvalidArgument)
  {
    Numerals.NoNumber("", "", rest);
    assert ([first] + rest)[1..] == rest == "" + ("" + rest);
  }

  function Power16(n: nat): nat {
    if n == 0 then 1 else 16 * Power16(n - 1)
  }

  lemma {:induction false} HornerBound(s: string)
    requires Numerals.AllDigits(s, 16)
    ensures Numerals.Horner(s, 16) < Power16(|s|)
  {
    if s != "" {
      HornerBound(s[..|s| - 1]);
    }
  }

  lemma PowerSteps(n: nat)
    requires n <= 8
    ensures Power16(n) <= 0x1_0000_0000
  {
    assert Power16(4) == 0x1_0000;
    assert Power16(8) == 0x1_0000_0000;
  }
}
