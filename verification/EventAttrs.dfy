/** The event attributes object: encoding its configuration words, probing on which CPUs and in which
    modes it opens, and the constructors that combine the two. */
module EventAttrs {
  import opened Outcomes
  import opened Words
  import opened Deposit
  import Bitmask
  import opened EventString
  import opened Guards
  import opened Events
  import opened OrderedSets
  import CpuList
  import Numerals

  /** All that probing leaves behind in the kernel are the descriptors it lost, and it opens nothing in a
      group. */
  twostate predicate OnlyLost(kernel: Kernel)
    reads kernel
  {
    && old(kernel.lost) <= kernel.lost <= kernel.open
    && kernel.open == old(kernel.open) + (kernel.lost - old(kernel.lost))
    && old(kernel.trace) <= kernel.trace
    && forall k :: |old(kernel.trace)| <= k < |kernel.trace| && kernel.trace[k].Opened? ==> kernel.trace[k].group == -1
  }

  /** How many descriptors an attempt to open an event loses. */
  function Lost(verdict: Verdicts, attr: Attr, location: Location): nat {
    if verdict(attr, location).Fumbles? then 1 else 0
  }

  function LostProbing(verdict: Verdicts, attr: Attr, cpu: int): nat {
    Lost(verdict, attr, OnThread(0)) + Lost(verdict, attr, OnCpu(cpu))
  }

  /** Probing once, and once more without the kernel if nothing opened. */
  function LostOpening(verdict: Verdicts, attr: Attr, cpu: int): nat {
    LostProbing(verdict, attr, cpu) +
    if Probed(verdict, attr, cpu) != Unavailable then 0
    else LostProbing(verdict, attr.(excludeKernel := true), cpu)
  }

  /** The CPUs on which opening an event loses a descriptor. */
  function FumblingOn(verdict: Verdicts, attr: Attr, online: set<int>): set<int> {
    set cpu | cpu in online && verdict(attr, OnCpu(cpu)).Fumbles?
  }

  lemma OneMoreFumbling(verdict: Verdicts, attr: Attr, online: set<int>, cpu: int)
    requires cpu !in online
    ensures |FumblingOn(verdict, attr, online + {cpu})| ==
      |FumblingOn(verdict, attr, online)| + Lost(verdict, attr, OnCpu(cpu))
  {
    var before, after := FumblingOn(verdict, attr, online), FumblingOn(verdict, attr, online + {cpu});
    assert after == if verdict(attr, OnCpu(cpu)).Fumbles? then before + {cpu} else before;
  }

  class EventAttr {
    var attr: Attr
    var scale: real
    var unit: string
    var name: string
    var availability: Availability
    var cpus: set<int>

    constructor (name: string, attr: Attr)
      ensures this.name == name && this.attr == attr && availability == Unavailable && cpus == {}
      ensures scale == 1.0 && unit == "#"
    {
      this.name, this.attr, availability, cpus := name, attr, Unavailable, {};
      scale, unit := 1.0, "#";
    }

    // ----- encoding -----

    /** `event_attr_update` */
    method EventAttrUpdate(value: Word, format: string) returns (fault: Option<Fault>)
      requires !FormatOf(format).Unreadable?
      modifies this`attr
      ensures FormatOf(format).Malformed? ==> fault == Some(FormatOf(format).fault) && attr == old(attr)
      ensures FormatOf(format).Format? ==> fault == None
      ensures FormatOf(format).Format? && FormatOf(format).target == Config ==>
        attr == old(attr).(config := BitOr(old(attr.config), Deposited(value, FormatOf(format).mask)))
      ensures FormatOf(format).Format? && FormatOf(format).target == Config1 ==>
        attr == old(attr).(config1 := BitOr(old(attr.config1), Deposited(value, FormatOf(format).mask)))
      ensures FormatOf(format).Format? && FormatOf(format).target == Ignored ==> attr == old(attr)
    {
      var colon := Colon(format);
      if colon == |format| {
        return Some(InvalidEvent);
      }
      var targetConfig := format[..colon];
      var parsed := Bitmask.ParseBitmask(format[colon + 1..]);
      if parsed.Threw? {
        return Some(parsed.fault);
      }
      var mask := parsed.value;
      SameBits(mask, FromBits(BitsOf(mask)));
      if targetConfig == "config" {
        var deposit := ApplyMask(value, mask);
        attr := attr.(config := BitOr(attr.config, deposit));
      }
      if targetConfig == "config1" {
        var deposit := ApplyMask(value, mask);
        attr := attr.(config1 := BitOr(attr.config1, deposit));
      }
      return None;
    }

    /** The search-and-suffix loop over an event description. */
    method EncodeTerms(description: string, formats: map<string, string>) returns (fault: Option<Fault>)
      requires !EncodeText(Configuration(attr.config, attr.config1), description, formats).1.Unforeseeable?
      modifies this`attr
      ensures var (words, ending) :=
          EncodeText(Configuration(old(attr.config), old(attr.config1)), description, formats);
        && attr == old(attr).(config := words.config, config1 := words.config1)
        && fault == if ending.Raised? then Some(ending.fault) else None
    {
      var text := description;
      var found := NextPair(text);
      ghost var goal := EncodeText(Configuration(attr.config, attr.config1), description, formats);
      while found.Some?
        invariant found == NextPair(text)
        invariant EncodeText(Configuration(attr.config, attr.config1), text, formats) == goal
        invariant attr == old(attr).(config := attr.config, config1 := attr.config1)
        decreases |text|
      {
        EncodeTurn(Configuration(attr.config, attr.config1), text, formats);
        var (pair, suffix) := found.value;
        if pair.term !in formats {
          return Some(InvalidEvent);
        }
        var value := Numerals.Stol(pair.value);
        if value.Threw? {
          return Some(value.fault);
        }
        var failed := EventAttrUpdate(ToWord(value.value), formats[pair.term]);
        if failed.Some? {
          return failed;
        }
        text := suffix;
        found := NextPair(text);
      }
      return None;
    }

    // ----- probing -----

    /** One `try` block around opening an event: the guard, if any, is destroyed at its end. */
    static method TryOpen(kernel: Kernel, attr: Attr, location: Location) returns (opens: bool)
      requires kernel.lost <= kernel.open
      modifies kernel
      ensures opens == kernel.verdict(attr, location).Opens?
      ensures OnlyLost(kernel)
      ensures |kernel.lost| == |old(kernel.lost)| + Lost(kernel.verdict, attr, location)
      ensures !kernel.verdict(attr, location).Fumbles? ==>
        kernel.open == old(kernel.open) && kernel.lost == old(kernel.lost)
    {
      var guard, fd := EventGuard.Construct(kernel, attr, location, -1);
      opens := false;
      if guard.Some? {
        opens := guard.value.fd != -1;
        guard.value.Destroy(kernel);
      }
    }

    /** `get_cpu_set_for` */
    static method GetCpuSetFor(kernel: Kernel, attr: Attr, online: set<int>) returns (cpus: set<int>)
      requires kernel.lost <= kernel.open
      modifies kernel
      ensures cpus == OpenableOn(kernel.verdict, attr, online)
      ensures OnlyLost(kernel)
      ensures |kernel.lost| == |old(kernel.lost)| + |FumblingOn(kernel.verdict, attr, online)|
      ensures (forall cpu :: cpu in online ==> !kernel.verdict(attr, OnCpu(cpu)).Fumbles?) ==>
        kernel.open == old(kernel.open) && kernel.lost == old(kernel.lost)
    {
      cpus := {};
      var rest := online;
      while rest != {}
        invariant rest <= online
        invariant cpus == OpenableOn(kernel.verdict, attr, online - rest)
        invariant OnlyLost(kernel)
        invariant |kernel.lost| == |old(kernel.lost)| + |FumblingOn(kernel.verdict, attr, online - rest)|
        invariant (forall cpu :: cpu in online ==> !kernel.verdict(attr, OnCpu(cpu)).Fumbles?) ==>
          kernel.open == old(kernel.open) && kernel.lost == old(kernel.lost)
        decreases rest
      {
        var cpu := Least(rest);
        var opens := TryOpen(kernel, attr, OnCpu(cpu));
        if opens {
          cpus := cpus + {cpu};
        }
        OneMoreFumbling(kernel.verdict, attr, online - rest, cpu);
        assert online - rest + {cpu} == online - (rest - {cpu});
        rest := rest - {cpu};
      }
      assert online - rest == online;
    }

    /** `update_availability` */
    method UpdateAvailability(kernel: Kernel)
      requires cpus != {} && kernel.lost <= kernel.open
      modifies this`availability, kernel
      ensures availability == Probed(kernel.verdict, attr, Least(cpus))
      ensures Says(kernel.verdict, attr, Least(cpus), availability)
      ensures OnlyLost(kernel)
      ensures |kernel.lost| == |old(kernel.lost)| + LostProbing(kernel.verdict, attr, Least(cpus))
      ensures !kernel.verdict(attr, OnThread(0)).Fumbles? && !kernel.verdict(attr, OnCpu(Least(cpus))).Fumbles? ==>
        kernel.open == old(kernel.open) && kernel.lost == old(kernel.lost)
    {
      var proc := TryOpen(kernel, attr, OnThread(0));
      var system := TryOpen(kernel, attr, OnCpu(Least(cpus)));
      if !proc && !system {
        availability := Unavailable;
      } else if proc && !system {
        availability := ProcessMode;
      } else if !proc && system {
        availability := SystemMode;
      } else {
        availability := Universal;
      }
    }

    /** `event_is_openable`: `Some` stands for the exception. */
    method EventIsOpenable(kernel: Kernel) returns (fault: Option<Fault>)
      requires cpus != {} && kernel.lost <= kernel.open
      modifies this`attr, this`availability, kernel
      ensures OnlyLost(kernel)
      ensures |kernel.lost| == |old(kernel.lost)| + LostOpening(kernel.verdict, old(attr), Least(cpus))
      ensures match Opened(kernel.verdict, old(attr), cpus)
        case Event(a, v, _) => fault == None && attr == a && availability == v
        case Fails(f) => fault == Some(f) && attr == old(attr).(excludeKernel := true) && availability == Unavailable
        case Undefined => false
      ensures (forall a, l :: !kernel.verdict(a, l).Fumbles?) ==>
        kernel.open == old(kernel.open) && kernel.lost == old(kernel.lost)
    {
      UpdateAvailability(kernel);
      if availability == Unavailable {
        attr := attr.(excludeKernel := true);
        UpdateAvailability(kernel);
        if availability == Unavailable {
          return Some(InvalidEvent);
        }
      }
      return None;
    }

    ghost predicate IsMade(made: Made)
      reads this
    {
      made.Event? && attr == made.attr && availability == made.availability && cpus == made.cpus
    }

    // ----- constructors -----

    /** `PredefinedEventAttr`, and the second half of `RawEventAttr`. The precondition excludes exactly
        dereferencing the first element of an empty set. */
    static method Predefined(kernel: Kernel, name: string, attr: Attr, online: set<int>)
      returns (r: Result<EventAttr>)
      requires !SelfProbed(kernel.verdict, attr, online).Undefined? && kernel.lost <= kernel.open
      modifies kernel
      ensures var made := SelfProbed(kernel.verdict, attr, online);
        if made.Event? then r.Ok? && fresh(r.value) && r.value.IsMade(made) else r == Threw(made.fault)
      ensures r.Ok? ==> r.value.name == name && r.value.scale == 1.0 && r.value.unit == "#"
      ensures OnlyLost(kernel)
    {
      var event := new EventAttr(name, attr);
      event.cpus := GetCpuSetFor(kernel, attr, online);
      var fault := event.EventIsOpenable(kernel);
      match fault {
        case Some(f) => return Threw(f);
        case None => return Ok(event);
      }
    }

    /** `RawEventAttr` */
    static method Raw(kernel: Kernel, name: string, online: set<int>) returns (r: Result<EventAttr>)
      requires !FromRaw(kernel.verdict, name, online).Undefined? && kernel.lost <= kernel.open
      modifies kernel
      ensures var made := FromRaw(kernel.verdict, name, online);
        if made.Event? then r.Ok? && fresh(r.value) && r.value.IsMade(made) else r == Threw(made.fault)
      ensures r.Ok? ==> r.value.name == name && r.value.scale == 1.0 && r.value.unit == "#"
      ensures OnlyLost(kernel)
    {
      if name == "" {
        return Threw(OutOfRange);
      }
      var config := Numerals.Stoull16(name[1..]);
      if config.Threw? {
        return Threw(config.fault);
      }
      r := Predefined(kernel, name, Attr(PERF_TYPE_RAW, config.value, 0, false), online);
    }

    /** The part of `SysfsEventAttr` that finds the CPUs. */
    static method CpusOfPmu(kernel: Kernel, files: PmuFiles, attr: Attr, online: set<int>)
      returns (r: Result<set<int>>)
      requires !CpusFor(kernel.verdict, files, attr, online).0.Unforeseeable? && kernel.lost <= kernel.open
      modifies kernel
      ensures var (found, cpus) := CpusFor(kernel.verdict, files, attr, online);
        r == if found.Raised? then Threw(found.fault) else Ok(cpus)
      ensures OnlyLost(kernel)
    {
      var ids := ParseFile(files.cpus);
      if ids.Ok? && ids.value == {} {
        ids := ParseFile(files.cpumask);
      }
      if ids.Threw? {
        return Threw(ids.fault);
      }
      if ids.value == {} {
        var cpus := GetCpuSetFor(kernel, attr, online);
        return Ok(cpus);
      }
      return Ok(ToCpus(ids.value));
    }

    /** `SysfsEventAttr`, from the words read from the PMU's files. */
    static method Sysfs(kernel: Kernel, name: string, files: PmuFiles, online: set<int>)
      returns (r: Result<EventAttr>)
      requires !FromSysfs(kernel.verdict, files, online).Undefined? && kernel.lost <= kernel.open
      modifies kernel
      ensures var made := FromSysfs(kernel.verdict, files, online);
        if made.Event? then r.Ok? && fresh(r.value) && r.value.IsMade(made) else r == Threw(made.fault)
      ensures r.Ok? ==> r.value.name == name
      ensures r.Ok? ==> r.value.scale == if files.scale.Some? then files.scale.value else 1.0
      ensures r.Ok? ==> r.value.unit == if files.unit.Some? then files.unit.value else "#"
      ensures OnlyLost(kernel)
    {
      if files.kind.None? || files.event.None? {
        return Threw(InvalidEvent);
      }
      var event := new EventAttr(name, Attr(files.kind.value, 0, 0, false));
      var found := CpusOfPmu(kernel, files, event.attr, online);
      if found.Threw? {
        return Threw(found.fault);
      }
      event.cpus := found.value;
      var fault := event.Complete(kernel, files);
      if fault.Some? {
        return Threw(fault.value);
      }
      return Ok(event);
    }

    /** The part of `SysfsEventAttr` after the CPUs are found. */
    method Complete(kernel: Kernel, files: PmuFiles) returns (fault: Option<Fault>)
      requires files.event.Some? && kernel.lost <= kernel.open
      requires var ending := EncodeText(Configuration(attr.config, attr.config1), files.event.value, files.formats).1;
        !ending.Unforeseeable? && (ending.Finished? ==> cpus != {})
      modifies this`attr, this`availability, this`scale, this`unit, kernel
      ensures OnlyLost(kernel)
      ensures var (words, ending) :=
          EncodeText(Configuration(old(attr.config), old(attr.config1)), files.event.value, files.formats);
        && (ending.Raised? ==> fault == Some(ending.fault))
        && (ending.Finished? ==>
              && scale == (if files.scale.Some? then files.scale.value else 1.0)
              && unit == (if files.unit.Some? then files.unit.value else "#")
              && match Opened(kernel.verdict, old(attr).(config := words.config, config1 := words.config1), cpus)
                 case Event(a, v, _) => fault == None && attr == a && availability == v
                 case Fails(f) => fault == Some(f)
                 case Undefined => false)
    {
      fault := EncodeTerms(files.event.value, files.formats);
      if fault.None? {
        scale, unit := ValueOr(files.scale, 1.0), ValueOr(files.unit, "#");
        fault := EventIsOpenable(kernel);
      }
    }

    /** `parse_list_from_file` */
    static method ParseFile(file: Option<string>) returns (r: Result<set<CpuList.Id>>)
      requires !ListedFile(file).NeverReturns?
      ensures ListedFile(file).Aborted? ==> r == Threw(ListedFile(file).fault)
      ensures ListedFile(file).Listing? ==> r == Ok(ListedFile(file).ids)
    {
      if file.None? {
        return Ok({});
      }
      r := CpuList.ParseList(file.value);
    }
  }

  /** One turn of the term loop, seen from the specification. */
  lemma EncodeTurn(c: Configuration, text: string, formats: map<string, string>)
    requires NextPair(text).Some?
    ensures var field := FieldOf(NextPair(text).value.0, formats);
      EncodeText(c, text, formats) ==
        if field.Faulty? then (c, Raised(field.fault))
        else if field.Undetermined? then (c, Unforeseeable)
        else EncodeText(Contribute(c, field), NextPair(text).value.1, formats)
  {
    var (pair, rest) := NextPair(text).value;
    var fields := Fields(Pairs(text), formats);
    assert Pairs(text) == [pair] + Pairs(rest);
    assert fields[0] == FieldOf(pair, formats) && fields[1..] == Fields(Pairs(rest), formats);
  }
}
