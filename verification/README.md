# perf-cpp: a verified model of event encoding and event bookkeeping

perf-cpp turns the kernel's textual descriptions of performance events into configuration words, opens the
events, and keeps small pieces of state around them. This project models five parts of it and proves what they
are for.

* **Encoding** (`Words`, `Deposit`, `Slices`, `Numerals`, `Text`, `Bitmask`, `EventString`, `EventText`). An event
  description such as `event=0x2e,umask=0x41` is cut into terms, each term's format such as `config:0-7,32-35` is
  read into a 64-bit mask, and the term's value is scattered into the mask's positions. A 64-bit word is a number
  below 2^64 with the C++ operators written out on it (shift counts below 64 are preconditions); specifications
  speak of its bits, least significant first. `Gather` is the inverse of the scatter, `MaskText`, `FormatText` and
  `EventTextOf` print what the code reads; none of them is in the code.
* **CPU lists** (`CpuList`). `parse_list` with its 32-bit loop counter, its exceptions, and the one kind of input on
  which it never returns.
* **Descriptors and probing** (`Descriptors`, `Guards`, `Events`, `EventAttrs`). `Descriptors` is the ownership
  protocol as a state machine over runs; `Guards` has the guard objects and a `Program` that performs the operations
  on them and is shown to follow the machine. `EventAttrs` has the attributes object, its encoding loop, the probing
  methods and the three constructors; `Events` says as functions of the inputs what they produce, and `OrderedSets`
  has the first element of an ordered set.
* **Resolver** (`Resolver`). The memo table with negative entries, over every run of calls against a system whose
  answers may change.
* **Topology, reports, order** (`Topology`, `Reports`, `AttrOrder`). The first-wins maps and the lookups on them,
  bit names and system call filters as text, and the byte order on attributes.

System calls and files are inputs. Opening an event is decided by a fixed `verdict` per event and place (refuse, open
but fail `fcntl`, open); descriptor numbers are any number not open, so numbers are reused freely. Files are the words
read from them. Undefined behaviour and non-termination are named outcomes (`Unspecified`, `Undefined`,
`NeverReturns`), and methods exclude exactly these.

## What the code does differently from its description

* A format item without a dash, such as `config:21`, sets nothing (`Bitmask.KernelFormReadBackIff`,
  `Bitmask.LoneBitDropped`, `Bitmask.NoDashNoBits`): the range expression demands the dash, and the branch that would
  treat a missing end as the start is never taken.
* Values are read with `stol`, so a value that needs bit 63 makes the constructor throw
  (`Numerals.StolOfHex`, `EventText.TextToWordsAndBack`).
* For predefined and raw events, whose CPUs are found by opening them, the `exclude_kernel` retry cannot be reached,
  and one that opens for a process only dereferences the first element of an empty set
  (`Events.SelfProbedIsNeverRetried`). An event from sysfs without `cpus` and `cpumask` is opened with a blank
  configuration to find its CPUs, so it can reach the retry.
* A list such as `3--1`, with a range that ends at -1, makes `parse_list` run forever
  (`CpuList.NeverReturnsOnText`, `CpuList.DoubleDashNeverReturns`).
* `operator<` and `operator>` on attributes are the same relation (`AttrOrder.LessIsGreater`).
* A CPU id of 2^31 or more becomes negative and is searched first although it was inserted last. A list yields such
  ids only through a range with a negative end, and then the topology lookups can disagree
  (`Topology.AgreementOnText`, `Topology.LargeRangeDisagrees`).
* A descriptor opened by a guard constructor whose `fcntl` fails is never closed
  (`Descriptors.NothingLeaksButTheLost`).

## Model

| member | source | states |
|---|---|---|
| Deposit.ApplyMask | src/event_attr.cpp:119-131 | The bit loop computes the scatter of the value's low bits into the mask's positions; every shift count is below 64. |
| Deposit.DepositIsBijection | src/event_attr.cpp:119-131 | For every mask, `apply_mask` maps the values below 2^popcount one to one onto the words that lie under the mask. |
| Deposit.ExtractDeposited | src/event_attr.cpp:119-131 | Gathering the mask's bits out of a deposited word gives the value modulo 2^popcount(mask). |
| Deposit.DepositExtracted | src/event_attr.cpp:119-131 | Depositing what was gathered from a word gives the word ANDed with the mask. |
| Deposit.DepositedIncreases | src/event_attr.cpp:119-131 | Below the mask's capacity, a larger value deposits to a larger word. |
| Deposit.GatherOfScatter | src/event_attr.cpp:119-131 | On bits of any length, gathering a scatter gives the first popcount bits back. |
| Deposit.ScatterOfGather | src/event_attr.cpp:119-131 | On bits of any length, scattering a gather gives the bits under the mask. |
| Deposit.ScatterSplit | src/event_attr.cpp:119-131 | If all bits of one mask lie below those of another, scattering under their union is scattering under the first, ORed with scattering the value shifted by the first's popcount under the second. |
| Deposit.DepositedSplit | src/event_attr.cpp:119-131 | The same law on words: under the union of a mask and a higher one the lower takes the low bits and the higher the value divided by the capacity of the lower; the capacities multiply. |
| Deposit.ScatterAt | src/event_attr.cpp:122-129 | Bit k of the result is the value bit whose number is the count of mask bits below k, if the mask has bit k. |
| Slices.DepositIsSlicing | src/event_attr.cpp:119-131 | For a mask of ascending disjoint ranges the result is the sum of the slices `((v >> offset) mod 2^len) << start`. |
| Slices.FormatIsSlicing | src/event_attr.cpp:76-131 | The same for the text of any ascending ranges: reading it and depositing under the result cuts the value into consecutive slices, one per range. |
| Bitmask.ParseBitmask | src/event_attr.cpp:76-117 | The match loop returns the union of the ranges or the exception of the first range that has one; the precondition excludes exactly undefined shifts and the overflow of `end + 1`. |
| Bitmask.ReadRange | src/event_attr.cpp:92-99 | Both numbers of a match, or `std::invalid_argument`, `std::out_of_range` or `InvalidEvent` as the code raises them. |
| Bitmask.RangeWord | src/event_attr.cpp:109-114 | The shifted run of ones sets exactly the positions start to end, the full word included; no bit is lost. |
| Bitmask.UnionMeaning | src/event_attr.cpp:85-116 | Reading succeeds iff every range is in order, and then a bit is set iff some range covers it. |
| Bitmask.PrintedRangesMeaning | src/event_attr.cpp:76-117 | For any printed ranges in any order, overlapping or not: the text is read iff each range ends in the word and starts at most at 63 and at most one past its end, and then a bit is set iff a range covers it. |
| Bitmask.ReadPrinted | src/event_attr.cpp:92-114 | For any two printed numbers: which exception they raise, when the shift or the overflow is undefined, and otherwise the range. |
| Bitmask.FirstFailureDecides | src/event_attr.cpp:89-99 | The first range that cannot be read decides the outcome, whatever follows. |
| Bitmask.SameRangesSameMask | src/event_attr.cpp:85-116 | Order, overlap and repetition of ranges do not change the mask. |
| Bitmask.MaskRoundTrip | src/event_attr.cpp:76-117 | Every 64-bit mask printed as its maximal runs `s-e` is read back as itself. |
| Bitmask.KernelFormReadBackIff | src/event_attr.cpp:87-93 | With lone bits printed without a dash, reading drops exactly the lone bits; the mask is read back iff it has none. |
| Bitmask.LoneBitDropped | src/event_attr.cpp:87-93 | A mask of one bit, printed as its number, is read as the empty mask; `Bitmask.LoneBit21Dropped` is the case of `config:21`. |
| Bitmask.NoDashNoBits | src/event_attr.cpp:87-89 | Text without a dash sets nothing: it is read as the empty mask. |
| Bitmask.MatchIffDash | src/event_attr.cpp:87-89 | In any text there is a match iff some dash has a digit after it. |
| Bitmask.FirstDashMatched | src/event_attr.cpp:87-89 | In any text the match is at the first such dash, with all digits just before it, possibly none, and all digits after it. |
| Bitmask.MissingStartRaises | src/event_attr.cpp:92 | A first range without a start, as in `-5`, raises `std::invalid_argument`. |
| Bitmask.FirstBadRangeDecides | src/event_attr.cpp:92-114 | For any printed ranges the first that is not readable decides: `std::out_of_range` for a number beyond an int, `InvalidEvent` for an end beyond 63, otherwise undefined. |
| Numerals.StolOfHex | src/event_attr.cpp:647 | A printed `0x` numeral is read as its value up to the largest long and raises `std::out_of_range` above it. |
| Numerals.NumeralOfPrint | src/event_attr.cpp:92-93 | Any printed decimal integer, followed by anything that is no digit, is read back. |
| Numerals.StolOfSpelled | src/event_attr.cpp:647 | Term values are read in decimal, octal and hexadecimal of either case, with any sign, after any blanks and before any text that does not continue them, and raise `std::out_of_range` exactly beyond a 64-bit long. |
| Numerals.StoiOfSpelled | src/util.cpp:31-40 | The same for decimal ints, leading zeros included. |
| Numerals.StoullOfSpelled | src/event_attr.cpp:273 | Raw numbers are read in hexadecimal digits of either case, with or without `0x`; a minus sign negates modulo 2^64. |
| Numerals.NoNumber | src/event_attr.cpp:647 | Text without a number after blanks and at most one sign raises `std::invalid_argument` in all three readers. |
| EventAttrs.EventAttr.EventAttrUpdate | src/event_attr.cpp:157-186 | The deposit under the format's mask is ORed into `config` or `config1` as the target says, into neither for another target; a missing colon or a bad mask leaves the attributes unchanged and raises its fault. |
| EventAttrs.EventAttr.EncodeTerms | src/event_attr.cpp:627-651 | The search-and-suffix loop encodes the terms from left to right up to the first fault; it changes nothing but the two words. |
| EventAttrs.EncodeTurn | src/event_attr.cpp:630-651 | One turn: a missing format, an unreadable value or a bad format ends the loop with its fault, otherwise the term is contributed and the suffix remains. |
| EventString.EncodeMeaning | src/event_attr.cpp:157-186 | Encoding finishes iff every term is in order, and then a bit of a word is set iff it was set before or some term of that target deposits it. |
| EventString.FieldsReadBack | src/event_attr.cpp:157-186 | For any number of terms with masks disjoint within each word (terms for other targets may overlap), gathering a field's mask out of the final word gives its value modulo 2^popcount. |
| EventString.OutsideUnchanged | src/event_attr.cpp:157-186 | Every bit outside the masks of a target keeps its initial value. |
| EventString.OrderIrrelevant | src/event_attr.cpp:627-651 | Descriptions with the same terms in any order and multiplicity encode alike whenever one succeeds, overlapping masks included. |
| EventString.FieldGivenTwice | src/event_attr.cpp:177-185 | A field given twice, anywhere in a list of fields, encodes as given once with the two values ORed; one list finishes iff the other does. |
| EventString.TermGivenTwice | src/event_attr.cpp:627-651 | On event text: a term that occurs twice, anywhere among others, encodes as once with the two values ORed; one text finishes iff the other does. |
| EventString.FirstFailingTerm | src/event_attr.cpp:627-651 | The first failing term decides the exception and the terms before it are encoded: `InvalidEvent` without a format file, then the exception of its value, then `InvalidEvent` for a format without colon or the exception of its ranges. |
| EventText.PrintedTermGivenTwice | src/event_attr.cpp:627-651 | On printed text and for any two values: giving `t=a` and `t=b` anywhere among other terms encodes as giving t the value a OR b once, and one text finishes iff the other does. |
| EventText.TermListRoundTrip | src/event_attr.cpp:627-651 | Printing terms `t=v` or `t` joined by commas and running the loop visits exactly those pairs in order, with `0x1` for absent values. |
| EventText.FirstMatch | src/event_attr.cpp:627-638 | In any text the loop takes, after separators, the longest term and the longest value after `=`; a term without value gets `0x1`, and an equals sign without value stays in the text. |
| EventText.EveryTextStarts | src/event_attr.cpp:627-630 | Every text either consists of separators only, and then has no match, or starts that way. |
| EventText.ValueRead | src/event_attr.cpp:632-647 | A value in any spelling is read as the number it means if that is a long, otherwise `std::out_of_range` is raised; a value left out is 1. |
| EventText.FormatRoundTrip | src/event_attr.cpp:161-175 | A printed `target:mask` is read as that target and mask. |
| EventText.FormatReads | src/event_attr.cpp:167-185 | For any name before the first colon and any ranges after it: the ranges decide mask or fault, and only the names `config` and `config1` stand for a word. |
| EventText.PrintedFormatServes | src/event_attr.cpp:161-175 | A format file that holds the printed target and mask denotes them. |
| EventText.TextToWordsAndBack | src/event_attr.cpp:157-651 | Any settings with masks disjoint within each word, with values written in any spelling or left out, written as event text next to formats that denote the masks (as printed formats do), encode successfully if every value is a 64-bit long, and then both words hold exactly the settings: each value (1 if left out) modulo what its mask holds, nothing set outside; otherwise `std::out_of_range` is thrown. |
| CpuList.ParseList | src/util.cpp:17-45 | The nested loops return the union of the named ids or the exception of the first bad part; the precondition excludes exactly the inputs on which the code does not return. |
| CpuList.InsertSpan | src/util.cpp:31-35 | The inner loop on a wrapping 32-bit counter inserts exactly from..to, nothing when from > to. |
| CpuList.LoopEndsIff | src/util.cpp:34-35 | The inner loop's guard fails at some turn iff `to` is not 2^32-1, which among ints is the conversion of -1 only. |
| CpuList.NeverReturnsIff | src/util.cpp:25-42 | Parsing does not return iff a part whose range ends at 2^32-1 is reached with all earlier parts in order. |
| CpuList.NeverReturnsOnText | src/util.cpp:25-42 | On the text: `parse_list` does not return iff in some part the text before the first dash reads as an int and the text after it as -1, and all earlier parts are in order. |
| CpuList.DoubleDashNeverReturns | src/util.cpp:25-42 | The list `3--1` is such an input. |
| CpuList.LargeIdsOnText | src/util.cpp:31-35 | A readable list names an id of 2^31 or more iff some range has a negative end, and then it names 2^31 and the id before it. |
| CpuList.NegativeEnd | src/util.cpp:31-35 | A range a--b with b at least two lists the ids from a to 2^32 - b. |
| CpuList.CollectMeaning | src/util.cpp:22-44 | Parsing succeeds iff every part is in order, and then contains exactly the ids some part names. |
| CpuList.ListMeaning | src/util.cpp:17-45 | On the text: a list is read iff every part is in order, and then names exactly the numbers that are parts and those from the first to the second number of a range, a negative second number counting down from 2^32. |
| CpuList.RangeNames | src/util.cpp:31-35 | `a-b` names the ids from a to b, none when b is smaller. |
| CpuList.FirstBadPartDecides | src/util.cpp:31-40 | The first part that cannot be read decides the exception, its first number before its second. |
| CpuList.ConcatenationIsUnion | src/util.cpp:25-42 | Two readable lists joined by a comma give the union, except after an empty list or one ending in a comma, where `std::invalid_argument` arises. |
| CpuList.ListRoundTrip | src/util.cpp:17-45 | Any set of ids below 2^31 printed as its maximal runs `a` or `a-b` is read back as the same set. |
| Descriptors.StepKeepsOwnership | include/perf-cpp/event_attr.hpp:382-391 | Every operation keeps: live guards hold distinct numbers, and the open numbers are exactly the held, the lost and the foreign ones. |
| Descriptors.StepKeepsTrace | src/event_attr.cpp:682-698 | Every operation keeps the call history consistent with the open set; history and lost numbers only grow. |
| Descriptors.OwnershipOverRuns | src/event_attr.cpp:676-698 | For every run: ownership holds at the end; at each moment an open hit a closed number and a close an open one; each number is closed at most as often as it was opened; what was open at the start stays open and no call names it. |
| Descriptors.NotOursUntouched | src/event_attr.cpp:676-698 | From any moment on, no call names a number that is lost or foreign then. |
| Descriptors.NothingLeaksButTheLost | include/perf-cpp/event_attr.hpp:439-445 | Once all guards are destroyed, the open numbers are those open at the start and those whose constructor failed in `fcntl`, each of which was opened once more than closed. |
| Descriptors.LostStaysOpen | src/event_attr.cpp:694-697 | A lost number stays open, is held by nobody, and appears in no later call. |
| Descriptors.LostExactly | src/event_attr.cpp:694-697 | The lost numbers of a run are exactly those granted to a constructor whose `fcntl` failed. |
| Descriptors.GroupIsLeaders | src/event_attr.cpp:663-680 | Over every run, each opening call has group -1 if the event was opened alone, and otherwise the number that the leader held at that moment, which was then open (or -1 if the leader held none). |
| Descriptors.MovesPassNumbers | include/perf-cpp/event_attr.hpp:382-391 | Move construction gives the source's number to the new guard and leaves the source none; assignment exchanges the two; nothing else changes. |
| Descriptors.ReplayBalance | include/perf-cpp/event_attr.hpp:439-445 | In a consistent history a number is open iff it was opened once more than it was closed. |
| Guards.EventGuard.Construct | src/event_attr.cpp:682-698 | The guard constructor against the kernel: refusal changes nothing; a failing `fcntl` leaves the number open, lost and unheld; otherwise the guard holds the fresh number. |
| Guards.EventGuard.Moved | include/perf-cpp/event_attr.hpp:382-385 | The new guard takes the other's number and leaves it without one. |
| Guards.EventGuard.MoveFrom | include/perf-cpp/event_attr.hpp:387-391 | The two guards exchange numbers, also when they are the same object. |
| Guards.EventGuard.Destroy | include/perf-cpp/event_attr.hpp:439-445 | Closes the held number, which must be open, and nothing else; does nothing without one. |
| Guards.Program.Open | src/event_attr.cpp:663-666 | Opening on real guards is a step of the descriptor machine and keeps its invariants; it is refused, or loses its number, exactly when the kernel says so; the call has group -1 and the guard gets the granted number. |
| Guards.Program.OpenChild | src/event_attr.cpp:676-680 | The child is opened in the group of the number its leader holds; the call names exactly that number; a step of the machine, refused or lost exactly when the kernel says so. |
| Guards.Program.MoveConstruct | include/perf-cpp/event_attr.hpp:382-385 | Move construction on real guards is a step of the machine: the new guard holds the source's number, the source none, the others theirs. |
| Guards.Program.MoveAssign | include/perf-cpp/event_attr.hpp:387-391 | Move assignment on real guards, also self-assignment, is a step of the machine: the two exchange numbers, the others keep theirs. |
| Guards.Program.Destroy | include/perf-cpp/event_attr.hpp:439-445 | Destruction closes the number held, which is open, if there is one, and removes the guard; a step of the machine. |
| EventAttrs.EventAttr.GetCpuSetFor | src/event_attr.cpp:43-61 | Returns exactly the CPUs on which the event opens; the open set is unchanged unless `fcntl` failures lose descriptors, and then grows by exactly those, one for each CPU on which `fcntl` fails; nothing is opened in a group. |
| EventAttrs.EventAttr.UpdateAvailability | src/event_attr.cpp:224-270 | The availability is universal, process, system or none as the event opens for the thread and on the first CPU; probing leaves only lost descriptors behind, one for each of the two probes whose `fcntl` fails. |
| EventAttrs.EventAttr.EventIsOpenable | src/event_attr.cpp:205-222 | Probe, then once more without the kernel; throws iff both fail; each of the two or four attempts loses one descriptor if its `fcntl` fails, and nothing else stays open. |
| EventAttrs.EventAttr.Predefined | src/event_attr.cpp:145-155 | The constructor yields the event `SelfProbed` describes; the precondition is that the event opens on some CPU. |
| EventAttrs.EventAttr.Raw | src/event_attr.cpp:272-278 | The constructor yields the event `FromRaw` describes, or the fault of reading the number. |
| EventAttrs.EventAttr.Sysfs | src/event_attr.cpp:557-661 | The constructor yields the event or the fault `FromSysfs` describes: missing files, CPU selection, encoding, probing, in that order; the event has the full name, and scale and unit as their files say or 1 and `#`. |
| EventAttrs.EventAttr.CpusOfPmu | src/event_attr.cpp:610-625 | The CPUs are those of `cpus`, else of `cpumask`, else those on which the event opens; an exception of either list is passed on. |
| EventAttrs.EventAttr.Complete | src/event_attr.cpp:627-661 | The terms are encoded; on success scale and unit are as their files say or 1 and `#`, and the attributes are probed. |
| EventAttrs.EventAttr.ParseFile | src/util.cpp:47-59 | A missing list file is an empty list, otherwise the parsed list or its exception. |
| Events.OpenedMeaning | src/event_attr.cpp:205-270 | Probing has exactly this outcome, told by what opens: an event that opens for the thread or on its first CPU is kept unchanged, one that opens only with the kernel excluded is kept that way, each with the availability that the two places give it; one that opens in neither way raises `InvalidEvent`; without CPUs it is undefined. |
| Events.SelfProbedIsNeverRetried | src/event_attr.cpp:145-155 | An event whose CPUs are those it opens on never throws for availability and never reaches the retry; it is undefined iff it opens on no CPU. |
| Events.SysfsEventCarriesSettings | src/event_attr.cpp:570-661 | From event, format and CPU files through the whole constructor: the result is the probing outcome, told by what opens, of attributes of the PMU's type whose two words hold exactly the written settings; with a value that is no long the constructor throws `std::out_of_range`. |
| Events.SysfsEventHasListedCpus | src/event_attr.cpp:610-625 | The CPUs of a constructed event are exactly the set written in the PMU's `cpus` file, or in `cpumask` when `cpus` lists nothing. |
| Events.SysfsEventHasOpenableCpus | src/event_attr.cpp:617-620 | When neither file lists a CPU, the event's CPUs are the online ones on which it opens with a blank configuration. |
| Events.CpusFound | src/event_attr.cpp:610-625 | The CPU selection finds exactly the CPUs of the first of these three sources that has any. |
| Events.FirstFaultOfSysfs | src/event_attr.cpp:566-651 | A missing type or event file raises `InvalidEvent` before anything else, then an exception of `cpus`, of `cpumask`, or of the terms is passed on. |
| Events.RawNameReads | src/event_resolver.cpp:256-257 | A name of `r` and one to eight hexadecimal digits is read without exception as what its digits denote, below 2^32. |
| Events.RawNamesNeverThrow | src/event_attr.cpp:272-278 | Constructing from such a name never throws; the event has that number, its CPUs are those on which it opens, and it is universal or system-wide as it opens for the thread; it is undefined iff it opens on no CPU. |
| Events.RawNumberArrives | src/event_attr.cpp:272-278 | Any number below 2^32 in hexadecimal digits of either case after `r` is the event's configuration. |
| Events.RawFaults | src/event_attr.cpp:273 | An empty name raises `std::out_of_range`, one without a number `std::invalid_argument`. |
| Resolver.EventResolver.Fill | src/event_resolver.cpp:218-251 | The table holds, for each name some row builds, the first built event; other rows leave no entry; the first row that meets another exception ends the construction with it. |
| Resolver.FirstBuiltMeaning | src/event_resolver.cpp:218-251 | A name is tabled iff some row builds it, with the event of its first such row. |
| Resolver.EventResolver.CacheEvent | src/event_resolver.cpp:254-290 | A valid or invalid outcome is stored and returned; any other exception is passed on and not stored. |
| Resolver.EventResolver.GetEventByName | src/event_resolver.cpp:297-315 | The tabled answer if there is one, otherwise the fresh one, with the table extended accordingly. |
| Resolver.EventResolver.HasEvent | src/event_resolver.cpp:317-336 | True or false as the answer is valid or invalid; another exception is passed on. |
| Resolver.EventResolver.GetPredefinedEvents | src/event_resolver.cpp:338-352 | Visits every entry of the table once, in whatever order, and returns the events of the positive ones in that order. |
| Resolver.EventsOfExactly | src/event_resolver.cpp:343-349 | Whatever the order, an event is returned iff some visited entry holds it. |
| Resolver.EveryEntryOnce | src/event_resolver.cpp:338-352 | For every such order exactly the events of the positive entries are returned, as many as there are positive entries. |
| Resolver.TableMeaning | src/event_resolver.cpp:254-336 | After any run a name's entry is its initial one, else the first settled answer a call met for it. |
| Resolver.MemoAgrees | src/event_resolver.cpp:254-336 | In any run every call answers with the initial entry, else with the first valid or invalid answer met for its name so far, else with the other fault it meets itself. |
| Resolver.SettledOnce | src/event_resolver.cpp:297-336 | A name settled once is not resolved again, and a tabled name never is. |
| Resolver.HasThenGet | src/event_resolver.cpp:297-336 | After `has_event` without another fault, `get_event_by_name` gives the same answer whatever a fresh resolution would yield, so the event is delivered iff `has_event` said true. |
| Resolver.EntriesStay | src/event_resolver.cpp:254-336 | Entries are never removed or changed. |
| Resolver.AnswersStay | src/event_resolver.cpp:297-336 | In any run, once a call got a settled answer, every later call on the name gets the same answer. |
| Topology.Topology.ReadProc | src/topology.cpp:15-33 | The loop fills the three maps by first-wins insertion in row order, and the three sets with the ids that occur. |
| Topology.FindIfIsLeast | include/perf-cpp/topology.hpp:119-140 | The search returns the smallest key with the value, or -1 if there is none. |
| Topology.CpuEntered | src/topology.cpp:30-32 | Every CPU has the core and package of its row. |
| Topology.FirstRowDecides | src/topology.cpp:31 | A core has the package of its first row. |
| Topology.CoresAgree | include/perf-cpp/topology.hpp:119-129 | For every known core, its package is the package of the CPU that measures for it, and that CPU belongs to it. |
| Topology.Topology.CoreLookupsAgree | include/perf-cpp/topology.hpp:101-129 | The same on the topology object: `package_of(core)` is `package_of(measuring_cpu_for_core(core))`, and `core_of` that CPU is the core. |
| Topology.Topology.PackageLookupsAgree | include/perf-cpp/topology.hpp:130-140 | On the topology object, `package_of(measuring_cpu_for_package(p))` is p for every package that occurs. |
| Topology.Topology.LookupsOfRow | include/perf-cpp/topology.hpp:101-117 | On the topology object, every row's CPU has the core and package of its row, and a core the package of its first row. |
| Topology.Topology.MeasuresForCore | include/perf-cpp/topology.hpp:119-129 | The CPU that measures for a core is the smallest CPU of its rows, or -1 if there is none. |
| Topology.Topology.MeasuresForPackage | include/perf-cpp/topology.hpp:130-140 | The CPU that measures for a package is the smallest CPU of its rows, or -1 if there is none. |
| Topology.Topology.UnknownIds | src/topology.cpp:52-62 | Ids that no row has raise the exception of `at`. |
| Topology.AgreementIffOrderKept | src/topology.cpp:30-32 | For a list of CPU ids, that agreement holds for all cores and packages they may have iff the ids are all below 2^31 or all at or above it. |
| Topology.AgreementOnText | src/topology.cpp:15-33 | From the text of the online list: for all cores and packages its CPUs may have, the lookups agree iff no range in it has a negative end. |
| Topology.LargeRangeDisagrees | src/topology.cpp:15-33 | The list `2147483647--2147483648` is readable, names two CPUs, and gives lookups that disagree when both are core 0 in different packages. |
| Topology.PrintedListAgrees | src/topology.cpp:15-33 | For any set of ids below 2^31 written as its runs, the rows read from that list have exactly these CPUs and the lookups agree on every known core. |
| Topology.DirectIffUnambiguous | include/perf-cpp/topology.hpp:101-104 | Going to the package through the core is the same as going directly, for all CPUs, iff no core id appears with two packages. |
| Reports.PrintBits | src/event_attr.cpp:280-310 | The text: leftover bits in hexadecimal if there are any, then the joined names of the keys that took a bit. |
| Reports.ReportText | src/event_attr.cpp:294-309 | The text written for two found keys and other bits, label by label. |
| Reports.TakeBits | src/event_attr.cpp:283-291 | The table loop computes the listed names and the leftover. |
| Reports.JoinByLoop | src/event_attr.cpp:298-308 | The iterator loop joins the names with ` \| `. |
| Reports.LeftoverMeaning | src/event_attr.cpp:284-291 | For any key table, a bit is left over iff the value has it and no key does. |
| Reports.ListedClaim | src/event_attr.cpp:284-291 | For any key table, the listed names are those whose key has a bit of the value that no earlier key has, in order. |
| Reports.ValueDecodesIff | src/event_attr.cpp:284-296 | For any table and value, the value is the OR of the listed keys and the leftover iff every key that has a bit of the value no earlier key has lies wholly under the value. |
| Reports.TableDecodesIff | src/event_attr.cpp:284-296 | For any table, every value is the OR of the listed keys and the leftover iff each key with a bit that no earlier key has is a single bit. |
| Reports.SingleBitTableDecodes | src/event_attr.cpp:284-296 | With keys of one bit each, every value is the OR of the listed keys and the leftover. |
| Reports.BreakpointTypesDecode | src/event_attr.cpp:356-362 | In the table of breakpoint types every value decodes, and the read-write type, the OR of two earlier keys, is never listed. |
| Reports.SplitsBackIff | src/event_attr.cpp:298-309 | Splitting the joined names at the separator gives them back iff no name contains it and none but the last ends in a blank and a bar. |
| Reports.ReportTellsApartIff | src/event_attr.cpp:280-310 | For any table with different, non-empty names that cannot be confused with the separator: the written text is different for different values iff no key has two bits that no earlier key has. |
| Reports.SingleBitReportsDiffer | src/event_attr.cpp:280-310 | With such names and keys of one bit each, the written text determines the value. |
| Reports.SyscallFilter | src/event_attr.cpp:724-734 | The filter text is the conditions joined by `\|\|`; nothing is sent for an empty list. |
| Reports.FilterRoundTrip | src/event_attr.cpp:731-734 | Reading the filter text recovers the ids in order, negative ones included. |
| Reports.FilterMeaning | src/event_attr.cpp:731-734 | Read as a disjunction, the filter accepts an id iff it is in the list. |
| AttrOrder.StrictWeakOrder | include/perf-cpp/event_attr.hpp:303-311 | On byte images of any equal length `<` is irreflexive and transitive, incomparable means `==`, and `==` means equal bytes. |
| AttrOrder.LessIff | include/perf-cpp/event_attr.hpp:308-311 | An image is less iff it has the larger byte where the two first differ. |
| AttrOrder.LessIsGreater | include/perf-cpp/event_attr.hpp:308-316 | As written `<` and `>` are the same relation, and it is asymmetric. |

## Left out

- System calls, sysfs, /proc and sysctl reading and directory walks (`get_pmu_events`, `get_tracepoint_event_names`): foreign calls and I/O; their results are inputs here.
- The mapping of a location and a cgroup to system call arguments in `perf_event_open`: an event's place is a CPU or a thread.
- General regular expressions and streams: the three patterns and the `getline` loop are written out by hand.
- The split of an event name into PMU and event: a name that does not match finds no PMU file, which is the missing-file case of `Events.FromSysfs`.
- `enable`, `disable`, `get_id`, `set_output`, `read` on a guard: single calls that change no state of the library.
- EventAttrs.EventAttr.Sysfs: the object is built by a static method that returns a result, because a constructor cannot return an exception; the same holds for `Predefined`, `Raw` and `Guards.EventGuard.Construct`.
- Resolver.EventResolver.Fill: takes the outcome of building each predefined event as input; the tables of names and `make_cache_config` are fixed data.
- The choice between raw and PMU events by name in `cache_event`: the resolver takes the constructor's outcome as input; `Events` has both constructors. The libpfm path is foreign.
- EventAttrs.EventAttr.GetCpuSetFor: with a verdict per event and place that does not change during probing; a system that changes its mind between two probes is not modelled.
- `EventAttr::is_available_in`: its branches do not match its argument, so it has no useful contract as written.
- `operator<<` apart from `print_bits`, flag setters, id wrapper types, formatters, tracepoint formats and breakpoint events: easy or declarations only.
- src/event_provider.cpp and src/perf_event_instance.cpp: not part of the build.
- Threads: the code has no synchronisation of its own; everything is sequential.
