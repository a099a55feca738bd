/** The bit ranges of a format description, such as `0-7,32-35`, and the mask they denote (`parse_bitmask`). */
module Bitmask {
  import opened Outcomes
  import opened Words
  import opened Numerals
  import opened Text

  /** One match of the range expression: its two digit groups. The first may be empty. */
  datatype Range = Range(first: string, last: string)

  /** A match of `(\d+)?(?:-(\d+))` at the very start of `s`, with the text after it. Digits, if any, are
      taken all: a shorter first group would have to be followed by a dash, but a digit follows it. */
  function MatchHere(s: string): (m: Option<(Range, string)>)
    ensures m.Some? ==> |m.value.1| < |s|
  {
    var n := DigitRun(s, 10);
    if n < |s| && s[n] == '-' && DigitRun(s[n + 1..], 10) > 0 then
      var after := s[n + 1..];
      var k := DigitRun(after, 10);
      Some((Range(s[..n], after[..k]), after[k..]))
    else
      None
  }

  /** The leftmost match. */
  function NextMatch(s: string): (m: Option<(Range, string)>)
    ensures m.Some? ==> |m.value.1| < |s|
  {
    if s == [] then None
    else if MatchHere(s).Some? then MatchHere(s)
    else NextMatch(s[1..])
  }

  /** What one match makes the code do: throw, run into undefined behaviour, or set the bits
      `start..end` (none when `start == end + 1`). */
  datatype Reading = Bad(fault: Fault) | Undefined | Run(start: nat, end: int)

  function Read(r: Range): (reading: Reading)
    ensures reading.Run? ==> reading.start <= 63 && reading.start - 1 <= reading.end <= 63
  {
    match Stoi(r.first)
    case Threw(f) => Bad(f)
    case Ok(start) =>
      match Stoi(r.last)
      case Threw(f) => Bad(f)
      case Ok(end) =>
        if end == INT_MAX then Undefined           // end + 1 overflows an int
        else
          var len := end + 1 - start;
          if start < 0 || end > 63 || len > 64 then Bad(InvalidEvent)
          else if len < 0 || start > 63 then Undefined  // shift count out of range
          else Run(start, end)
  }

  /** What the matches of `s` say, each search starting where the previous match ended. */
  function Readings(s: string): seq<Reading>
    decreases |s|
  {
    match NextMatch(s)
    case None => []
    case Some((range, rest)) => [Read(range)] + Readings(rest)
  }

  datatype Mask = Mask(bits: Bits) | Failed(fault: Fault) | Unspecified

  /** The ranges are added to the mask one by one; the first that cannot be read decides. */
  function Union(readings: seq<Reading>, mask: Bits): (r: Mask)
    requires |mask| == WIDTH
    ensures r.Mask? ==> |r.bits| == WIDTH
  {
    if readings == [] then Mask(mask)
    else match readings[0]
      case Bad(f) => Failed(f)
      case Undefined => Unspecified
      case Run(start, end) => Union(readings[1..], Or(mask, RunBits(WIDTH, start, end)))
  }

  function Parse(format: string): (r: Mask)
    ensures r.Mask? ==> |r.bits| == WIDTH
  {
    Union(Readings(format), Zeros(WIDTH))
  }

  // ----- the loop -----

  /** The word that is shifted and added for one range. */
  function Ones(len: nat): Word
    requires len <= 64
  {
    if len == 64 then MODULUS - 1 else (Shl(1, len) + MODULUS - 1) % MODULUS
  }

  lemma ShiftedOne(n: nat)
    requires n < WIDTH
    ensures Shl(1, n) == Pow2(n) < MODULUS
  {
    Pow2Width();
    Pow2Increases(n, WIDTH);
    SmallRemainder(Pow2(n), MODULUS);
  }

  lemma Decremented(p: nat)
    requires 1 <= p < MODULUS
    ensures (p + MODULUS - 1) % MODULUS == p - 1
  {
    DivModUnique(p + MODULUS - 1, MODULUS, 1, p - 1);
  }

  lemma OnesValue(len: nat)
    requires len <= 64
    ensures Ones(len) == Pow2(len) - 1
  {
    if len < 64 {
      ShiftedOne(len);
      Decremented(Pow2(len));
    } else {
      Pow2Width();
    }
  }

  lemma OnesBits(len: nat)
    requires len <= 64
    ensures BitsOf(Ones(len)) == RunBits(WIDTH, 0, len - 1)
  {
    OnesBelow(len, WIDTH);
    OnesValue(len);
  }

  /** No bit is lost by the shift: exactly the positions `start..end` are set. */
  lemma RangeWord(start: nat, end: int)
    requires start <= 63 && start - 1 <= end <= 63
    ensures BitsOf(Shl(Ones(end + 1 - start), start)) == RunBits(WIDTH, start, end)
  {
    var ones := Ones(end + 1 - start);
    OnesBits(end + 1 - start);
    forall i | 0 <= i < WIDTH ensures BitsOf(Shl(ones, start))[i] == (start <= i <= end) {
      ShlBit(ones, start, i);
    }
  }

  /** One turn of the loop, seen from the specification. */
  lemma UnionTurn(rest: string, mask: Bits)
    requires |mask| == WIDTH && NextMatch(rest).Some?
    ensures var reading := Read(NextMatch(rest).value.0);
      Union(Readings(rest), mask) ==
        if reading.Bad? then Failed(reading.fault)
        else if reading.Undefined? then Unspecified
        else Union(Readings(NextMatch(rest).value.1), Or(mask, RunBits(WIDTH, reading.start, reading.end)))
  {
    var (range, suffix) := NextMatch(rest).value;
    assert Readings(rest) == [Read(range)] + Readings(suffix);
    assert Readings(rest)[1..] == Readings(suffix);
  }

  /** The body of the loop up to the shift: both numbers, or the exception. */
  method ReadRange(range: Range) returns (r: Result<(int, int)>)
    requires !Read(range).Undefined?
    ensures Read(range).Bad? ==> r == Threw(Read(range).fault)
    ensures Read(range).Run? ==> r == Ok((Read(range).start, Read(range).end))
  {
    var start := Stoi(range.first);
    if start.Threw? {
      return Threw(start.fault);
    }
    var end := Stoi(range.last);
    if end.Threw? {
      return Threw(end.fault);
    }
    var len := end.value + 1 - start.value;
    if start.value < 0 || end.value > 63 || len > 64 {
      return Threw(InvalidEvent);
    }
    return Ok((start.value, end.value));
  }

  /** `parse_bitmask`. The precondition excludes undefined behaviour and nothing else. */
  method ParseBitmask(format: string) returns (r: Result<Word>)
    requires !Parse(format).Unspecified?
    ensures Parse(format).Failed? ==> r == Threw(Parse(format).fault)
    ensures Parse(format).Mask? ==> r.Ok? && BitsOf(r.value) == Parse(format).bits
  {
    var mask: Word := 0;
    var found := NextMatch(format);
    ZeroLowBits(WIDTH);
    ghost var rest := format;
    while found.Some?
      invariant found == NextMatch(rest)
      invariant Union(Readings(rest), BitsOf(mask)) == Parse(format)
      decreases |rest|
    {
      UnionTurn(rest, BitsOf(mask));
      var (range, suffix) := found.value;
      var numbers := ReadRange(range);
      if numbers.Threw? {
        return Threw(numbers.fault);
      }
      var (start, end) := numbers.value;
      RangeWord(start, end);
      mask := BitOr(mask, Shl(Ones(end + 1 - start), start));
      rest := suffix;
      found := NextMatch(suffix);
    }
    return Ok(mask);
  }

  // ----- what the mask means -----

  predicate Covers(r: Reading, i: nat) {
    r.Run? && r.start <= i <= r.end
  }

  ghost predicate AllRuns(readings: seq<Reading>) {
    forall r :: r in readings ==> r.Run?
  }

  ghost predicate Covered(readings: seq<Reading>, i: nat) {
    exists r :: r in readings && Covers(r, i)
  }

  /** A bit of the result is set iff it was set before or some range covers it. */
  lemma {:induction false} UnionMeaning(readings: seq<Reading>, mask: Bits)
    requires |mask| == WIDTH
    ensures Union(readings, mask).Mask? <==> AllRuns(readings)
    ensures Union(readings, mask).Mask? ==> forall i :: 0 <= i < WIDTH ==>
      (Union(readings, mask).bits[i] <==> mask[i] || Covered(readings, i))
  {
    if readings != [] {
      var head, tail := readings[0], readings[1..];
      assert readings == [head] + tail;
      if head.Run? {
        UnionMeaning(tail, Or(mask, RunBits(WIDTH, head.start, head.end)));
        forall i: nat ensures Covered(readings, i) <==> Covers(head, i) || Covered(tail, i) {
          if Covers(head, i) {
            assert head in readings;
          }
        }
      } else {
        assert head in readings;
      }
    }
  }

  /** The first range that cannot be read decides the outcome. */
  lemma {:induction false} FirstFailureDecides(readings: seq<Reading>, mask: Bits, k: nat)
    requires |mask| == WIDTH && k < |readings|
    requires !readings[k].Run? && forall j :: 0 <= j < k ==> readings[j].Run?
    ensures Union(readings, mask) == if readings[k].Bad? then Failed(readings[k].fault) else Unspecified
  {
    if k != 0 {
      FirstFailureDecides(readings[1..], Or(mask, RunBits(WIDTH, readings[0].start, readings[0].end)), k - 1);
    }
  }

  /** Order and repetition of ranges do not matter, nor does overlap. */
  lemma SameRangesSameMask(a: string, b: string)
    requires forall r :: r in Readings(a) <==> r in Readings(b)
    requires Parse(a).Mask?
    ensures Parse(b) == Parse(a)
  {
    UnionMeaning(Readings(a), Zeros(WIDTH));
    UnionMeaning(Readings(b), Zeros(WIDTH));
    assert forall i: nat :: Covered(Readings(a), i) <==> Covered(Readings(b), i);
    assert Parse(a).bits == Parse(b).bits;
  }

  // ----- printing a mask and reading it back -----

  /** The last position of the run of set bits that starts at `i`. */
  function RunEnd(m: Bits, i: nat): (e: nat)
    requires i < |m| && m[i]
    ensures i <= e < |m|
    ensures forall j :: i <= j <= e ==> m[j]
    ensures e + 1 < |m| ==> !m[e + 1]
    decreases |m| - i
  {
    if i + 1 < |m| && m[i + 1] then RunEnd(m, i + 1) else i
  }

  /** The maximal runs of set bits from position `i` up. */
  function Runs(m: Bits, i: nat): (runs: seq<(nat, nat)>)
    requires i <= |m|
    ensures forall r :: r in runs ==> i <= r.0 <= r.1 < |m|
    decreases |m| - i
  {
    if i == |m| then []
    else if m[i] then [(i, RunEnd(m, i))] + Runs(m, RunEnd(m, i) + 1)
    else Runs(m, i + 1)
  }

  /** A run as text: `s-e`, or just `s` for a lone bit when `lone` asks for that form. */
  function RunText(run: (nat, nat), lone: bool): string {
    if lone && run.0 == run.1 then Print(run.0, 10) else Print(run.0, 10) + "-" + Print(run.1, 10)
  }

  function RunTexts(runs: seq<(nat, nat)>, lone: bool): (r: seq<string>)
    ensures |r| == |runs|
  {
    if runs == [] then [] else [RunText(runs[0], lone)] + RunTexts(runs[1..], lone)
  }

  /** A mask as text. With `lone`, lone bits appear as the kernel prints them, without a dash. */
  function MaskText(m: Bits, lone: bool): string {
    Join(RunTexts(Runs(m, 0), lone), ",")
  }

  /** How a range of two numbers is read. */
  function NumbersReading(range: (nat, nat)): Reading {
    if range.0 > INT_MAX || range.1 > INT_MAX then Bad(OutOfRange)
    else if range.1 == INT_MAX then Undefined
    else if range.1 > 63 then Bad(InvalidEvent)
    else if range.0 > range.1 + 1 || range.0 > 63 then Undefined
    else Run(range.0, range.1)
  }

  /** What the scanner finds in the text of `runs`. */
  function Found(runs: seq<(nat, nat)>, lone: bool): seq<Reading> {
    if runs == [] then []
    else (if lone && runs[0].0 == runs[0].1 then [] else [NumbersReading(runs[0])]) + Found(runs[1..], lone)
  }

  /** The text is at an item boundary. */
  predicate AtBoundary(rest: string) {
    rest == "" || rest[0] == ','
  }

  lemma {:induction false} ScanPastNumber(digits: string, rest: string)
    requires AllDigits(digits, 10) && AtBoundary(rest)
    ensures NextMatch(digits + rest) == NextMatch(rest)
  {
    if digits == "" {
      assert digits + rest == rest;
    } else {
      RunOfDigits(digits, rest, 10);
      assert (digits + rest)[1..] == digits[1..] + rest;
      ScanPastNumber(digits[1..], rest);
    }
  }

  lemma SplitAfter(a: string, b: string)
    ensures (a + b)[..|a|] == a && (a + b)[|a|..] == b
  {
  }

  lemma SplitAtDash(first: string, after: string)
    ensures var s := first + ("-" + after);
      s[..|first|] == first && s[|first|] == '-' && s[|first| + 1..] == after
  {
  }

  lemma MatchPrinted(first: string, last: string, rest: string)
    requires last != "" && AllDigits(first, 10) && AllDigits(last, 10) && Stops(rest, 10)
    ensures MatchHere(first + ("-" + (last + rest))) == Some((Range(first, last), rest))
  {
    RunOfDigits(first, "-" + (last + rest), 10);
    RunOfDigits(last, rest, 10);
    SplitAtDash(first, last + rest);
    SplitAfter(last, rest);
  }

  lemma ScanRange(first: string, last: string, rest: string)
    requires first != "" && last != "" && AllDigits(first, 10) && AllDigits(last, 10) && AtBoundary(rest)
    ensures NextMatch(first + "-" + last + rest) == Some((Range(first, last), rest))
  {
    MatchPrinted(first, last, rest);
    Regrouped(first, "-", last, rest);
  }

  lemma Regrouped(a: string, b: string, c: string, d: string)
    ensures a + b + c + d == a + (b + (c + d))
  {
  }

  /** A printed range is undefined iff its end is the largest int, or lies in the word while its start is
      64 or more or beyond the position after the end. */
  lemma ReadPrinted(range: (nat, nat))
    ensures Read(Range(Print(range.0, 10), Print(range.1, 10))) == NumbersReading(range)
  {
    StoiOfPrinted(range.0);
    StoiOfPrinted(range.1);
  }

  lemma StoiOfPrinted(n: nat)
    ensures Stoi(Print(n, 10)) == if n <= INT_MAX then Ok(n) else Threw(OutOfRange)
  {
    NumeralOfPrint(n, "");
    assert Print(n, 10) + "" == Print(n, 10);
  }

  /** The scanner at the front of one printed run. */
  lemma ReadingsOfRun(run: (nat, nat), lone: bool, rest: string)
    requires AtBoundary(rest)
    ensures Readings(RunText(run, lone) + rest) == Found([run], lone) + Readings(rest)
  {
    var first, last := Print(run.0, 10), Print(run.1, 10);
    PrintIsDigits(run.0, 10);
    PrintIsDigits(run.1, 10);
    if lone && run.0 == run.1 {
      ScanPastNumber(first, rest);
    } else {
      ScanRange(first, last, rest);
      ReadPrinted(run);
    }
  }

  lemma CommaSkipped(text: string)
    ensures Readings("," + text) == Readings(text)
  {
    assert ("," + text)[1..] == text;
    assert MatchHere("," + text) == None;
    assert NextMatch("," + text) == NextMatch(text);
  }

  lemma FoundStep(runs: seq<(nat, nat)>, lone: bool)
    requires runs != []
    ensures Found(runs, lone) == Found([runs[0]], lone) + Found(runs[1..], lone)
    ensures RunTexts(runs, lone)[1..] == RunTexts(runs[1..], lone)
  {
  }

  lemma {:induction false} ReadingsOfTail(runs: seq<(nat, nat)>, lone: bool)
    ensures Readings(Tail(RunTexts(runs, lone), ",")) == Found(runs, lone)
    ensures AtBoundary(Tail(RunTexts(runs, lone), ","))
    decreases |runs|
  {
    if runs != [] {
      var text, rest := RunText(runs[0], lone), Tail(RunTexts(runs[1..], lone), ",");
      ReadingsOfTail(runs[1..], lone);
      ReadingsOfRun(runs[0], lone, rest);
      CommaSkipped(text + rest);
      FoundStep(runs, lone);
      assert Tail(RunTexts(runs, lone), ",") == "," + (text + rest);
    }
  }

  /** The scanner finds the printed runs, in order, and nothing else. */
  lemma ReadingsOfRuns(runs: seq<(nat, nat)>, lone: bool)
    ensures Readings(Join(RunTexts(runs, lone), ",")) == Found(runs, lone)
  {
    if runs != [] {
      var text, rest := RunText(runs[0], lone), Tail(RunTexts(runs[1..], lone), ",");
      JoinHead(RunTexts(runs, lone), ",");
      FoundStep(runs, lone);
      ReadingsOfTail(runs[1..], lone);
      ReadingsOfRun(runs[0], lone, rest);
      assert Join(RunTexts(runs, lone), ",") == text + rest;
    }
  }

  // ----- what printed ranges mean -----

  /** The range is one the code reads: both ends in the word, the start not beyond the position after the end. */
  predicate Readable(range: (nat, nat)) {
    range.0 <= 63 && range.1 <= 63 && range.0 <= range.1 + 1
  }

  predicate AllReadable(ranges: seq<(nat, nat)>) {
    forall k :: 0 <= k < |ranges| ==> Readable(ranges[k])
  }

  /** The position lies in one of the ranges. */
  predicate WithinSome(ranges: seq<(nat, nat)>, i: nat) {
    exists k :: 0 <= k < |ranges| && ranges[k].0 <= i <= ranges[k].1
  }

  lemma {:induction false} FoundMeaning(ranges: seq<(nat, nat)>, i: nat)
    ensures AllRuns(Found(ranges, false)) <==> AllReadable(ranges)
    ensures AllRuns(Found(ranges, false)) ==> (Covered(Found(ranges, false), i) <==> WithinSome(ranges, i))
    decreases |ranges|
  {
    if ranges != [] {
      var head, tail := ranges[0], ranges[1..];
      FoundMeaning(tail, i);
      FoundStep(ranges, false);
      CoveredAppend(Found([head], false), Found(tail, false), i);
      assert Found([head], false) == [NumbersReading(head)];
      assert NumbersReading(head) in Found([head], false);
      assert forall k :: 0 <= k < |tail| ==> tail[k] == ranges[k + 1];
      assert forall k :: 1 <= k < |ranges| ==> ranges[k] == tail[k - 1];
    }
  }

  /** For any printed ranges in any order, overlapping or not: the text is read iff each range lies in the
      word and does not start beyond the position after its end, and then a bit is set iff a range covers it. */
  lemma PrintedRangesMeaning(ranges: seq<(nat, nat)>)
    ensures var parsed := Parse(Join(RunTexts(ranges, false), ","));
      && (parsed.Mask? <==> AllReadable(ranges))
      && (parsed.Mask? ==> forall i :: 0 <= i < WIDTH ==> (parsed.bits[i] <==> WithinSome(ranges, i)))
  {
    var readings := Found(ranges, false);
    ReadingsOfRuns(ranges, false);
    UnionMeaning(readings, Zeros(WIDTH));
    FoundMeaning(ranges, 0);
    forall i | 0 <= i < WIDTH ensures AllRuns(readings) ==> (Covered(readings, i) <==> WithinSome(ranges, i)) {
      FoundMeaning(ranges, i);
    }
  }

  // ----- maximal runs -----

  /** The runs are proper and end at `limit` or below. */
  predicate Fit(runs: seq<(nat, nat)>, limit: nat) {
    forall k :: 0 <= k < |runs| ==> runs[k].0 <= runs[k].1 <= limit
  }

  /** What the scanner is expected to find in the text of `runs`. */
  function Expected(runs: seq<(nat, nat)>, lone: bool): seq<Reading> {
    if runs == [] then []
    else (if lone && runs[0].0 == runs[0].1 then [] else [Run(runs[0].0, runs[0].1)]) + Expected(runs[1..], lone)
  }

  lemma {:induction false} FoundFits(runs: seq<(nat, nat)>, lone: bool)
    requires Fit(runs, 63)
    ensures Found(runs, lone) == Expected(runs, lone)
  {
    if runs != [] {
      FoundFits(runs[1..], lone);
    }
  }

  /** `m` without the set bits that have no set neighbour. */
  function WithoutLoneBits(m: Bits): (r: Bits)
    ensures |r| == |m|
    ensures forall i :: 0 <= i < |r| ==> r[i] == (m[i] && HasNeighbour(m, i))
  {
    seq(|m|, i requires 0 <= i < |m| => m[i] && HasNeighbour(m, i))
  }

  predicate HasNeighbour(m: Bits, i: nat)
    requires i < |m|
  {
    (i > 0 && m[i - 1]) || (i + 1 < |m| && m[i + 1])
  }

  lemma CoveredAppend(a: seq<Reading>, b: seq<Reading>, k: nat)
    ensures Covered(a + b, k) <==> Covered(a, k) || Covered(b, k)
    ensures AllRuns(a + b) <==> AllRuns(a) && AllRuns(b)
  {
    assert forall r :: r in a + b <==> r in a || r in b;
  }

  lemma CoveredByRun(run: (nat, nat), lone: bool, k: nat)
    ensures Covered(Expected([run], lone), k) <==> run.0 <= k <= run.1 && (lone ==> run.0 != run.1)
  {
    if run.0 <= k <= run.1 && (lone ==> run.0 != run.1) {
      var r := Run(run.0, run.1);
      assert Covers(r, k) && r in Expected([run], lone);
    }
  }

  lemma FirstRunCovers(m: Bits, i: nat, lone: bool, k: nat)
    requires i < |m| && m[i]
    ensures var e := RunEnd(m, i);
      Covered(Expected(Runs(m, i), lone), k) <==>
        (i <= k <= e && (lone ==> i != e)) || Covered(Expected(Runs(m, e + 1), lone), k)
  {
    var run: (nat, nat), rest := (i, RunEnd(m, i)), Runs(m, RunEnd(m, i) + 1);
    CoveredByRun(run, lone, k);
    CoveredAppend(Expected([run], lone), Expected(rest, lone), k);
    assert Runs(m, i) == [run] + rest;
    assert Expected([run] + rest, lone) == Expected([run], lone) + Expected(rest, lone);
  }

  lemma NeighbourInRun(m: Bits, i: nat, k: nat)
    requires i < |m| && m[i] && i <= k <= RunEnd(m, i) && (i > 0 ==> !m[i - 1])
    ensures HasNeighbour(m, k) <==> i != RunEnd(m, i)
  {
  }

  /** The printed runs cover the set bits from `i` up; in the kernel's form, all but the lone ones. */
  lemma {:induction false} RunsCover(m: Bits, i: nat, lone: bool, k: nat)
    requires i <= |m| && k < |m|
    requires 0 < i < |m| ==> !(m[i - 1] && m[i])
    ensures Covered(Expected(Runs(m, i), lone), k) <==> i <= k && m[k] && (lone ==> HasNeighbour(m, k))
    decreases |m| - i
  {
    if i < |m| {
      if m[i] {
        var e := RunEnd(m, i);
        RunsCover(m, e + 1, lone, k);
        FirstRunCovers(m, i, lone, k);
        if i <= k <= e {
          NeighbourInRun(m, i, k);
        }
      } else {
        RunsCover(m, i + 1, lone, k);
      }
    }
  }

  lemma {:induction false} ExpectedAreRuns(runs: seq<(nat, nat)>, lone: bool)
    ensures AllRuns(Expected(runs, lone))
  {
    if runs != [] {
      ExpectedAreRuns(runs[1..], lone);
    }
  }

  lemma ParsePrinted(m: Bits, lone: bool)
    requires |m| == WIDTH
    ensures Parse(MaskText(m, lone)) == Mask(if lone then WithoutLoneBits(m) else m)
  {
    var runs := Runs(m, 0);
    assert Fit(runs, 63) by {
      forall k | 0 <= k < |runs| ensures runs[k].0 <= runs[k].1 <= 63 {
        assert runs[k] in runs;
      }
    }
    ReadingsOfRuns(runs, lone);
    FoundFits(runs, lone);
    ExpectedAreRuns(runs, lone);
    UnionMeaning(Expected(runs, lone), Zeros(WIDTH));
    var want := if lone then WithoutLoneBits(m) else m;
    forall k | 0 <= k < WIDTH ensures Parse(MaskText(m, lone)).bits[k] == want[k] {
      RunsCover(m, 0, lone, k);
    }
    assert Parse(MaskText(m, lone)).bits == want;
  }

  /** Every mask printed as its maximal runs `s-e` is read back, the full word included. */
  lemma MaskRoundTrip(m: Bits)
    requires |m| == WIDTH
    ensures Parse(MaskText(m, false)) == Mask(m)
  {
    ParsePrinted(m, false);
  }

  /** The kernel prints a lone bit without a dash (`config:21`), and such an item is skipped: a mask in
      the kernel's form is read back iff it has no lone bit. */
  lemma KernelFormReadBackIff(m: Bits)
    requires |m| == WIDTH
    ensures Parse(MaskText(m, true)) == Mask(WithoutLoneBits(m))
    ensures Parse(MaskText(m, true)) == Mask(m) <==> forall i :: 0 <= i < WIDTH && m[i] ==> HasNeighbour(m, i)
  {
    ParsePrinted(m, true);
    if forall i :: 0 <= i < WIDTH && m[i] ==> HasNeighbour(m, i) {
      assert WithoutLoneBits(m) == m;
    } else {
      var i :| 0 <= i < WIDTH && m[i] && !HasNeighbour(m, i);
      assert WithoutLoneBits(m)[i] != m[i];
    }
  }

  lemma {:induction false} RunsAfterGap(m: Bits, i: nat, j: nat)
    requires i <= j <= |m| && forall k :: i <= k < j ==> !m[k]
    ensures Runs(m, i) == Runs(m, j)
    decreases j - i
  {
    if i < j {
      RunsAfterGap(m, i + 1, j);
    }
  }

  /** A mask of one bit is printed as its number, and read as the empty mask. */
  lemma LoneBitDropped(n: nat)
    requires n < WIDTH
    ensures MaskText(RunBits(WIDTH, n, n), true) == Print(n, 10)
    ensures Parse(Print(n, 10)) == Mask(Zeros(WIDTH))
  {
    var m := RunBits(WIDTH, n, n);
    RunsAfterGap(m, 0, n);
    assert RunEnd(m, n) == n;
    RunsAfterGap(m, n + 1, WIDTH);
    assert Runs(m, 0) == [(n, n)];
    KernelFormReadBackIff(m);
    assert WithoutLoneBits(m) == Zeros(WIDTH);
  }

  /** For example, `config:21`. */
  lemma LoneBit21Dropped()
    ensures MaskText(RunBits(WIDTH, 21, 21), true) == "21" && Parse("21") == Mask(Zeros(WIDTH))
  {
    LoneBitDropped(21);
    assert Print(21, 10) == "21";
  }

  /** Text without a dash sets nothing. */
  lemma {:induction false} NoDashNoBits(s: string)
    requires '-' !in s
    ensures Parse(s) == Mask(Zeros(WIDTH))
  {
    NoDashNoMatch(s);
  }

  lemma {:induction false} NoDashNoMatch(s: string)
    requires '-' !in s
    ensures NextMatch(s).None?
  {
    if s != [] {
      NoDashNoMatch(s[1..]);
    }
  }

  // ----- what the scanner finds in any text -----

  /** A dash with a digit after it. */
  predicate DashAt(s: string, i: nat) {
    i + 1 < |s| && s[i] == '-' && DigitValue(s[i + 1]) < 10
  }

  /** There is a match iff some dash has a digit after it. */
  lemma {:induction false} MatchIffDash(s: string)
    ensures NextMatch(s).Some? <==> exists i: nat :: DashAt(s, i)
  {
    if s != [] {
      MatchIffDash(s[1..]);
      if MatchHere(s).Some? {
        assert DashAt(s, DigitRun(s, 10));
      }
      if i: nat :| DashAt(s, i) {
        if i > 0 {
          assert DashAt(s[1..], i - 1);
        }
      }
      if i: nat :| DashAt(s[1..], i) {
        assert DashAt(s, i + 1);
      }
    }
  }

  lemma {:induction false} RunEndsWithin(front: string, more: string)
    requires front != "" && DigitValue(front[|front| - 1]) >= 10
    ensures DigitRun(front + more, 10) < |front|
  {
    assert (front + more)[1..] == front[1..] + more;
    if DigitValue(front[0]) < 10 {
      RunEndsWithin(front[1..], more);
    }
  }

  /** The match is at the first dash that has a digit after it: its groups are all digits just before that
      dash, possibly none, and all digits after it. */
  lemma {:induction false} FirstDashMatched(skip: string, first: string, last: string, rest: string)
    requires AllDigits(first, 10) && AllDigits(last, 10) && last != "" && Stops(rest, 10)
    requires skip == "" || DigitValue(skip[|skip| - 1]) >= 10
    requires forall i: nat :: i < |skip| ==> !DashAt(skip + (first + ("-" + (last + rest))), i)
    ensures NextMatch(skip + (first + ("-" + (last + rest)))) == Some((Range(first, last), rest))
  {
    var found := first + ("-" + (last + rest));
    var text := skip + found;
    if skip == "" {
      assert text == found;
      MatchPrinted(first, last, rest);
    } else {
      RunEndsWithin(skip, found);
      assert !DashAt(text, DigitRun(text, 10));
      assert text[1..] == skip[1..] + found;
      forall i: nat | i < |skip| - 1 ensures !DashAt(text[1..], i) {
        assert !DashAt(text, i + 1);
      }
      FirstDashMatched(skip[1..], first, last, rest);
    }
  }

  /** A first range without a start, as in `config:-5`, is an invalid argument to `stoi`. */
  lemma MissingStartRaises(skip: string, last: string, rest: string)
    requires AllDigits(last, 10) && last != "" && Stops(rest, 10)
    requires skip == "" || DigitValue(skip[|skip| - 1]) >= 10
    requires forall i: nat :: i < |skip| ==> !DashAt(skip + ("-" + (last + rest)), i)
    ensures Parse(skip + ("-" + (last + rest))) == Failed(InvalidArgument)
  {
    assert "" + ("-" + (last + rest)) == "-" + (last + rest);
    FirstDashMatched(skip, "", last, rest);
    assert Readings(skip + ("-" + (last + rest)))[0] == Bad(InvalidArgument);
  }

  lemma {:induction false} FoundAt(ranges: seq<(nat, nat)>, k: nat)
    requires k < |ranges|
    ensures |Found(ranges, false)| == |ranges|
    ensures Found(ranges, false)[k] == NumbersReading(ranges[k])
  {
    if k > 0 {
      FoundAt(ranges[1..], k - 1);
    } else if |ranges| > 1 {
      FoundAt(ranges[1..], 0);
    }
  }

  /** The first printed range that is not readable decides how reading ends: out of range of an int, an end
      beyond the word, or undefined. */
  lemma FirstBadRangeDecides(ranges: seq<(nat, nat)>, k: nat)
    requires k < |ranges| && AllReadable(ranges[..k]) && !Readable(ranges[k])
    ensures var (start, end) := ranges[k];
      Parse(Join(RunTexts(ranges, false), ",")) ==
        if start >= 0x8000_0000 || end >= 0x8000_0000 then Failed(OutOfRange)
        else if 63 < end < 0x7fff_ffff then Failed(InvalidEvent)
        else Unspecified
  {
    ReadingsOfRuns(ranges, false);
    BadNumbers(ranges[k]);
    FirstBadReading(ranges, k);
  }

  lemma FirstBadReading(ranges: seq<(nat, nat)>, k: nat)
    requires k < |ranges| && AllReadable(ranges[..k]) && !NumbersReading(ranges[k]).Run?
    ensures var bad := NumbersReading(ranges[k]);
      Union(Found(ranges, false), Zeros(WIDTH)) == if bad.Bad? then Failed(bad.fault) else Unspecified
  {
    FoundAt(ranges, k);
    forall j | 0 <= j < k ensures Found(ranges, false)[j].Run? {
      FoundAt(ranges, j);
      assert ranges[..k][j] == ranges[j];
    }
    FirstFailureDecides(Found(ranges, false), Zeros(WIDTH), k);
  }

  lemma BadNumbers(range: (nat, nat))
    ensures NumbersReading(range).Run? <==> Readable(range)
    ensures NumbersReading(range) == Bad(OutOfRange) <==> range.0 >= 0x8000_0000 || range.1 >= 0x8000_0000
    ensures NumbersReading(range) == Bad(InvalidEvent) <==> range.0 < 0x8000_0000 && 63 < range.1 < 0x7fff_ffff
    ensures NumbersReading(range).Bad? ==> NumbersReading(range).fault in {OutOfRange, InvalidEvent}
  {
  }
}
