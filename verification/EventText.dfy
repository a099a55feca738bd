/** Event descriptions and formats as text: what is printed is what gets encoded. */
module EventText {
  import opened Outcomes
  import opened Words
  import opened Deposit
  import opened Numerals
  import opened Bitmask
  import opened EventString
  import opened Text

  // ----- terms -----

  /** A term as it is written: a name, and a value unless it is left out. */
  datatype Term = Term(name: string, value: Option<string>)

  predicate WellFormed(t: Term) {
    && t.name != "" && (forall i :: 0 <= i < |t.name| ==> !IsSeparator(t.name[i]))
    && (t.value.Some? ==> t.value.value != "" && ',' !in t.value.value)
  }

  function TermText(t: Term): string {
    if t.value.None? then t.name else t.name + "=" + t.value.value
  }

  function PairOf(t: Term): Pair {
    Pair(t.name, if t.value.None? then "0x1" else t.value.value)
  }

  function TermTexts(terms: seq<Term>): (r: seq<string>)
    ensures |r| == |terms|
    ensures forall k :: 0 <= k < |terms| ==> r[k] == TermText(terms[k])
  {
    seq(|terms|, k requires 0 <= k < |terms| => TermText(terms[k]))
  }

  function PairsOf(terms: seq<Term>): (r: seq<Pair>)
    ensures |r| == |terms|
    ensures forall k :: 0 <= k < |terms| ==> r[k] == PairOf(terms[k])
  {
    seq(|terms|, k requires 0 <= k < |terms| => PairOf(terms[k]))
  }

  function EventTextOf(terms: seq<Term>): string {
    Join(TermTexts(terms), ",")
  }

  lemma {:induction false} TermLengthOf(name: string, rest: string)
    requires forall i :: 0 <= i < |name| ==> !IsSeparator(name[i])
    requires rest == "" || IsSeparator(rest[0])
    ensures TermLength(name + rest) == |name|
  {
    if name == "" {
      assert name + rest == rest;
    } else {
      assert (name + rest)[1..] == name[1..] + rest;
      TermLengthOf(name[1..], rest);
    }
  }

  lemma {:induction false} ValueLengthOf(value: string, rest: string)
    requires ',' !in value && AtBoundary(rest)
    ensures ValueLength(value + rest) == |value|
  {
    if value == "" {
      assert value + rest == rest;
    } else {
      assert (value + rest)[1..] == value[1..] + rest;
      ValueLengthOf(value[1..], rest);
    }
  }

  /** The text after the term, with its value if it has one. */
  function AfterTerm(value: Option<string>, rest: string): string {
    if value.None? then rest else "=" + value.value + rest
  }

  /** `text` starts with separators, then a longest term, then `=` and a longest value if one is there. An
      equals sign without a value is not taken. */
  predicate StartsWith(text: string, skipped: string, term: string, value: Option<string>, rest: string) {
    && text == skipped + (term + AfterTerm(value, rest))
    && (forall i :: 0 <= i < |skipped| ==> skipped[i] == '=' || skipped[i] == ',')
    && term != "" && '=' !in term && ',' !in term && Follows(value, rest)
  }

  predicate Follows(value: Option<string>, rest: string) {
    match value
    case Some(v) => v != "" && ',' !in v && (rest == "" || rest[0] == ',')
    case None => rest == "" || rest[0] == ',' || (rest[0] == '=' && (|rest| == 1 || rest[1] == ','))
  }

  lemma {:induction false} SeparatorsSkipped(skipped: string, s: string)
    requires forall i :: 0 <= i < |skipped| ==> skipped[i] == '=' || skipped[i] == ','
    requires s == "" || !IsSeparator(s[0])
    ensures SkipSeparators(skipped + s) == s
  {
    if skipped == "" {
      assert skipped + s == s;
    } else {
      assert (skipped + s)[1..] == skipped[1..] + s;
      SeparatorsSkipped(skipped[1..], s);
    }
  }

  /** In any text, the first match is what the text starts with; a value left out is `0x1`. */
  lemma FirstMatch(text: string, skipped: string, term: string, value: Option<string>, rest: string)
    requires StartsWith(text, skipped, term, value, rest)
    ensures NextPair(text) == Some((Pair(term, if value.Some? then value.value else "0x1"), rest))
  {
    var s := term + AfterTerm(value, rest);
    assert forall i :: 0 <= i < |term| ==> term[i] in term;
    SeparatorsSkipped(skipped, s);
    SeparatorsSkipped("", s);
    assert "" + s == s;
    if value.Some? {
      MatchWithValue(term, value.value, rest);
    } else {
      MatchWithoutValue(term, rest);
    }
  }

  lemma MatchWithValue(term: string, v: string, rest: string)
    requires term != "" && (forall i :: 0 <= i < |term| ==> !IsSeparator(term[i])) && Follows(Some(v), rest)
    ensures NextPair(term + AfterTerm(Some(v), rest)) == Some((Pair(term, v), rest))
  {
    var s := term + AfterTerm(Some(v), rest);
    TermLengthOf(term, AfterTerm(Some(v), rest));
    assert AfterTerm(Some(v), rest) == "=" + (v + rest);
    assert s[..|term|] == term && s[|term| + 1..] == v + rest;
    ValueLengthOf(v, rest);
    assert (v + rest)[..|v|] == v && (v + rest)[|v|..] == rest;
  }

  lemma MatchWithoutValue(term: string, rest: string)
    requires term != "" && (forall i :: 0 <= i < |term| ==> !IsSeparator(term[i])) && Follows(None, rest)
    ensures NextPair(term + AfterTerm(None, rest)) == Some((Pair(term, "0x1"), rest))
  {
    var s := term + rest;
    TermLengthOf(term, rest);
    assert s[..|term|] == term && s[|term|..] == rest;
    if rest != "" && rest[0] == '=' {
      assert s[|term| + 1..] == rest[1..];
    }
  }

  lemma AfterTermSplits(s: string) returns (value: Option<string>, rest: string)
    requires s == "" || IsSeparator(s[0])
    ensures s == AfterTerm(value, rest) && Follows(value, rest)
  {
    value, rest := None, s;
    if |s| > 1 && s[0] == '=' && s[1] != ',' {
      var t := s[1..];
      ValueFront(t);
      value, rest := Some(t[..ValueLength(t)]), t[ValueLength(t)..];
      assert s == "=" + t;
      assert t == value.value + rest;
    }
  }

  /** Every text is either separators only, and then has no match, or starts with a term. */
  lemma EveryTextStarts(text: string) returns (skipped: string, term: string, value: Option<string>, rest: string)
    ensures if forall i :: 0 <= i < |text| ==> text[i] == '=' || text[i] == ',' then NextPair(text).None?
      else StartsWith(text, skipped, term, value, rest)
  {
    var s := SkipSeparators(text);
    skipped := SkippedFront(text);
    term, value, rest := "", None, "";
    if s != "" {
      assert text[|skipped|] == s[0];
      var n := TermLength(s);
      TermFront(s);
      term := s[..n];
      value, rest := AfterTermSplits(s[n..]);
      assert s == term + s[n..];
    }
  }

  lemma {:induction false} SkippedFront(text: string) returns (skipped: string)
    ensures text == skipped + SkipSeparators(text)
    ensures forall i :: 0 <= i < |skipped| ==> skipped[i] == '=' || skipped[i] == ','
  {
    skipped := "";
    if text != "" && IsSeparator(text[0]) {
      var more := SkippedFront(text[1..]);
      skipped := [text[0]] + more;
    }
  }

  lemma {:induction false} TermFront(s: string)
    ensures '=' !in s[..TermLength(s)] && ',' !in s[..TermLength(s)]
    ensures TermLength(s) < |s| ==> IsSeparator(s[TermLength(s)])
  {
    if s != "" && !IsSeparator(s[0]) {
      TermFront(s[1..]);
      assert s[..TermLength(s)] == [s[0]] + s[1..][..TermLength(s[1..])];
    }
  }

  lemma {:induction false} ValueFront(s: string)
    ensures ',' !in s[..ValueLength(s)]
    ensures ValueLength(s) < |s| ==> s[ValueLength(s)] == ','
  {
    if s != "" && s[0] != ',' {
      ValueFront(s[1..]);
      assert s[..ValueLength(s)] == [s[0]] + s[1..][..ValueLength(s[1..])];
    }
  }

  lemma FirstTerm(t: Term, rest: string)
    requires WellFormed(t) && AtBoundary(rest)
    ensures NextPair(TermText(t) + rest) == Some((PairOf(t), rest))
  {
    var text := TermText(t) + rest;
    assert text == "" + (t.name + AfterTerm(t.value, rest));
    FirstMatch(text, "", t.name, t.value, rest);
  }

  lemma LeadingCommaSkipped(text: string)
    ensures NextPair("," + text) == NextPair(text)
  {
    assert ("," + text)[1..] == text;
    assert SkipSeparators("," + text) == SkipSeparators(text);
  }

  lemma {:induction false} PairsOfTail(terms: seq<Term>)
    requires forall t :: t in terms ==> WellFormed(t)
    ensures Pairs(Tail(TermTexts(terms), ",")) == PairsOf(terms)
    ensures AtBoundary(Tail(TermTexts(terms), ","))
  {
    if terms != [] {
      assert TermTexts(terms)[1..] == TermTexts(terms[1..]);
      var rest := Tail(TermTexts(terms[1..]), ",");
      PairsOfTail(terms[1..]);
      FirstTerm(terms[0], rest);
      LeadingCommaSkipped(TermText(terms[0]) + rest);
    }
  }

  /** The loop visits exactly the printed terms, in order, with `0x1` for the values left out. */
  lemma TermListRoundTrip(terms: seq<Term>)
    requires forall t :: t in terms ==> WellFormed(t)
    ensures Pairs(EventTextOf(terms)) == PairsOf(terms)
  {
    if terms != [] {
      JoinHead(TermTexts(terms), ",");
      assert TermTexts(terms)[1..] == TermTexts(terms[1..]);
      PairsOfTail(terms[1..]);
      FirstTerm(terms[0], Tail(TermTexts(terms[1..]), ","));
    }
  }

  // ----- a term given twice -----

  lemma TopBit(w: Word)
    ensures w <= LONG_MAX <==> !BitsOf(w)[63]
  {
    Pow2Width();
    var half := Pow2(63);
    assert 2 * half == MODULUS;
    DropDivides(w, 63, 1);
    var q := Quotient(w, half);
    assert LowBits(q, 1)[0] == BitsOf(w)[63];
    if w < half {
      DivModUnique(w, half, 0, w);
    } else {
      DivModUnique(w, half, 1, w - half);
    }
  }

  lemma OrFitsLong(a: Word, b: Word)
    ensures BitOr(a, b) <= LONG_MAX <==> a <= LONG_MAX && b <= LONG_MAX
  {
    TopBit(a);
    TopBit(b);
    TopBit(BitOr(a, b));
  }

  function HexTerm(name: string, value: Word): Term {
    Term(name, Some("0x" + Print(value, 16)))
  }

  lemma PairsSpliced(u: seq<Term>, p: Term, v: seq<Term>, q: Term, w: seq<Term>)
    ensures PairsOf(u + [p] + v + [q] + w) == PairsOf(u) + [PairOf(p)] + PairsOf(v) + [PairOf(q)] + PairsOf(w)
    ensures PairsOf(u + [p] + v + w) == PairsOf(u) + [PairOf(p)] + PairsOf(v) + PairsOf(w)
  {
  }

  lemma MergedValues(name: string, a: Word, b: Word)
    requires a <= LONG_MAX && b <= LONG_MAX
    ensures Merges(PairOf(HexTerm(name, a)), PairOf(HexTerm(name, b)), PairOf(HexTerm(name, BitOr(a, b))))
  {
    OrFitsLong(a, b);
    forall x: Word | x == a || x == b || x == BitOr(a, b) ensures Stol("0x" + Print(x, 16)) == Ok(x) && ToWord(x) == x {
      StolOfHex(x);
      SmallRemainder(x, MODULUS);
    }
  }

  /** On printed text: giving a term the values `a` and `b`, anywhere among other terms, encodes as giving
      it the value `a | b` once. */
  lemma PrintedTermGivenTwice(c: Configuration, formats: map<string, string>, name: string, a: Word, b: Word,
                              u: seq<Term>, v: seq<Term>, w: seq<Term>)
    requires forall t :: t in u + [HexTerm(name, a)] + v + [HexTerm(name, b)] + w ==> WellFormed(t)
    ensures var twice := EncodeText(c, EventTextOf(u + [HexTerm(name, a)] + v + [HexTerm(name, b)] + w), formats);
      var once := EncodeText(c, EventTextOf(u + [HexTerm(name, BitOr(a, b))] + v + w), formats);
      (twice.1.Finished? <==> once.1.Finished?) && (twice.1.Finished? ==> twice == once)
  {
    var p, q, r := HexTerm(name, a), HexTerm(name, b), HexTerm(name, BitOr(a, b));
    var twice, once := u + [p] + v + [q] + w, u + [r] + v + w;
    assert p in twice;
    HexTermWellFormed(name, BitOr(a, b));
    forall t | t in once ensures WellFormed(t) {
      assert t == r || t in twice;
    }
    TermListRoundTrip(twice);
    TermListRoundTrip(once);
    PairsSpliced(u, p, v, q, w);
    PairsSpliced(u, r, v, q, w);
    OrFitsLong(a, b);
    if a <= LONG_MAX && b <= LONG_MAX {
      MergedValues(name, a, b);
      TermGivenTwice(c, EventTextOf(twice), EventTextOf(once), formats,
                     PairsOf(u), PairOf(p), PairsOf(v), PairOf(q), PairsOf(w), PairOf(r));
    } else {
      TooLargeRaises(c, twice, name, if a <= LONG_MAX then b else a, formats);
      TooLargeRaises(c, once, name, BitOr(a, b), formats);
    }
  }

  lemma TooLargeRaises(c: Configuration, terms: seq<Term>, name: string, value: Word, formats: map<string, string>)
    requires HexTerm(name, value) in terms && value > LONG_MAX
    requires forall t :: t in terms ==> WellFormed(t)
    ensures !EncodeText(c, EventTextOf(terms), formats).1.Finished?
  {
    var k :| 0 <= k < |terms| && terms[k] == HexTerm(name, value);
    TermListRoundTrip(terms);
    StolOfHex(value);
    var fields := Fields(PairsOf(terms), formats);
    NotFinished(c, fields, fields[k]);
  }

  lemma HexTermWellFormed(name: string, value: Word)
    requires name != "" && forall i :: 0 <= i < |name| ==> !IsSeparator(name[i])
    ensures WellFormed(HexTerm(name, value))
  {
    PrintIsDigits(value, 16);
    var digits := Print(value, 16);
    assert forall i :: 0 <= i < |digits| ==> digits[i] != ',';
    assert ',' !in "0x";
  }

  // ----- formats -----

  function TargetName(t: Target): string {
    match t
    case Config => "config"
    case Config1 => "config1"
    case Ignored => "config2"
  }

  function FormatText(t: Target, mask: Word): string {
    TargetName(t) + ":" + MaskText(BitsOf(mask), false)
  }

  lemma {:induction false} ColonAfter(name: string, rest: string)
    requires ':' !in name
    ensures Colon(name + ":" + rest) == |name|
  {
    var s := name + ":" + rest;
    if name != "" {
      assert s[1..] == name[1..] + ":" + rest;
      ColonAfter(name[1..], rest);
    }
  }

  lemma FormatRoundTrip(t: Target, mask: Word)
    ensures FormatOf(FormatText(t, mask)) == Format(t, mask)
  {
    var name, text := TargetName(t), MaskText(BitsOf(mask), false);
    ColonAfter(name, text);
    var s := FormatText(t, mask);
    assert s[..|name|] == name && s[|name| + 1..] == text;
    MaskRoundTrip(BitsOf(mask));
    SameBits(FromBits(BitsOf(mask)), mask);
  }

  /** A format file with any target name before its first colon: the ranges after the colon decide the mask
      or the fault, and only `config` and `config1` name a word. */
  lemma FormatReads(name: string, ranges: string)
    requires ':' !in name
    ensures var format := FormatOf(name + ":" + ranges);
      match Parse(ranges)
      case Failed(f) => format == Malformed(f)
      case Unspecified => format == Unreadable
      case Mask(bits) =>
        && format.Format? && BitsOf(format.mask) == bits
        && format.target == (if name == "config" then Config else if name == "config1" then Config1 else Ignored)
  {
    ColonAfter(name, ranges);
    var s := name + ":" + ranges;
    assert s[..|name|] == name && s[|name| + 1..] == ranges;
  }

  // ----- from text to words and back -----

  /** How a value is written: not at all, or as a number with a sign in one of `stol`'s spellings. */
  datatype Value = Absent | Written(sign: string, n: nat, style: Style)

  predicate Writable(v: Value) {
    v.Written? ==> v.sign in {"", "+", "-"} && Ends(v.n, v.style, "")
  }

  /** The number meant: a term without a value sets 1. */
  function Amount(v: Value): int {
    match v
    case Absent => 1
    case Written(sign, n, _) => if sign == "-" then -(n as int) else n
  }

  /** The value is a 64-bit long. */
  predicate Fits(v: Value) {
    -0x8000_0000_0000_0000 <= Amount(v) <= 0x7fff_ffff_ffff_ffff
  }

  /** The number as an unsigned word. */
  function AsWord(v: Value): Word {
    Amount(v) % 0x1_0000_0000_0000_0000
  }

  function ValueText(v: Value): Option<string> {
    match v
    case Absent => None
    case Written(sign, n, style) => Some(sign + Spelled(n, style))
  }

  /** A field an event sets: its name, where it lives, and its value. */
  datatype Setting = Setting(name: string, target: Target, mask: Word, value: Value)

  /** The setting has a term name, and the format file of that name denotes its target and mask. */
  predicate Proper(s: Setting, formats: map<string, string>) {
    && s.name != "" && (forall i :: 0 <= i < |s.name| ==> !IsSeparator(s.name[i]))
    && s.name in formats && FormatOf(formats[s.name]) == Format(s.target, s.mask)
    && Writable(s.value)
  }

  ghost predicate AllProper(settings: seq<Setting>, formats: map<string, string>) {
    forall s {:trigger Proper(s, formats)} :: s in settings ==> Proper(s, formats)
  }

  /** The printed format is one that serves. */
  lemma PrintedFormatServes(s: Setting, formats: map<string, string>)
    requires s.name != "" && (forall i :: 0 <= i < |s.name| ==> !IsSeparator(s.name[i]))
    requires s.name in formats && formats[s.name] == FormatText(s.target, s.mask) && Writable(s.value)
    ensures Proper(s, formats)
  {
    FormatRoundTrip(s.target, s.mask);
  }

  function SettingTerm(s: Setting): Term {
    Term(s.name, ValueText(s.value))
  }

  function SettingTerms(settings: seq<Setting>): (r: seq<Term>)
    ensures |r| == |settings|
    ensures forall k :: 0 <= k < |settings| ==> r[k] == SettingTerm(settings[k])
  {
    seq(|settings|, k requires 0 <= k < |settings| => SettingTerm(settings[k]))
  }

  /** The field a setting turns into; `stol` rejects a value that is no long. */
  function WrittenField(s: Setting): Field {
    if Fits(s.value) then Field(s.target, AsWord(s.value), s.mask) else Faulty(OutOfRange)
  }

  lemma SettingField(s: Setting, formats: map<string, string>)
    requires Proper(s, formats)
    ensures FieldOf(PairOf(SettingTerm(s)), formats) == WrittenField(s)
  {
    ValueRead(s.value);
  }

  /** A value is read as the number it means; one left out is 1. */
  lemma ValueRead(v: Value)
    requires Writable(v)
    ensures Stol(if ValueText(v).Some? then ValueText(v).value else "0x1") ==
      if Fits(v) then Ok(Amount(v)) else Threw(OutOfRange)
  {
    match v
    case Absent =>
      StolOfHex(1);
      assert Print(1, 16) == "1";
    case Written(sign, n, style) =>
      StolOfSpelled("", sign, n, style, "");
      assert "" + (sign + (Spelled(n, style) + "")) == sign + Spelled(n, style);
  }

  lemma SettingTermWellFormed(s: Setting, formats: map<string, string>)
    requires Proper(s, formats)
    ensures WellFormed(SettingTerm(s))
  {
    if s.value.Written? {
      var text := Spelled(s.value.n, s.value.style);
      SpelledWithoutComma(s.value.n, s.value.style);
      assert forall i :: 0 <= i < |s.value.sign| ==> s.value.sign[i] != ',';
      assert forall c :: c in s.value.sign + text ==> c in s.value.sign || c in text;
    }
  }

  lemma SpelledWithoutComma(n: nat, style: Style)
    requires Ends(n, style, "")
    ensures Spelled(n, style) != "" && ',' !in Spelled(n, style)
  {
    match style
    case Decimal => DigitsWithoutComma(n, 10);
    case Octal =>
      DigitsWithoutComma(n, 8);
      assert forall c :: c in "0" + Print(n, 8) ==> c == '0' || c in Print(n, 8);
    case Hexadecimal(mark, capital) =>
      HexDigitsDenote(n, capital);
      var digits := HexDigits(n, capital);
      assert forall i :: 0 <= i < |digits| ==> digits[i] != ',';
      assert forall c :: c in ['0', mark] + digits ==> c == '0' || c == mark || c in digits;
  }

  lemma DigitsWithoutComma(n: nat, b: nat)
    requires IsBase(b)
    ensures ',' !in Print(n, b)
  {
    PrintIsDigits(n, b);
    assert forall i :: 0 <= i < |Print(n, b)| ==> Print(n, b)[i] != ',';
  }

  lemma {:induction false} SettingFields(settings: seq<Setting>, formats: map<string, string>)
    requires AllProper(settings, formats)
    ensures var fields := Fields(Pairs(EventTextOf(SettingTerms(settings))), formats);
      && |fields| == |settings|
      && forall k :: 0 <= k < |settings| ==> fields[k] == WrittenField(settings[k])
  {
    var terms := SettingTerms(settings);
    forall t | t in terms ensures WellFormed(t) {
      var k :| 0 <= k < |terms| && terms[k] == t;
      assert Proper(settings[k], formats);
      SettingTermWellFormed(settings[k], formats);
    }
    TermListRoundTrip(terms);
    forall k | 0 <= k < |settings|
      ensures FieldOf(PairsOf(terms)[k], formats) == WrittenField(settings[k])
    {
      assert Proper(settings[k], formats);
      SettingField(settings[k], formats);
    }
  }

  /** The masks of different settings for the same word share no bit. */
  ghost predicate NoOverlap(settings: seq<Setting>) {
    forall j, k :: 0 <= j < k < |settings| && settings[j].target == settings[k].target != Ignored ==>
      Disjoint(settings[j].mask, settings[k].mask)
  }

  /** Every setting is found under its mask, modulo what the mask holds, and nothing else is set. */
  ghost predicate Holds(c: Configuration, settings: seq<Setting>) {
    && (forall k :: 0 <= k < |settings| && settings[k].target != Ignored ==>
          Extracted(WordAt(c, settings[k].target), settings[k].mask)
            == AsWord(settings[k].value) % Capacity(settings[k].mask))
    && (forall t, i :: t != Ignored && 0 <= i < WIDTH && BitsOf(WordAt(c, t))[i] ==>
          exists s :: s in settings && s.target == t && BitsOf(s.mask)[i])
  }

  /** End to end: write any settings with disjoint masks as an event description, with values in any spelling
      or left out, next to format descriptions that denote their targets and masks, as printed ones do. If
      every value is a long, encoding the text succeeds and the two words hold exactly the settings; otherwise
      it throws. */
  lemma {:induction false} TextToWordsAndBack(settings: seq<Setting>, formats: map<string, string>)
    requires AllProper(settings, formats)
    requires NoOverlap(settings)
    ensures var (final, ending) := EncodeText(Configuration(0, 0), EventTextOf(SettingTerms(settings)), formats);
      if forall s :: s in settings ==> Fits(s.value) then ending == Finished && Holds(final, settings)
      else ending == Raised(OutOfRange)
  {
    var fields := Fields(Pairs(EventTextOf(SettingTerms(settings))), formats);
    SettingFields(settings, formats);
    EncodeMeaning(Configuration(0, 0), fields, Config, 0);
    AllWritten(settings, fields);
    OnlyFault(Configuration(0, 0), fields, OutOfRange);
    if AllFields(fields) {
      SettingsHold(settings, fields);
    }
  }

  lemma {:induction false} AllWritten(settings: seq<Setting>, fields: seq<Field>)
    requires |fields| == |settings|
    requires forall k :: 0 <= k < |settings| ==> fields[k] == WrittenField(settings[k])
    ensures AllFields(fields) <==> forall s :: s in settings ==> Fits(s.value)
    ensures AllFields(fields) ==> forall k :: 0 <= k < |settings| ==>
      fields[k] == Field(settings[k].target, AsWord(settings[k].value), settings[k].mask)
  {
    forall k | 0 <= k < |settings| ensures settings[k] in settings && fields[k] in fields {
    }
  }

  lemma {:induction false} SettingsHold(settings: seq<Setting>, fields: seq<Field>)
    requires NoOverlap(settings) && |fields| == |settings|
    requires forall k :: 0 <= k < |settings| ==>
      fields[k] == Field(settings[k].target, AsWord(settings[k].value), settings[k].mask)
    requires Encode(Configuration(0, 0), fields).1.Finished?
    ensures Holds(Encode(Configuration(0, 0), fields).0, settings)
  {
    var c0 := Configuration(0, 0);
    var final := Encode(c0, fields).0;
    ZeroLowBits(WIDTH);
    forall k | 0 <= k < |settings| && settings[k].target != Ignored
      ensures Extracted(WordAt(final, settings[k].target), settings[k].mask)
           == AsWord(settings[k].value) % Capacity(settings[k].mask)
    {
      FieldsReadBack(c0, fields, k);
    }
    forall t, i | t != Ignored && 0 <= i < WIDTH && BitsOf(WordAt(final, t))[i]
      ensures exists s :: s in settings && s.target == t && BitsOf(s.mask)[i]
    {
      NothingOutside(fields, t, i);
      var f :| f in fields && f.Field? && f.target == t && BitsOf(f.mask)[i];
      var k :| 0 <= k < |fields| && fields[k] == f;
      assert settings[k] in settings;
    }
  }

  /** From zero, every set bit lies under the mask of some field. */
  lemma {:induction false} NothingOutside(fields: seq<Field>, t: Target, i: nat)
    requires t != Ignored && i < WIDTH && Encode(Configuration(0, 0), fields).1.Finished?
    requires BitsOf(WordAt(Encode(Configuration(0, 0), fields).0, t))[i]
    ensures exists f :: f in fields && f.Field? && f.target == t && BitsOf(f.mask)[i]
  {
    ZeroLowBits(WIDTH);
    if forall f :: f in fields && f.Field? && f.target == t ==> !BitsOf(f.mask)[i] {
      OutsideUnchanged(Configuration(0, 0), fields, t, i);
    }
  }
}
