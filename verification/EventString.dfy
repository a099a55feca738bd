/** The event description of a PMU, such as `event=0x2e,umask=0x41`: its terms, and the configuration
    words they encode. */
module EventString {
  import opened Outcomes
  import opened Words
  import opened Deposit
  import opened Numerals
  import opened Bitmask

  /** One match of the term expression, the default value filled in. */
  datatype Pair = Pair(term: string, value: string)

  const DEFAULT_VALUE := "0x1"

  predicate IsSeparator(c: char) {
    c == '=' || c == ','
  }

  function SkipSeparators(s: string): (r: string)
    ensures |r| <= |s|
    ensures r == "" || !IsSeparator(r[0])
  {
    if s != "" && IsSeparator(s[0]) then SkipSeparators(s[1..]) else s
  }

  /** The length of the longest front of `s` without separators. */
  function TermLength(s: string): (n: nat)
    ensures n <= |s|
    ensures s != "" && !IsSeparator(s[0]) ==> n > 0
  {
    if s == "" || IsSeparator(s[0]) then 0 else 1 + TermLength(s[1..])
  }

  /** The length of the longest front of `s` without commas. */
  function ValueLength(s: string): (n: nat)
    ensures n <= |s|
  {
    if s == "" || s[0] == ',' then 0 else 1 + ValueLength(s[1..])
  }

  /** The leftmost match of `([^=,]+)(?:=([^,]+))?` in `text`, with the text after it. */
  function NextPair(text: string): (m: Option<(Pair, string)>)
    ensures m.Some? ==> |m.value.1| < |text|
  {
    var s := SkipSeparators(text);
    if s == "" then None
    else
      var n := TermLength(s);
      if n < |s| && s[n] == '=' && ValueLength(s[n + 1..]) > 0 then
        var after := s[n + 1..];
        var k := ValueLength(after);
        Some((Pair(s[..n], after[..k]), after[k..]))
      else
        Some((Pair(s[..n], DEFAULT_VALUE), s[n..]))
  }

  /** The pairs the search-and-suffix loop visits. */
  function Pairs(text: string): seq<Pair>
    decreases |text|
  {
    match NextPair(text)
    case None => []
    case Some((pair, rest)) => [pair] + Pairs(rest)
  }

  // ----- one term -----

  datatype Target = Config | Config1 | Ignored

  function TargetOf(name: string): Target {
    if name == "config" then Config else if name == "config1" then Config1 else Ignored
  }

  /** Where the first colon is, or the length of the text. */
  function Colon(s: string): (n: nat)
    ensures n <= |s|
    ensures n < |s| ==> s[n] == ':'
    ensures ':' !in s[..n]
  {
    if s == "" || s[0] == ':' then 0 else 1 + Colon(s[1..])
  }

  /** A format description `<target>:<ranges>`. */
  datatype Format = Format(target: Target, mask: Word) | Malformed(fault: Fault) | Unreadable

  function FormatOf(format: string): Format {
    var colon := Colon(format);
    if colon == |format| then Malformed(InvalidEvent)
    else
      match Parse(format[colon + 1..])
      case Failed(f) => Malformed(f)
      case Unspecified => Unreadable
      case Mask(bits) => Format(TargetOf(format[..colon]), FromBits(bits))
  }

  /** What one term asks for: deposit `value` under `mask` in the target word. */
  datatype Field = Field(target: Target, value: Word, mask: Word) | Faulty(fault: Fault) | Undetermined

  /** A signed long converted to `std::uint64_t`. */
  function ToWord(n: int): Word {
    n % MODULUS
  }

  function FieldOf(pair: Pair, formats: map<string, string>): Field {
    if pair.term !in formats then Faulty(InvalidEvent)
    else
      match Stol(pair.value)
      case Threw(f) => Faulty(f)
      case Ok(n) => FieldFor(ToWord(n), FormatOf(formats[pair.term]))
  }

  function FieldFor(value: Word, format: Format): Field {
    match format
    case Malformed(f) => Faulty(f)
    case Unreadable => Undetermined
    case Format(target, mask) => Field(target, value, mask)
  }

  // ----- the whole description -----

  /** The two configuration words of an event. */
  datatype Configuration = Configuration(config: Word, config1: Word)

  datatype Ending = Finished | Raised(fault: Fault) | Unforeseeable

  function Contribute(c: Configuration, f: Field): Configuration
    requires f.Field?
  {
    match f.target
    case Config => c.(config := BitOr(c.config, Deposited(f.value, f.mask)))
    case Config1 => c.(config1 := BitOr(c.config1, Deposited(f.value, f.mask)))
    case Ignored => c
  }

  /** Terms are encoded from left to right until one of them fails. */
  function Encode(c: Configuration, fields: seq<Field>): (Configuration, Ending)
    decreases |fields|
  {
    if fields == [] then (c, Finished)
    else match fields[0]
      case Faulty(f) => (c, Raised(f))
      case Undetermined => (c, Unforeseeable)
      case Field(_, _, _) => Encode(Contribute(c, fields[0]), fields[1..])
  }

  function Fields(pairs: seq<Pair>, formats: map<string, string>): (fields: seq<Field>)
    ensures |fields| == |pairs|
    ensures forall k :: 0 <= k < |pairs| ==> fields[k] == FieldOf(pairs[k], formats)
  {
    seq(|pairs|, k requires 0 <= k < |pairs| => FieldOf(pairs[k], formats))
  }

  function EncodeText(c: Configuration, text: string, formats: map<string, string>): (Configuration, Ending) {
    Encode(c, Fields(Pairs(text), formats))
  }

  function WordAt(c: Configuration, t: Target): Word {
    match t
    case Config => c.config
    case Config1 => c.config1
    case Ignored => 0
  }

  // ----- what the words mean -----

  predicate Sets(f: Field, t: Target, i: nat)
    requires i < WIDTH
  {
    f.Field? && f.target == t && BitsOf(Deposited(f.value, f.mask))[i]
  }

  ghost predicate SomeSets(fields: seq<Field>, t: Target, i: nat)
    requires i < WIDTH
  {
    exists f :: f in fields && Sets(f, t, i)
  }

  ghost predicate AllFields(fields: seq<Field>) {
    forall f :: f in fields ==> f.Field?
  }

  lemma ContributeBits(c: Configuration, f: Field, t: Target, i: nat)
    requires f.Field? && t != Ignored && i < WIDTH
    ensures BitsOf(WordAt(Contribute(c, f), t))[i] <==> BitsOf(WordAt(c, t))[i] || Sets(f, t, i)
  {
  }

  lemma SomeSetsSplit(head: Field, tail: seq<Field>, t: Target, i: nat)
    requires i < WIDTH
    ensures SomeSets([head] + tail, t, i) <==> Sets(head, t, i) || SomeSets(tail, t, i)
  {
    if Sets(head, t, i) {
      assert head in [head] + tail;
    }
    if SomeSets(tail, t, i) {
      var f :| f in tail && Sets(f, t, i);
      assert f in [head] + tail;
    }
  }

  /** Encoding finishes iff every term is in order, and then a bit is set iff it was set before
      or some term of that target deposits it. */
  lemma {:induction false} EncodeMeaning(c: Configuration, fields: seq<Field>, t: Target, i: nat)
    requires t != Ignored && i < WIDTH
    ensures Encode(c, fields).1.Finished? <==> AllFields(fields)
    ensures Encode(c, fields).1.Finished? ==>
      (BitsOf(WordAt(Encode(c, fields).0, t))[i] <==> BitsOf(WordAt(c, t))[i] || SomeSets(fields, t, i))
    decreases |fields|
  {
    if fields != [] {
      var head, tail := fields[0], fields[1..];
      assert fields == [head] + tail;
      if head.Field? {
        EncodeMeaning(Contribute(c, head), tail, t, i);
        ContributeBits(c, head, t, i);
        SomeSetsSplit(head, tail, t, i);
      } else {
        assert head in fields;
      }
    }
  }

  /** When only one kind of fault can occur, encoding finishes or ends with it. */
  lemma {:induction false} OnlyFault(c: Configuration, fields: seq<Field>, fault: Fault)
    requires forall k :: 0 <= k < |fields| ==> fields[k].Field? || fields[k] == Faulty(fault)
    ensures Encode(c, fields).1 == Finished || Encode(c, fields).1 == Raised(fault)
    decreases |fields|
  {
    if fields != [] && fields[0].Field? {
      OnlyFault(Contribute(c, fields[0]), fields[1..], fault);
    }
  }

  lemma SameConfiguration(a: Configuration, b: Configuration)
    requires forall t, i :: t != Ignored && 0 <= i < WIDTH ==> BitsOf(WordAt(a, t))[i] == BitsOf(WordAt(b, t))[i]
    ensures a == b
  {
    forall i | 0 <= i < WIDTH ensures BitsOf(a.config)[i] == BitsOf(b.config)[i] {
      assert BitsOf(WordAt(a, Config))[i] == BitsOf(WordAt(b, Config))[i];
    }
    forall i | 0 <= i < WIDTH ensures BitsOf(a.config1)[i] == BitsOf(b.config1)[i] {
      assert BitsOf(WordAt(a, Config1))[i] == BitsOf(WordAt(b, Config1))[i];
    }
    SameBits(a.config, b.config);
    SameBits(a.config1, b.config1);
  }

  /** Descriptions with the same terms, in any order and any number of times, encode alike,
      overlapping masks included. */
  lemma OrderIrrelevant(c: Configuration, a: string, b: string, formats: map<string, string>)
    requires forall p :: p in Pairs(a) <==> p in Pairs(b)
    requires EncodeText(c, a, formats).1.Finished?
    ensures EncodeText(c, b, formats) == EncodeText(c, a, formats)
  {
    var fa, fb := Fields(Pairs(a), formats), Fields(Pairs(b), formats);
    SameTermsSameFields(Pairs(a), Pairs(b), formats);
    SameTermsSameFields(Pairs(b), Pairs(a), formats);
    forall t, i | t != Ignored && 0 <= i < WIDTH
      ensures AllFields(fa) && Encode(c, fb).1.Finished?
      ensures BitsOf(WordAt(Encode(c, fa).0, t))[i] == BitsOf(WordAt(Encode(c, fb).0, t))[i]
    {
      EncodeMeaning(c, fa, t, i);
      EncodeMeaning(c, fb, t, i);
    }
    assert Config != Ignored && 0 <= 0 < WIDTH;
    EncodeMeaning(c, fa, Config, 0);
    EncodeMeaning(c, fb, Config, 0);
    SameConfiguration(Encode(c, fa).0, Encode(c, fb).0);
  }

  lemma SameTermsSameFields(a: seq<Pair>, b: seq<Pair>, formats: map<string, string>)
    requires forall p :: p in a ==> p in b
    ensures forall f :: f in Fields(a, formats) ==> f in Fields(b, formats)
  {
    forall f | f in Fields(a, formats) ensures f in Fields(b, formats) {
      var k :| 0 <= k < |a| && Fields(a, formats)[k] == f;
      assert a[k] in b;
      var j :| 0 <= j < |b| && b[j] == a[k];
      assert Fields(b, formats)[j] == f;
    }
  }

  /** A term given twice encodes as the two values ORed. */
  lemma TwiceIsOr(a: Word, b: Word, mask: Word)
    ensures BitOr(Deposited(a, mask), Deposited(b, mask)) == Deposited(BitOr(a, b), mask)
  {
    ScatterOr(BitsOf(a), BitsOf(b), BitsOf(mask));
    SameBits(BitOr(Deposited(a, mask), Deposited(b, mask)), Deposited(BitOr(a, b), mask));
  }

  lemma SetsOr(t: Target, a: Word, b: Word, mask: Word, u: Target, i: nat)
    requires i < WIDTH
    ensures Sets(Field(t, BitOr(a, b), mask), u, i) <==> Sets(Field(t, a, mask), u, i) || Sets(Field(t, b, mask), u, i)
  {
    TwiceIsOr(a, b, mask);
  }

  /** A field list with the field given twice, and the list with it given once. */
  lemma SomeSetsTwice(t: Target, a: Word, b: Word, mask: Word, u: seq<Field>, v: seq<Field>, w: seq<Field>,
                      target: Target, i: nat)
    requires i < WIDTH
    ensures var twice := u + [Field(t, a, mask)] + v + [Field(t, b, mask)] + w;
      var once := u + [Field(t, BitOr(a, b), mask)] + v + w;
      && (AllFields(twice) <==> AllFields(once))
      && (SomeSets(twice, target, i) <==> SomeSets(once, target, i))
  {
    var fa, fb, fo := Field(t, a, mask), Field(t, b, mask), Field(t, BitOr(a, b), mask);
    var twice, once := u + [fa] + v + [fb] + w, u + [fo] + v + w;
    SetsOr(t, a, b, mask, target, i);
    assert forall f :: f in twice <==> f in u || f == fa || f in v || f == fb || f in w;
    assert forall f :: f in once <==> f in u || f == fo || f in v || f in w;
    assert fa in twice && fb in twice && fo in once;
  }

  /** A field given twice anywhere in a list, with values `a` and `b`, encodes as given once with `a | b`. */
  lemma FieldGivenTwice(c: Configuration, t: Target, a: Word, b: Word, mask: Word,
                        u: seq<Field>, v: seq<Field>, w: seq<Field>)
    ensures var twice := Encode(c, u + [Field(t, a, mask)] + v + [Field(t, b, mask)] + w);
      var once := Encode(c, u + [Field(t, BitOr(a, b), mask)] + v + w);
      && (twice.1.Finished? <==> once.1.Finished?)
      && (twice.1.Finished? ==> twice == once)
  {
    var twice := u + [Field(t, a, mask)] + v + [Field(t, b, mask)] + w;
    var once := u + [Field(t, BitOr(a, b), mask)] + v + w;
    SomeSetsTwice(t, a, b, mask, u, v, w, Config, 0);
    EncodeMeaning(c, twice, Config, 0);
    EncodeMeaning(c, once, Config, 0);
    if AllFields(twice) {
      forall target, i | target != Ignored && 0 <= i < WIDTH
        ensures BitsOf(WordAt(Encode(c, twice).0, target))[i] == BitsOf(WordAt(Encode(c, once).0, target))[i]
      {
        SomeSetsTwice(t, a, b, mask, u, v, w, target, i);
        EncodeMeaning(c, twice, target, i);
        EncodeMeaning(c, once, target, i);
      }
      SameConfiguration(Encode(c, twice).0, Encode(c, once).0);
    }
  }

  lemma FieldsAppend(a: seq<Pair>, b: seq<Pair>, formats: map<string, string>)
    ensures Fields(a + b, formats) == Fields(a, formats) + Fields(b, formats)
  {
  }

  /** The pairs `p` and `q` give the same term two values, and `r` gives it their OR. */
  predicate Merges(p: Pair, q: Pair, r: Pair) {
    && p.term == q.term == r.term
    && Stol(p.value).Ok? && Stol(q.value).Ok? && Stol(r.value).Ok?
    && ToWord(Stol(r.value).value) == BitOr(ToWord(Stol(p.value).value), ToWord(Stol(q.value).value))
  }

  /** The pairs `p` and `q` stand among others in `twice`, and `once` has `r` in place of `p` and nothing in
      place of `q`. */
  predicate Spliced(twice: seq<Pair>, once: seq<Pair>,
                    u: seq<Pair>, p: Pair, v: seq<Pair>, q: Pair, w: seq<Pair>, r: Pair) {
    twice == u + [p] + v + [q] + w && once == u + [r] + v + w
  }

  /** On event text: a description in which a term occurs twice, anywhere, encodes as one in which it
      occurs once with the two values ORed. */
  lemma TermGivenTwice(c: Configuration, twice: string, once: string, formats: map<string, string>,
                       u: seq<Pair>, p: Pair, v: seq<Pair>, q: Pair, w: seq<Pair>, r: Pair)
    requires Spliced(Pairs(twice), Pairs(once), u, p, v, q, w, r) && Merges(p, q, r)
    ensures EncodeText(c, twice, formats).1.Finished? <==> EncodeText(c, once, formats).1.Finished?
    ensures EncodeText(c, twice, formats).1.Finished? ==> EncodeText(c, once, formats) == EncodeText(c, twice, formats)
  {
    var fu, fv, fw := Fields(u, formats), Fields(v, formats), Fields(w, formats);
    var fp, fq, fr := FieldOf(p, formats), FieldOf(q, formats), FieldOf(r, formats);
    FieldsSpliced(u, p, v, q, w, formats);
    FieldsSplicedOnce(u, r, v, w, formats);
    if fp.Field? {
      FieldGivenTwice(c, fp.target, fp.value, fq.value, fp.mask, fu, fv, fw);
    } else {
      assert !fr.Field?;
      NotFinished(c, fu + [fp] + fv + [fq] + fw, fp);
      NotFinished(c, fu + [fr] + fv + fw, fr);
    }
  }

  lemma NotFinished(c: Configuration, fields: seq<Field>, f: Field)
    requires f in fields && !f.Field?
    ensures !Encode(c, fields).1.Finished?
  {
    EncodeMeaning(c, fields, Config, 0);
  }

  lemma FieldsSpliced(u: seq<Pair>, p: Pair, v: seq<Pair>, q: Pair, w: seq<Pair>, formats: map<string, string>)
    ensures Fields(u + [p] + v + [q] + w, formats) ==
      Fields(u, formats) + [FieldOf(p, formats)] + Fields(v, formats) + [FieldOf(q, formats)] + Fields(w, formats)
  {
    FieldsSplicedOnce(u + [p] + v, q, [], w, formats);
    FieldsSplicedOnce(u, p, v, [], formats);
    assert u + [p] + v + [] == u + [p] + v;
    assert u + [p] + v + [q] + [] == u + [p] + v + [q];
  }

  lemma FieldsSplicedOnce(u: seq<Pair>, p: Pair, v: seq<Pair>, w: seq<Pair>, formats: map<string, string>)
    ensures Fields(u + [p] + v + w, formats) ==
      Fields(u, formats) + [FieldOf(p, formats)] + Fields(v, formats) + Fields(w, formats)
  {
    FieldsAppend(u + [p] + v, w, formats);
    FieldsAppend(u + [p], v, formats);
    FieldsAppend(u, [p], formats);
    assert Fields([p], formats) == [FieldOf(p, formats)];
  }

  lemma {:induction false} ScatterOr(a: Bits, b: Bits, m: Bits)
    requires |a| == |b|
    ensures Or(Scatter(a, m), Scatter(b, m)) == Scatter(Or(a, b), m)
    decreases |m|
  {
    if m != [] {
      if m[0] {
        assert Rest(Or(a, b)) == Or(Rest(a), Rest(b));
        ScatterOr(Rest(a), Rest(b), m[1..]);
      } else {
        ScatterOr(a, b, m[1..]);
      }
    }
  }

  // ----- faults -----

  lemma {:induction false} FirstFaultDecides(c: Configuration, fields: seq<Field>, k: nat)
    requires k < |fields| && !fields[k].Field? && forall j :: 0 <= j < k ==> fields[j].Field?
    ensures Encode(c, fields[..k]).1.Finished?
    ensures Encode(c, fields) ==
      (Encode(c, fields[..k]).0, if fields[k].Faulty? then Raised(fields[k].fault) else Unforeseeable)
    decreases k
  {
    if k > 0 {
      assert fields[..k][1..] == fields[1..][..k - 1];
      FirstFaultDecides(Contribute(c, fields[0]), fields[1..], k - 1);
    }
  }

  /** On event text: the first term that fails decides the exception, and the terms before it are encoded.
      A term fails for want of its format first, then by its value, then by its format's text. */
  lemma FirstFailingTerm(c: Configuration, text: string, formats: map<string, string>, k: nat)
    requires k < |Pairs(text)| && !FieldOf(Pairs(text)[k], formats).Field?
    requires forall j :: 0 <= j < k ==> FieldOf(Pairs(text)[j], formats).Field?
    ensures var (words, ending) := EncodeText(c, text, formats);
      var Pair(term, value) := Pairs(text)[k];
      && words == Encode(c, Fields(Pairs(text)[..k], formats)).0
      && (term !in formats ==> ending == Raised(InvalidEvent))
      && (term in formats && Stol(value).Threw? ==> ending == Raised(Stol(value).fault))
      && (term in formats && Stol(value).Ok? ==> ending == FormatFailure(formats[term]))
  {
    var fields := Fields(Pairs(text), formats);
    FirstFaultDecides(c, fields, k);
    assert fields[..k] == Fields(Pairs(text)[..k], formats);
    if Pairs(text)[k].term in formats {
      ColonIffThere(formats[Pairs(text)[k].term]);
    }
  }

  /** How a format that cannot be read ends the encoding. */
  function FormatFailure(format: string): Ending {
    if ':' !in format then Raised(InvalidEvent)
    else
      match Parse(format[Colon(format) + 1..])
      case Failed(f) => Raised(f)
      case _ => Unforeseeable
  }

  lemma ColonIffThere(format: string)
    ensures Colon(format) == |format| <==> ':' !in format
  {
    assert format[..|format|] == format;
  }

  // ----- fields that do not overlap -----

  predicate Disjoint(a: Word, b: Word) {
    forall i :: 0 <= i < WIDTH ==> !(BitsOf(a)[i] && BitsOf(b)[i])
  }

  /** Both fields go into the same word. Ignored targets have no word. */
  predicate SameTarget(f: Field, g: Field) {
    f.Field? && g.Field? && f.target == g.target != Ignored
  }

  /** The masks of different terms for the same word share no bit. */
  ghost predicate PairwiseDisjoint(fields: seq<Field>) {
    forall j, k :: 0 <= j < k < |fields| && SameTarget(fields[j], fields[k]) ==>
      Disjoint(fields[j].mask, fields[k].mask)
  }

  /** Every bit outside the masks of a target keeps its initial value. */
  lemma OutsideUnchanged(c: Configuration, fields: seq<Field>, t: Target, i: nat)
    requires t != Ignored && i < WIDTH && Encode(c, fields).1.Finished?
    requires forall f :: f in fields && f.Field? && f.target == t ==> !BitsOf(f.mask)[i]
    ensures BitsOf(WordAt(Encode(c, fields).0, t))[i] == BitsOf(WordAt(c, t))[i]
  {
    EncodeMeaning(c, fields, t, i);
    if SomeSets(fields, t, i) {
      var f :| f in fields && Sets(f, t, i);
      ScatterWithinMask(BitsOf(f.value), BitsOf(f.mask), i);
    }
  }

  /** With disjoint masks, each field is read back from the final word: its value modulo what fits. */
  lemma FieldsReadBack(c: Configuration, fields: seq<Field>, k: nat)
    requires Encode(c, fields).1.Finished? && PairwiseDisjoint(fields)
    requires k < |fields| && fields[k].Field? && fields[k].target != Ignored
    requires Disjoint(WordAt(c, fields[k].target), fields[k].mask)
    ensures Extracted(WordAt(Encode(c, fields).0, fields[k].target), fields[k].mask)
         == fields[k].value % Capacity(fields[k].mask)
  {
    var f := fields[k];
    var final := WordAt(Encode(c, fields).0, f.target);
    forall i | 0 <= i < WIDTH && BitsOf(f.mask)[i]
      ensures BitsOf(final)[i] == BitsOf(Deposited(f.value, f.mask))[i]
    {
      EncodeMeaning(c, fields, f.target, i);
      OnlyFieldAt(fields, k, i);
    }
    GatherUnderMask(BitsOf(final), BitsOf(Deposited(f.value, f.mask)), BitsOf(f.mask));
    ExtractDeposited(f.value, f.mask);
  }

  lemma NotUnderBoth(fields: seq<Field>, j: nat, k: nat, i: nat)
    requires PairwiseDisjoint(fields) && j < |fields| && k < |fields| && j != k && i < WIDTH
    requires SameTarget(fields[j], fields[k])
    ensures !(BitsOf(fields[j].mask)[i] && BitsOf(fields[k].mask)[i])
  {
    if j < k {
      assert Disjoint(fields[j].mask, fields[k].mask);
    } else {
      assert Disjoint(fields[k].mask, fields[j].mask);
    }
  }

  /** Under the mask of field `k`, only field `k` can set bits. */
  lemma OnlyFieldAt(fields: seq<Field>, k: nat, i: nat)
    requires PairwiseDisjoint(fields) && k < |fields| && fields[k].Field? && fields[k].target != Ignored
    requires i < WIDTH && BitsOf(fields[k].mask)[i]
    ensures SomeSets(fields, fields[k].target, i) <==> Sets(fields[k], fields[k].target, i)
  {
    var t := fields[k].target;
    if SomeSets(fields, t, i) {
      var f :| f in fields && Sets(f, t, i);
      var j :| 0 <= j < |fields| && fields[j] == f;
      if !BitsOf(f.mask)[i] {
        ScatterWithinMask(BitsOf(f.value), BitsOf(f.mask), i);
      }
      if j != k {
        NotUnderBoth(fields, j, k, i);
      }
    }
    if Sets(fields[k], t, i) {
      assert fields[k] in fields;
    }
  }
}
