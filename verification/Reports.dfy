/** Attribute bits as names (`print_bits`), and system call filters as text (`set_syscall_filter`). */
module Reports {
  import opened Outcomes
  import opened Words
  import opened Numerals
  import opened Text

  // ----- bit names -----

  /** A named key; the table is visited in ascending key order. */
  datatype Key = Key(bits: Word, name: string)

  predicate Touches(value: Word, key: Word) {
    BitAnd(value, key) != 0
  }

  function Without(value: Word, key: Word): Word {
    BitAnd(value, BitNot(key))
  }

  /** What is left of the value when every key has taken its bits. */
  function Leftover(keys: seq<Key>, value: Word): Word
    decreases |keys|
  {
    if keys == [] then value
    else Leftover(keys[1..], if Touches(value, keys[0].bits) then Without(value, keys[0].bits) else value)
  }

  /** The keys that found a bit to take. */
  function Active(keys: seq<Key>, value: Word): seq<Key>
    decreases |keys|
  {
    if keys == [] then []
    else if Touches(value, keys[0].bits) then [keys[0]] + Active(keys[1..], Without(value, keys[0].bits))
    else Active(keys[1..], value)
  }

  function Names(keys: seq<Key>): (names: seq<string>)
    ensures |names| == |keys|
  {
    if keys == [] then [] else [keys[0].name] + Names(keys[1..])
  }

  function Report(name: string, keys: seq<Key>, value: Word): string {
    var left := Leftover(keys, value);
    (if left != 0 then "Unknown perf_event_attr." + name + " bits: " + Print(left, 16) else "")
    + "\t" + name + ": " + Join(Names(Active(keys, value)), BAR) + "\n"
  }

  lemma NamesAppend(a: seq<Key>, b: seq<Key>)
    ensures Names(a + b) == Names(a) + Names(b)
  {
    if a == [] {
      assert a + b == b;
    } else {
      assert (a + b)[1..] == a[1..] + b;
      NamesAppend(a[1..], b);
    }
  }

  /** One turn of the loop over the table. */
  lemma ActiveTurn(keys: seq<Key>, k: nat, value: Word)
    requires k < |keys|
    ensures var next := if Touches(value, keys[k].bits) then Without(value, keys[k].bits) else value;
      && Leftover(keys[k..], value) == Leftover(keys[k + 1..], next)
      && Active(keys[k..], value) ==
           (if Touches(value, keys[k].bits) then [keys[k]] else []) + Active(keys[k + 1..], next)
  {
    assert keys[k..][1..] == keys[k + 1..];
  }

  /** The loop of `print_bits`: the names of the keys that found a bit, and what is left of the value. */
  method TakeBits(keys: seq<Key>, value: Word) returns (activeBits: seq<string>, left: Word)
    ensures activeBits == Names(Active(keys, value)) && left == Leftover(keys, value)
  {
    left, activeBits := value, [];
    ghost var found: seq<Key> := [];
    for k := 0 to |keys|
      invariant activeBits == Names(found)
      invariant found + Active(keys[k..], left) == Active(keys, value)
      invariant Leftover(keys[k..], left) == Leftover(keys, value)
    {
      ActiveTurn(keys, k, left);
      if BitAnd(left, keys[k].bits) != 0 {
        NamesAppend(found, [keys[k]]);
        activeBits := activeBits + [keys[k].name];
        found := found + [keys[k]];
        left := BitAnd(left, BitNot(keys[k].bits));
      }
    }
    assert found == Active(keys, value);
  }

  /** `print_bits`: the text it writes. */
  method PrintBits(name: string, keys: seq<Key>, value: Word) returns (stream: string)
    ensures stream == Report(name, keys, value)
  {
    var activeBits, left := TakeBits(keys, value);
    stream := "";
    if left != 0 {
      stream := "Unknown perf_event_attr." + name + " bits: " + Print(left, 16);
    }
    var joined := JoinByLoop(activeBits);
    stream := stream + "\t" + name + ": " + joined + "\n";
  }

  /** All but the last name are followed by the separator. */
  method JoinByLoop(names: seq<string>) returns (text: string)
    ensures text == Join(names, BAR)
  {
    text := "";
    if names != [] {
      var k := 0;
      while k != |names| - 1
        invariant 0 <= k < |names|
        invariant text + Join(names[k..], BAR) == Join(names, BAR)
      {
        assert names[k..][1..] == names[k + 1..];
        text := text + names[k];
        text := text + BAR;
        k := k + 1;
      }
      text := text + names[k];
    }
  }

  ghost predicate InSomeKey(keys: seq<Key>, i: nat)
    requires i < WIDTH
  {
    exists key :: key in keys && BitsOf(key.bits)[i]
  }

  lemma TouchesBit(value: Word, key: Word)
    ensures Touches(value, key) <==> exists i :: 0 <= i < WIDTH && BitsOf(value)[i] && BitsOf(key)[i]
  {
    var both := BitAnd(value, key);
    ZeroLowBits(WIDTH);
    if forall i :: 0 <= i < WIDTH ==> !(BitsOf(value)[i] && BitsOf(key)[i]) {
      assert BitsOf(both) == BitsOf(0);
      SameBits(both, 0);
    }
  }

  /** A bit is left over iff the value has it and no key does. */
  lemma {:induction false} LeftoverMeaning(keys: seq<Key>, value: Word, i: nat)
    requires i < WIDTH
    ensures BitsOf(Leftover(keys, value))[i] <==> BitsOf(value)[i] && !InSomeKey(keys, i)
    decreases |keys|
  {
    if keys != [] {
      var head, tail := keys[0], keys[1..];
      assert keys == [head] + tail;
      assert InSomeKey(keys, i) <==> BitsOf(head.bits)[i] || InSomeKey(tail, i) by {
        assert head in keys;
        assert forall key :: key in keys <==> key == head || key in tail;
      }
      TouchesBit(value, head.bits);
      LeftoverMeaning(tail, if Touches(value, head.bits) then Without(value, head.bits) else value, i);
    }
  }

  /** Key `k` takes a bit of the value that no earlier key has. */
  ghost predicate Claims(keys: seq<Key>, value: Word, k: nat) {
    k < |keys| && exists i :: 0 <= i < WIDTH && BitsOf(value)[i] && BitsOf(keys[k].bits)[i] && !InSomeKey(keys[..k], i)
  }

  /** The listed keys are exactly those that claim a bit, in table order. */
  ghost function Claiming(keys: seq<Key>, value: Word, k: nat): seq<Key>
    requires k <= |keys|
  {
    if k == 0 then []
    else Claiming(keys, value, k - 1) + (if Claims(keys, value, k - 1) then [keys[k - 1]] else [])
  }

  lemma {:induction false} LeftoverAppend(a: seq<Key>, b: seq<Key>, value: Word)
    ensures Leftover(a + b, value) == Leftover(b, Leftover(a, value))
    ensures Active(a + b, value) == Active(a, value) + Active(b, Leftover(a, value))
    decreases |a|
  {
    if a == [] {
      assert a + b == b;
    } else {
      assert (a + b)[1..] == a[1..] + b;
      LeftoverAppend(a[1..], b, if Touches(value, a[0].bits) then Without(value, a[0].bits) else value);
    }
  }

  lemma ClaimsIffTouches(keys: seq<Key>, value: Word, k: nat)
    requires k < |keys|
    ensures Claims(keys, value, k) <==> Touches(Leftover(keys[..k], value), keys[k].bits)
  {
    var left := Leftover(keys[..k], value);
    TouchesBit(left, keys[k].bits);
    forall i | 0 <= i < WIDTH ensures BitsOf(left)[i] <==> BitsOf(value)[i] && !InSomeKey(keys[..k], i) {
      LeftoverMeaning(keys[..k], value, i);
    }
  }

  lemma {:induction false} ActiveAreClaiming(keys: seq<Key>, value: Word, k: nat)
    requires k <= |keys|
    ensures Active(keys[..k], value) == Claiming(keys, value, k)
    decreases k
  {
    if k != 0 {
      ActiveAreClaiming(keys, value, k - 1);
      ClaimsIffTouches(keys, value, k - 1);
      assert keys[..k] == keys[..k - 1] + [keys[k - 1]];
      LeftoverAppend(keys[..k - 1], [keys[k - 1]], value);
    }
  }

  /** For any table: the listed keys are those that claim a bit no earlier key has, in order. */
  lemma ListedClaim(keys: seq<Key>, value: Word)
    ensures Active(keys, value) == Claiming(keys, value, |keys|)
  {
    ActiveAreClaiming(keys, value, |keys|);
    assert keys[..|keys|] == keys;
  }

  /** A key lies under the value. */
  predicate Under(key: Word, value: Word) {
    forall i :: 0 <= i < WIDTH && BitsOf(key)[i] ==> BitsOf(value)[i]
  }

  lemma {:induction false} ListedKeysTake(keys: seq<Key>, value: Word, i: nat)
    requires i < WIDTH && BitsOf(value)[i]
    ensures BitsOf(Leftover(keys, value))[i] || InSomeKey(Active(keys, value), i)
    decreases |keys|
  {
    if keys != [] {
      var head, tail := keys[0], keys[1..];
      if Touches(value, head.bits) {
        var rest := Without(value, head.bits);
        if BitsOf(head.bits)[i] {
          assert head in Active(keys, value);
        } else {
          ListedKeysTake(tail, rest, i);
          if InSomeKey(Active(tail, rest), i) {
            var key :| key in Active(tail, rest) && BitsOf(key.bits)[i];
            assert key in Active(keys, value);
          }
        }
      } else {
        ListedKeysTake(tail, value, i);
      }
    }
  }

  /** The bits of all keys together. */
  function OrAll(keys: seq<Key>): (w: Word) {
    if keys == [] then 0 else BitOr(keys[0].bits, OrAll(keys[1..]))
  }

  lemma {:induction false} OrAllBits(keys: seq<Key>, i: nat)
    requires i < WIDTH
    ensures BitsOf(OrAll(keys))[i] <==> InSomeKey(keys, i)
  {
    if keys == [] {
      ZeroLowBits(WIDTH);
    } else {
      OrAllBits(keys[1..], i);
      assert keys == [keys[0]] + keys[1..];
      assert keys[0] in keys && forall key :: key in keys <==> key == keys[0] || key in keys[1..];
    }
  }

  /** The value is what the report lists: the listed keys and the leftover, ORed. */
  predicate Decodes(keys: seq<Key>, value: Word) {
    BitOr(OrAll(Active(keys, value)), Leftover(keys, value)) == value
  }

  lemma {:induction false} ListedAreClaiming(keys: seq<Key>, value: Word, n: nat, key: Key)
    requires n <= |keys|
    ensures key in Claiming(keys, value, n) <==> exists k :: 0 <= k < n && Claims(keys, value, k) && keys[k] == key
    decreases n
  {
    if n != 0 {
      var before := Claiming(keys, value, n - 1);
      ListedAreClaiming(keys, value, n - 1, key);
      if Claims(keys, value, n - 1) {
        assert Claiming(keys, value, n) == before + [keys[n - 1]];
      } else {
        assert Claiming(keys, value, n) == before;
      }
    }
  }

  /** The two inclusions of decoding, bit by bit: the listed keys and the leftover never miss a bit of the
      value, and what they have too much comes from a listed key. */
  lemma DecodesBitwise(keys: seq<Key>, value: Word)
    ensures Decodes(keys, value) <==>
      forall i :: 0 <= i < WIDTH && InSomeKey(Active(keys, value), i) ==> BitsOf(value)[i]
  {
    var listed, left := Active(keys, value), Leftover(keys, value);
    var report := BitOr(OrAll(listed), left);
    forall i | 0 <= i < WIDTH
      ensures BitsOf(value)[i] ==> BitsOf(report)[i]
      ensures BitsOf(report)[i] ==> BitsOf(value)[i] || InSomeKey(listed, i)
      ensures InSomeKey(listed, i) ==> BitsOf(report)[i]
    {
      OrAllBits(listed, i);
      LeftoverMeaning(keys, value, i);
      if BitsOf(value)[i] {
        ListedKeysTake(keys, value, i);
      }
    }
    if forall i :: 0 <= i < WIDTH && InSomeKey(listed, i) ==> BitsOf(value)[i] {
      assert BitsOf(report) == BitsOf(value);
      SameBits(report, value);
    }
  }

  /** For one value: it decodes iff every key that claims a bit of it lies wholly under it. */
  lemma ValueDecodesIff(keys: seq<Key>, value: Word)
    ensures Decodes(keys, value) <==> forall k: nat :: Claims(keys, value, k) ==> Under(keys[k].bits, value)
  {
    var listed := Active(keys, value);
    DecodesBitwise(keys, value);
    ListedClaim(keys, value);
    forall k: nat | Claims(keys, value, k) ensures keys[k] in listed {
      ListedAreClaiming(keys, value, |keys|, keys[k]);
    }
    if Decodes(keys, value) {
      forall k: nat, i | Claims(keys, value, k) && 0 <= i < WIDTH && BitsOf(keys[k].bits)[i]
        ensures BitsOf(value)[i]
      {
        assert keys[k] in listed && InSomeKey(listed, i);
      }
    }
    if forall k: nat :: Claims(keys, value, k) ==> Under(keys[k].bits, value) {
      forall i | 0 <= i < WIDTH && InSomeKey(listed, i) ensures BitsOf(value)[i] {
        var key :| key in listed && BitsOf(key.bits)[i];
        ListedAreClaiming(keys, value, |keys|, key);
      }
    }
  }

  /** Bit `i` is the only bit of the key. */
  predicate OnlyBit(key: Word, i: nat)
    requires i < WIDTH
  {
    BitsOf(key) == RunBits(WIDTH, i, i)
  }

  predicate SingleBit(key: Word) {
    exists i :: 0 <= i < WIDTH && OnlyBit(key, i)
  }

  /** Key `k` has bit `i`, and no earlier key has it. */
  ghost predicate OwnBit(keys: seq<Key>, k: nat, i: nat)
    requires k < |keys| && i < WIDTH
  {
    BitsOf(keys[k].bits)[i] && !InSomeKey(keys[..k], i)
  }

  ghost predicate HasOwnBit(keys: seq<Key>, k: nat)
    requires k < |keys|
  {
    exists i :: 0 <= i < WIDTH && OwnBit(keys, k, i)
  }

  /** For one table: every value decodes iff each key with a bit that no earlier key has is a single bit. */
  lemma TableDecodesIff(keys: seq<Key>)
    ensures (forall value: Word :: Decodes(keys, value)) <==>
      forall k :: 0 <= k < |keys| && HasOwnBit(keys, k) ==> SingleBit(keys[k].bits)
  {
    if forall k :: 0 <= k < |keys| && HasOwnBit(keys, k) ==> SingleBit(keys[k].bits) {
      forall value: Word ensures Decodes(keys, value) {
        forall k: nat | Claims(keys, value, k) ensures Under(keys[k].bits, value) {
          SingleClaimIsUnder(keys, value, k);
        }
        ValueDecodesIff(keys, value);
      }
    }
    forall k | 0 <= k < |keys| && HasOwnBit(keys, k) && !SingleBit(keys[k].bits)
      ensures exists value: Word :: !Decodes(keys, value)
    {
      var value := WideKeySpoils(keys, k);
    }
  }

  lemma SingleClaimIsUnder(keys: seq<Key>, value: Word, k: nat)
    requires Claims(keys, value, k) && (HasOwnBit(keys, k) ==> SingleBit(keys[k].bits))
    ensures Under(keys[k].bits, value)
  {
    var i :| 0 <= i < WIDTH && BitsOf(value)[i] && BitsOf(keys[k].bits)[i] && !InSomeKey(keys[..k], i);
    assert OwnBit(keys, k, i);
    var only :| 0 <= only < WIDTH && OnlyBit(keys[k].bits, only);
  }

  lemma UnderOneBit(key: Word, value: Word, i: nat)
    requires i < WIDTH && BitsOf(key)[i] && OnlyBit(value, i)
    ensures Under(key, value) ==> OnlyBit(key, i)
  {
    if Under(key, value) {
      assert BitsOf(key) == RunBits(WIDTH, i, i);
    }
  }

  /** A key of several bits, one of them its own, spoils the value that has just this bit. */
  lemma WideKeySpoils(keys: seq<Key>, k: nat) returns (value: Word)
    requires k < |keys| && HasOwnBit(keys, k) && !SingleBit(keys[k].bits)
    ensures !Decodes(keys, value)
  {
    var i :| 0 <= i < WIDTH && OwnBit(keys, k, i);
    value := FromBits(RunBits(WIDTH, i, i));
    assert BitsOf(value)[i];
    assert Claims(keys, value, k);
    UnderOneBit(keys[k].bits, value, i);
    ValueDecodesIff(keys, value);
  }

  /** With keys of one bit each, every value is the OR of the listed keys and the leftover. */
  lemma SingleBitTableDecodes(keys: seq<Key>, value: Word)
    requires forall k :: 0 <= k < |keys| ==> SingleBit(keys[k].bits)
    ensures BitOr(OrAll(Active(keys, value)), Leftover(keys, value)) == value
  {
    TableDecodesIff(keys);
    assert Decodes(keys, value);
  }

  /** The breakpoint types in key order: the read-write type is the OR of two earlier keys. */
  const BREAKPOINT_TYPES: seq<Key> := [
    Key(0, "HW_BREAKPOINT_EMPTY"), Key(1, "HW_BREAKPOINT_R"), Key(2, "HW_BREAKPOINT_W"),
    Key(3, "HW_BREAKPOINT_RW"), Key(4, "HW_BREAKPOINT_X")
  ]

  lemma SmallKeyBits()
    ensures BitsOf(0) == Zeros(WIDTH)
    ensures OnlyBit(1, 0) && OnlyBit(2, 1) && OnlyBit(4, 2)
    ensures BitsOf(3) == RunBits(WIDTH, 0, 1)
  {
    ZeroLowBits(WIDTH);
    OnesBelow(1, WIDTH);
    OnesBelow(2, WIDTH);
    assert Pow2(1) == 2 && Pow2(2) == 4;
    forall i | 0 <= i < WIDTH ensures BitsOf(2)[i] == (i == 1) && BitsOf(4)[i] == (i == 2) {
      SingleKey(1, i);
      SingleKey(2, i);
    }
  }

  lemma SingleKey(n: nat, i: nat)
    requires n < WIDTH && i < WIDTH
    ensures BitsOf(Shl(1, n))[i] == (i == n)
    ensures n == 1 ==> Shl(1, n) == 2
    ensures n == 2 ==> Shl(1, n) == 4
  {
    OnesBelow(1, WIDTH);
    assert Pow2(1) == 2 && Pow2(2) == 4;
    ShlBit(1, n, i);
  }

  /** Neither the empty type nor the read-write type has a bit that no earlier key has. */
  lemma ShadowedTypes(i: nat)
    requires i < WIDTH
    ensures !OwnBit(BREAKPOINT_TYPES, 0, i) && !OwnBit(BREAKPOINT_TYPES, 3, i)
  {
    var keys := BREAKPOINT_TYPES;
    SmallKeyBits();
    assert keys[1] in keys[..3] && keys[2] in keys[..3];
  }

  lemma BreakpointKeys(k: nat)
    requires k < |BREAKPOINT_TYPES|
    ensures HasOwnBit(BREAKPOINT_TYPES, k) ==> SingleBit(BREAKPOINT_TYPES[k].bits)
  {
    if k == 0 || k == 3 {
      forall i | 0 <= i < WIDTH ensures !OwnBit(BREAKPOINT_TYPES, k, i) {
        ShadowedTypes(i);
      }
    } else {
      SmallKeyBits();
      assert OnlyBit(BREAKPOINT_TYPES[k].bits, if k == 1 then 0 else if k == 2 then 1 else 2);
    }
  }

  /** In the breakpoint table no key of several bits has a bit of its own, so every value decodes; the
      read-write type is never listed. */
  lemma BreakpointTypesDecode(value: Word)
    ensures Decodes(BREAKPOINT_TYPES, value)
    ensures !Claims(BREAKPOINT_TYPES, value, 3)
  {
    BreakpointTable();
    TableDecodesIff(BREAKPOINT_TYPES);
    ReadWriteNeverListed(value);
  }

  lemma BreakpointTable()
    ensures forall k :: 0 <= k < |BREAKPOINT_TYPES| && HasOwnBit(BREAKPOINT_TYPES, k) ==>
      SingleBit(BREAKPOINT_TYPES[k].bits)
  {
    forall k | 0 <= k < |BREAKPOINT_TYPES|
      ensures HasOwnBit(BREAKPOINT_TYPES, k) ==> SingleBit(BREAKPOINT_TYPES[k].bits)
    {
      BreakpointKeys(k);
    }
  }

  lemma ReadWriteNeverListed(value: Word)
    ensures !Claims(BREAKPOINT_TYPES, value, 3)
  {
    forall i | 0 <= i < WIDTH ensures !OwnBit(BREAKPOINT_TYPES, 3, i) {
      ShadowedTypes(i);
    }
    NothingToClaim(BREAKPOINT_TYPES, value, 3);
  }

  lemma NothingToClaim(keys: seq<Key>, value: Word, k: nat)
    requires k < |keys| && !HasOwnBit(keys, k)
    ensures !Claims(keys, value, k)
  {
    if Claims(keys, value, k) {
      var i :| 0 <= i < WIDTH && BitsOf(value)[i] && BitsOf(keys[k].bits)[i] && !InSomeKey(keys[..k], i);
      assert OwnBit(keys, k, i);
    }
  }

  // ----- reading the joined names back -----

  const BAR := " | "

  /** Where the separator first occurs, or the length of the text. */
  function FindBar(s: string): (n: nat)
    ensures n <= |s|
  {
    if |s| < 3 then |s| else if s[..3] == BAR then 0 else 1 + FindBar(s[1..])
  }

  function Split(s: string): seq<string>
    decreases |s|
  {
    var p := FindBar(s);
    if p + 3 <= |s| && s[p..p + 3] == BAR then [s[..p]] + Split(s[p + 3..]) else [s]
  }

  /** A name that can stand before a separator: the separator is not in it, and it does not end in a blank
      and a bar, which would form a separator with the blank that follows. */
  predicate Separable(name: string) {
    FindBar(name) == |name| && !(|name| >= 2 && name[|name| - 2..] == " |")
  }

  lemma {:induction false} FindBarAfter(name: string, rest: string)
    ensures var s := name + (BAR + rest);
      FindBar(s) <= |name| && (FindBar(s) == |name| <==> Separable(name))
  {
    var s := name + (BAR + rest);
    if name != "" {
      FindBarAfter(name[1..], rest);
      assert s[1..] == name[1..] + (BAR + rest);
      FrontOfThree(name, rest);
    }
  }

  lemma FrontOfThree(name: string, rest: string)
    requires name != ""
    ensures (name + (BAR + rest))[..3] == BAR <==> name == " |" || (|name| >= 3 && name[..3] == BAR)
    ensures Separable(name) <==> Separable(name[1..]) && name != " |" && !(|name| >= 3 && name[..3] == BAR)
  {
    var s := name + (BAR + rest);
    if |name| == 1 {
      assert s[..3] == [name[0], ' ', '|'];
    } else if |name| == 2 {
      assert s[..3] == [name[0], name[1], ' '];
      assert name[0..] == name;
    } else {
      assert s[..3] == name[..3];
      assert name[|name| - 2..] == name[1..][|name| - 3..];
    }
  }

  /** Every name but the last is separable, and the last does not contain the separator. */
  predicate ReadsBack(names: seq<string>)
    requires names != []
  {
    if |names| == 1 then FindBar(names[0]) == |names[0]| else Separable(names[0]) && ReadsBack(names[1..])
  }

  /** Splitting the joined names at the separator gives the names back iff no name disturbs it. */
  lemma {:induction false} SplitsBackIff(names: seq<string>)
    requires names != []
    ensures Split(Join(names, BAR)) == names <==> ReadsBack(names)
    decreases |names|
  {
    if |names| == 1 {
      SplitOne(names[0]);
      assert names == [names[0]];
    } else {
      var first, others := names[0], names[1..];
      assert names == [first] + others;
      JoinMore(first, others, BAR);
      SplitsBackIff(others);
      SplitFirst(first, Join(others, BAR));
      SameRest(first, Split(Join(others, BAR)), others);
    }
  }

  lemma SameRest(first: string, a: seq<string>, b: seq<string>)
    ensures [first] + a == [first] + b <==> a == b
  {
    if [first] + a == [first] + b {
      assert ([first] + a)[1..] == a && ([first] + b)[1..] == b;
    }
  }

  lemma SplitOne(s: string)
    ensures Split(s) == [s] <==> FindBar(s) == |s|
  {
    if FindBar(s) < |s| {
      FindBarFinds(s);
      SplitAtBar(s, FindBar(s));
      assert |Split(s)[0]| < |s|;
    }
  }

  lemma {:induction false} FindBarFinds(s: string)
    ensures FindBar(s) < |s| ==> FindBar(s) + 3 <= |s| && s[FindBar(s)..FindBar(s) + 3] == BAR
  {
    if |s| >= 3 && s[..3] != BAR {
      FindBarFinds(s[1..]);
    }
  }

  lemma SplitFirst(first: string, rest: string)
    ensures var s := first + (BAR + rest);
      if Separable(first) then Split(s) == [first] + Split(rest) else Split(s)[0] != first
  {
    var s := first + (BAR + rest);
    FindBarAfter(first, rest);
    FindBarFinds(s);
    if Separable(first) {
      assert s[|first|..|first| + 3] == BAR;
      SplitAtBar(s, |first|);
      assert s[..|first|] == first && s[|first| + 3..] == rest;
    }
  }

  lemma SplitAtBar(s: string, p: nat)
    requires p == FindBar(s) && p + 3 <= |s| && s[p..p + 3] == BAR
    ensures Split(s) == [s[..p]] + Split(s[p + 3..])
  {
  }

  // ----- telling values apart by the report -----

  function LeftoverText(name: string, left: Word): string {
    if left == 0 then "" else "Unknown perf_event_attr." + name + " bits: " + Print(left, 16)
  }

  function Line(name: string, joined: string): string {
    "\t" + name + ": " + joined + "\n"
  }

  lemma ReportShape(name: string, keys: seq<Key>, value: Word)
    ensures Report(name, keys, value) ==
      LeftoverText(name, Leftover(keys, value)) + Line(name, Join(Names(Active(keys, value)), BAR))
  {
  }

  /** What is written when two keys and some other bits are found. */
  lemma ReportText(name: string, keys: seq<Key>, value: Word, a: Key, b: Key)
    requires Active(keys, value) == [a, b] && Leftover(keys, value) != 0
    ensures Report(name, keys, value) ==
      "Unknown perf_event_attr." + name + " bits: " + Print(Leftover(keys, value), 16)
      + "\t" + name + ": " + a.name + " | " + b.name + "\n"
  {
    assert Names([a, b]) == [a.name, b.name];
    assert Join([a.name, b.name], BAR) == a.name + BAR + b.name;
    var front := "Unknown perf_event_attr." + name + " bits: " + Print(Leftover(keys, value), 16) + "\t" + name + ": ";
    assert front + (a.name + BAR + b.name) == front + a.name + " | " + b.name;
  }

  lemma SameRemainder(front: string, a: string, b: string)
    requires front + a == front + b
    ensures a == b
  {
    assert (front + a)[|front|..] == a && (front + b)[|front|..] == b;
  }

  lemma SameJoined(name: string, a: string, b: string)
    requires Line(name, a) == Line(name, b)
    ensures a == b
  {
    var front := "\t" + name + ": ";
    assert Line(name, a) == front + (a + "\n") && Line(name, b) == front + (b + "\n");
    SameRemainder(front, a + "\n", b + "\n");
    assert (a + "\n")[..|a|] == a && (b + "\n")[..|b|] == b;
  }

  lemma SameNumber(front: string, v: Word, w: Word, a: string, b: string)
    requires Stops(a, 16) && Stops(b, 16)
    requires front + Print(v, 16) + a == front + Print(w, 16) + b
    ensures v == w && a == b
  {
    assert front + Print(v, 16) + a == front + (Print(v, 16) + a);
    assert front + Print(w, 16) + b == front + (Print(w, 16) + b);
    SameRemainder(front, Print(v, 16) + a, Print(w, 16) + b);
    DigitsOfPrint(v, 16, a);
    DigitsOfPrint(w, 16, b);
    SameRemainder(Print(v, 16), a, b);
  }

  lemma LineStops(name: string, joined: string)
    ensures Stops(Line(name, joined), 16)
  {
  }

  /** The text before the line ends where the line starts, so equal texts have equal parts. */
  lemma SameParts(name: string, v: Word, w: Word, a: string, b: string)
    requires LeftoverText(name, v) + Line(name, a) == LeftoverText(name, w) + Line(name, b)
    ensures v == w && a == b
  {
    OneStart(name, v, a);
    OneStart(name, w, b);
    if v != 0 && w != 0 {
      LineStops(name, a);
      LineStops(name, b);
      SameNumber("Unknown perf_event_attr." + name + " bits: ", v, w, Line(name, a), Line(name, b));
    }
    SameJoined(name, a, b);
  }

  lemma OneStart(name: string, left: Word, joined: string)
    ensures var s := LeftoverText(name, left) + Line(name, joined);
      s != "" && s[0] == (if left == 0 then '\t' else 'U') && (left == 0 ==> s == Line(name, joined))
  {
  }

  /** Names that can be told apart in the joined text. */
  predicate ClearNames(keys: seq<Key>) {
    && (forall k :: 0 <= k < |keys| ==> keys[k].name != "" && Separable(keys[k].name))
    && forall j, k :: 0 <= j < k < |keys| ==> keys[j].name != keys[k].name
  }

  lemma {:induction false} ClearNamesReadBack(names: seq<string>)
    requires names != [] && forall n :: n in names ==> Separable(n)
    ensures ReadsBack(names)
  {
    assert names[0] in names;
    if |names| > 1 {
      assert forall n :: n in names[1..] ==> n in names;
      ClearNamesReadBack(names[1..]);
    }
  }

  lemma SameNames(a: seq<string>, b: seq<string>)
    requires forall n :: n in a + b ==> n != "" && Separable(n)
    requires Join(a, BAR) == Join(b, BAR)
    ensures a == b
  {
    assert a != [] ==> a[0] in a + b;
    assert b != [] ==> b[0] in a + b;
    if a != [] && b != [] {
      assert forall n :: n in a || n in b ==> n in a + b;
      ClearNamesReadBack(a);
      ClearNamesReadBack(b);
      SplitsBackIff(a);
      SplitsBackIff(b);
    } else {
      EmptyJoin(a);
      EmptyJoin(b);
    }
  }

  lemma EmptyJoin(names: seq<string>)
    requires names != [] ==> names[0] != ""
    ensures Join(names, BAR) == "" <==> names == []
  {
  }

  lemma {:induction false} NamesOf(keys: seq<Key>, name: string)
    ensures name in Names(keys) <==> exists key :: key in keys && key.name == name
  {
    if keys != [] {
      NamesOf(keys[1..], name);
      assert keys == [keys[0]] + keys[1..];
      assert keys[0] in keys && forall key :: key in keys <==> key == keys[0] || key in keys[1..];
    }
  }

  /** With clear names, the names listed say which keys claim a bit. */
  lemma NameListed(keys: seq<Key>, value: Word, k: nat)
    requires ClearNames(keys) && k < |keys|
    ensures keys[k].name in Names(Active(keys, value)) <==> Claims(keys, value, k)
  {
    ListedClaim(keys, value);
    NamesOf(Active(keys, value), keys[k].name);
    ListedAreClaiming(keys, value, |keys|, keys[k]);
    if key :| key in Active(keys, value) && key.name == keys[k].name {
      ListedAreClaiming(keys, value, |keys|, key);
      var j :| 0 <= j < |keys| && Claims(keys, value, j) && keys[j] == key;
      assert !(j < k) && !(k < j);
    }
  }

  lemma ListedNamesClear(keys: seq<Key>, value: Word, name: string)
    requires ClearNames(keys) && name in Names(Active(keys, value))
    ensures name != "" && Separable(name)
  {
    ListedClaim(keys, value);
    NamesOf(Active(keys, value), name);
    var key :| key in Active(keys, value) && key.name == name;
    ListedAreClaiming(keys, value, |keys|, key);
  }

  ghost predicate SameClaims(keys: seq<Key>, v: Word, w: Word) {
    forall k: nat :: k < |keys| ==> (Claims(keys, v, k) <==> Claims(keys, w, k))
  }

  /** Equal reports have equal leftovers and the same claiming keys. */
  lemma SameReport(n: string, keys: seq<Key>, v: Word, w: Word)
    requires ClearNames(keys) && Report(n, keys, v) == Report(n, keys, w)
    ensures Leftover(keys, v) == Leftover(keys, w)
    ensures SameClaims(keys, v, w)
  {
    var a, b := Names(Active(keys, v)), Names(Active(keys, w));
    ReportShape(n, keys, v);
    ReportShape(n, keys, w);
    SameParts(n, Leftover(keys, v), Leftover(keys, w), Join(a, BAR), Join(b, BAR));
    forall name | name in a + b ensures name != "" && Separable(name) {
      ListedNamesClear(keys, if name in a then v else w, name);
    }
    SameNames(a, b);
    forall k: nat | k < |keys| ensures Claims(keys, v, k) <==> Claims(keys, w, k) {
      NameListed(keys, v, k);
      NameListed(keys, w, k);
    }
  }

  /** Key `k` has at most one bit that no earlier key has. */
  ghost predicate OneOwnBit(keys: seq<Key>, k: nat)
    requires k < |keys|
  {
    forall i, j :: 0 <= i < j < WIDTH ==> !(OwnBit(keys, k, i) && OwnBit(keys, k, j))
  }

  lemma {:induction false} FirstWithBit(keys: seq<Key>, i: nat, n: nat) returns (k: nat)
    requires i < WIDTH && n <= |keys| && InSomeKey(keys[..n], i)
    ensures k < n && OwnBit(keys, k, i)
    decreases n
  {
    var last := n - 1;
    if InSomeKey(keys[..last], i) {
      k := FirstWithBit(keys, i, last);
    } else {
      assert keys[..n] == keys[..last] + [keys[last]];
      k := last;
    }
  }

  /** A bit that is the only own bit of its key is in the value iff the key claims a bit. */
  lemma OwnBitClaimed(keys: seq<Key>, value: Word, k: nat, i: nat)
    requires k < |keys| && i < WIDTH && OwnBit(keys, k, i) && OneOwnBit(keys, k)
    ensures BitsOf(value)[i] <==> Claims(keys, value, k)
  {
    if Claims(keys, value, k) {
      var j :| 0 <= j < WIDTH && BitsOf(value)[j] && BitsOf(keys[k].bits)[j] && !InSomeKey(keys[..k], j);
      assert OwnBit(keys, k, j);
      assert !(i < j) && !(j < i);
    }
  }

  lemma OwnBitDecided(keys: seq<Key>, v: Word, w: Word, k: nat, i: nat)
    requires k < |keys| && i < WIDTH && OwnBit(keys, k, i) && OneOwnBit(keys, k) && SameClaims(keys, v, w)
    ensures BitsOf(v)[i] == BitsOf(w)[i]
  {
    OwnBitClaimed(keys, v, k, i);
    OwnBitClaimed(keys, w, k, i);
  }

  /** A bit of the value is decided by the leftover and the claiming keys. */
  lemma BitDecided(keys: seq<Key>, v: Word, w: Word, i: nat)
    requires i < WIDTH && Leftover(keys, v) == Leftover(keys, w) && SameClaims(keys, v, w)
    requires forall k: nat :: k < |keys| ==> OneOwnBit(keys, k)
    ensures BitsOf(v)[i] == BitsOf(w)[i]
  {
    if InSomeKey(keys, i) {
      assert keys[..|keys|] == keys;
      var k := FirstWithBit(keys, i, |keys|);
      OwnBitDecided(keys, v, w, k, i);
    } else {
      LeftoverMeaning(keys, v, i);
      LeftoverMeaning(keys, w, i);
    }
  }

  /** With clear names, different values have different reports iff no key has two bits that no earlier
      key has. */
  lemma ReportTellsApartIff(n: string, keys: seq<Key>)
    requires ClearNames(keys)
    ensures (forall v: Word, w: Word :: Report(n, keys, v) == Report(n, keys, w) ==> v == w) <==>
      forall k :: 0 <= k < |keys| ==> OneOwnBit(keys, k)
  {
    if forall k :: 0 <= k < |keys| ==> OneOwnBit(keys, k) {
      forall v: Word, w: Word | Report(n, keys, v) == Report(n, keys, w) ensures v == w {
        SameReport(n, keys, v, w);
        forall i | 0 <= i < WIDTH ensures BitsOf(v)[i] == BitsOf(w)[i] {
          BitDecided(keys, v, w, i);
        }
        assert BitsOf(v) == BitsOf(w);
        SameBits(v, w);
      }
    }
    forall k | 0 <= k < |keys| && !OneOwnBit(keys, k)
      ensures exists v: Word, w: Word :: Report(n, keys, v) == Report(n, keys, w) && v != w
    {
      var v, w := TwoOwnBitsConfused(n, keys, k);
    }
  }

  /** With two own bits, a value that has one of them reads like the value that has the other. */
  lemma TwoOwnBitsConfused(n: string, keys: seq<Key>, k: nat) returns (v: Word, w: Word)
    requires k < |keys| && !OneOwnBit(keys, k)
    ensures Report(n, keys, v) == Report(n, keys, w) && v != w
  {
    var i, j :| 0 <= i < j < WIDTH && OwnBit(keys, k, i) && OwnBit(keys, k, j);
    v, w := FromBits(RunBits(WIDTH, i, i)), FromBits(RunBits(WIDTH, j, j));
    assert BitsOf(v)[i] && !BitsOf(w)[i];
    OneBitTaken(keys, v, k, i);
    OneBitTaken(keys, w, k, j);
  }

  /** A value of one bit is taken by the first key that has it. */
  lemma OneBitTaken(keys: seq<Key>, value: Word, k: nat, i: nat)
    requires k < |keys| && i < WIDTH && OwnBit(keys, k, i) && OnlyBit(value, i)
    ensures Leftover(keys, value) == 0 && Active(keys, value) == [keys[k]]
  {
    ZeroLowBits(WIDTH);
    assert keys[k] in keys;
    forall b | 0 <= b < WIDTH ensures !BitsOf(Leftover(keys, value))[b] {
      LeftoverMeaning(keys, value, b);
    }
    assert BitsOf(Leftover(keys, value)) == BitsOf(0);
    SameBits(Leftover(keys, value), 0);
    ListedClaim(keys, value);
    OneClaims(keys, value, k, i, |keys|);
  }

  lemma {:induction false} OneClaims(keys: seq<Key>, value: Word, k: nat, i: nat, n: nat)
    requires k < |keys| && i < WIDTH && OwnBit(keys, k, i) && OnlyBit(value, i) && n <= |keys|
    ensures Claiming(keys, value, n) == if k < n then [keys[k]] else []
    decreases n
  {
    if n != 0 {
      var last := n - 1;
      OneClaims(keys, value, k, i, last);
      if last > k {
        assert keys[k] in keys[..last];
      } else if last == k {
        assert Claims(keys, value, k);
      } else {
        assert keys[last] in keys[..k];
      }
      assert Claims(keys, value, last) <==> last == k;
    }
  }

  /** With clear names and keys of one bit each, the text of the report determines the value. */
  lemma SingleBitReportsDiffer(n: string, keys: seq<Key>, v: Word, w: Word)
    requires ClearNames(keys) && forall k :: 0 <= k < |keys| ==> SingleBit(keys[k].bits)
    requires Report(n, keys, v) == Report(n, keys, w)
    ensures v == w
  {
    forall k | 0 <= k < |keys| ensures OneOwnBit(keys, k) {
      var only :| 0 <= only < WIDTH && OnlyBit(keys[k].bits, only);
    }
    ReportTellsApartIff(n, keys);
  }

  // ----- system call filters -----

  function Condition(id: int): string {
    "id == " + PrintInt(id)
  }

  /** The conditions of a filter. */
  function Conditions(ids: seq<int>): (r: seq<string>)
    ensures |r| == |ids|
  {
    if ids == [] then [] else [Condition(ids[0])] + Conditions(ids[1..])
  }

  lemma {:induction false} ConditionsAppend(ids: seq<int>, id: int)
    ensures Conditions(ids + [id]) == Conditions(ids) + [Condition(id)]
  {
    if ids != [] {
      assert (ids + [id])[1..] == ids[1..] + [id];
      ConditionsAppend(ids[1..], id);
    }
  }

  /** The text handed to the kernel; nothing is sent for an empty list. */
  method SyscallFilter(ids: seq<int>) returns (filter: Option<string>)
    ensures filter == if ids == [] then None else Some(Join(Conditions(ids), "||"))
  {
    if ids == [] {
      return None;
    }
    var names: seq<string> := [];
    for k := 0 to |ids|
      invariant names == Conditions(ids[..k])
    {
      assert ids[..k + 1] == ids[..k] + [ids[k]];
      ConditionsAppend(ids[..k], ids[k]);
      names := names + ["id == " + PrintInt(ids[k])];
    }
    assert ids[..|ids|] == ids;
    return Some(Join(names, "||"));
  }

  /** The length of the number `s` starts with: an optional minus sign and digits. */
  function NumberLength(s: string): (n: nat)
    ensures n <= |s|
  {
    if s != "" && s[0] == '-' then 1 + DigitRun(s[1..], 10) else DigitRun(s, 10)
  }

  /** A filter expression read as a disjunction of `id == n`, if it is one. */
  function ReadFilter(s: string): Option<seq<int>>
    decreases |s|
  {
    if |s| < 6 || s[..6] != "id == " then None
    else
      var t := s[6..];
      var n := NumberLength(t);
      match Numeral(t[..n], 10)
      case None => None
      case Some(id) =>
        var rest := t[n..];
        if rest == "" then Some([id])
        else if |rest| < 2 || rest[..2] != "||" then None
        else
          match ReadFilter(rest[2..])
          case None => None
          case Some(ids) => Some([id] + ids)
  }

  lemma NumberLengthOf(id: int, rest: string)
    requires rest == "" || rest[0] == '|'
    ensures NumberLength(PrintInt(id) + rest) == |PrintInt(id)|
  {
    if id < 0 {
      DigitsBefore(-id, rest);
      assert PrintInt(id) + rest == "-" + (Print(-id, 10) + rest);
      assert ("-" + (Print(-id, 10) + rest))[1..] == Print(-id, 10) + rest;
    } else {
      DigitsBefore(id, rest);
    }
  }

  lemma DigitsBefore(n: nat, rest: string)
    requires rest == "" || rest[0] == '|'
    ensures DigitRun(Print(n, 10) + rest, 10) == |Print(n, 10)|
    ensures (Print(n, 10) + rest)[0] != '-'
  {
    PrintIsDigits(n, 10);
    RunOfDigits(Print(n, 10), rest, 10);
  }

  /** Reading a condition: its id, and the text after it. */
  lemma FirstCondition(id: int, rest: string)
    requires rest == "" || rest[0] == '|'
    ensures var s := Condition(id) + rest;
      |s| >= 6 && s[..6] == "id == " &&
      (var t := s[6..]; t[NumberLength(t)..] == rest && Numeral(t[..NumberLength(t)], 10) == Some(id))
  {
    var s := Condition(id) + rest;
    assert s[6..] == PrintInt(id) + rest;
    NumberLengthOf(id, rest);
    NumeralOfPrint(id, "");
    assert PrintInt(id) + "" == PrintInt(id);
    assert s[6..][..|PrintInt(id)|] == PrintInt(id);
  }

  lemma ReadLast(id: int)
    ensures ReadFilter(Condition(id)) == Some([id])
  {
    FirstCondition(id, "");
    assert Condition(id) + "" == Condition(id);
  }

  lemma ReadMore(id: int, rest: string, ids: seq<int>)
    requires ReadFilter(rest) == Some(ids)
    ensures ReadFilter(Condition(id) + ("||" + rest)) == Some([id] + ids)
  {
    FirstCondition(id, "||" + rest);
    assert ("||" + rest)[..2] == "||" && ("||" + rest)[2..] == rest;
  }

  /** Reading the generated text recovers the ids, in order, negative ones included. */
  lemma {:induction false} FilterRoundTrip(ids: seq<int>)
    requires ids != []
    ensures ReadFilter(Join(Conditions(ids), "||")) == Some(ids)
  {
    assert [ids[0]] + ids[1..] == ids;
    if |ids| == 1 {
      assert ids == [ids[0]] && Conditions(ids) == [Condition(ids[0])];
      ReadLast(ids[0]);
    } else {
      FilterRoundTrip(ids[1..]);
      JoinMore(Condition(ids[0]), Conditions(ids[1..]), "||");
      ReadMore(ids[0], Join(Conditions(ids[1..]), "||"), ids[1..]);
    }
  }

  /** The filter, read as a disjunction, accepts exactly the listed system calls. */
  predicate Accepts(filter: string, id: int) {
    match ReadFilter(filter)
    case None => false
    case Some(ids) => id in ids
  }

  lemma FilterMeaning(ids: seq<int>, id: int)
    requires ids != []
    ensures Accepts(Join(Conditions(ids), "||"), id) <==> id in ids
  {
    FilterRoundTrip(ids);
  }
}
