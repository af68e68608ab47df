/**
  The recorder's action code: five key signals packed into a 5-bit mask
  (bit 0 LEFT, bit 1 RIGHT, bit 2 JUMP, bit 3 ACTION, bit 4 DOWN), LEFT taking
  precedence over RIGHT, and the decoder back to an ordered label list.
*/
module ActionCodec {
  import opened Text

  /** The five key signals read from the keyboard on one tick. */
  datatype Keys = Keys(left: bool, right: bool, jump: bool, action: bool, down: bool)

  /** The labels `decode_action` emits. */
  datatype Label = LEFT | RIGHT | JUMP | ACTION | DOWN | NONE

  /**
    Python's `code & (1 << k) != 0`.  Python ints behave as infinite two's
    complement, so bit k is the parity after k floor-halvings; Dafny's division
    by 2 is floor division, so this holds for negative codes too.
  */
  predicate Bit(code: int, k: nat)
    decreases k
  {
    if k == 0 then code % 2 == 1 else Bit(code / 2, k - 1)
  }

  function Pow2(k: nat): (p: nat)
    ensures p >= 1
  {
    if k == 0 then 1 else 2 * Pow2(k - 1)
  }

  /** Adding a multiple of 2^n leaves the bits below n alone. */
  lemma {:induction false} BitShift(x: int, q: int, n: nat, k: nat)
    requires k < n
    ensures Bit(x + Pow2(n) * q, k) == Bit(x, k)
    decreases k
  {
    var y := Pow2(n - 1) * q;
    assert Pow2(n) * q == 2 * y;
    if k > 0 {
      assert (x + 2 * y) / 2 == x / 2 + y;
      BitShift(x / 2, q, n - 1, k - 1);
    }
  }

  /** Two numbers in [0, 2^n) with the same low n bits are equal. */
  lemma {:induction false} BitsDetermineValue(a: int, b: int, n: nat)
    requires 0 <= a < Pow2(n) && 0 <= b < Pow2(n)
    requires forall k :: 0 <= k < n ==> (Bit(a, k) <==> Bit(b, k))
    ensures a == b
  {
    if n > 0 {
      assert Bit(a, 0) == Bit(b, 0);
      forall k | 0 <= k < n - 1
        ensures Bit(a / 2, k) <==> Bit(b / 2, k)
      {
        assert Bit(a, k + 1) == Bit(a / 2, k);
        assert Bit(b, k + 1) == Bit(b / 2, k);
      }
      BitsDetermineValue(a / 2, b / 2, n - 1);
    }
  }

  /** Appending a low bit shifts every other bit up by one place. */
  lemma BitStep(x: int, b: int, k: nat)
    requires 0 <= b <= 1
    ensures Bit(2 * x + b, 0) <==> b == 1
    ensures Bit(2 * x + b, k + 1) == Bit(x, k)
  {
    assert (2 * x + b) % 2 == b;
    assert (2 * x + b) / 2 == x;
  }

  /** The number whose binary digits, lowest first, are `bs`. */
  function Horner(bs: seq<int>): int {
    if |bs| == 0 then 0 else bs[0] + 2 * Horner(bs[1..])
  }

  /** Bit k of `Horner(bs)` is `bs[k]`. */
  lemma {:induction false} HornerBit(bs: seq<int>, k: nat)
    requires forall i :: 0 <= i < |bs| ==> 0 <= bs[i] <= 1
    requires k < |bs|
    ensures Bit(Horner(bs), k) <==> bs[k] == 1
  {
    BitStep(Horner(bs[1..]), bs[0], if k == 0 then 0 else k - 1);
    if k > 0 {
      HornerBit(bs[1..], k - 1);
    }
  }

  lemma Horner5(b0: int, b1: int, b2: int, b3: int, b4: int)
    ensures Horner([b0, b1, b2, b3, b4]) == b0 + 2 * b1 + 4 * b2 + 8 * b3 + 16 * b4
  {
    assert Horner([b4]) == b4 by {
      assert [b4][1..] == [];
    }
    assert Horner([b3, b4]) == b3 + 2 * b4 by {
      assert [b3, b4][1..] == [b4];
    }
    assert Horner([b2, b3, b4]) == b2 + 2 * b3 + 4 * b4 by {
      assert [b2, b3, b4][1..] == [b3, b4];
    }
    assert Horner([b1, b2, b3, b4]) == b1 + 2 * b2 + 4 * b3 + 8 * b4 by {
      assert [b1, b2, b3, b4][1..] == [b2, b3, b4];
    }
    assert [b0, b1, b2, b3, b4][1..] == [b1, b2, b3, b4];
  }

  /** The position of a label in the fixed output order LEFT|RIGHT, JUMP, ACTION, DOWN. */
  function Rank(l: Label): nat {
    match l
    case LEFT => 0
    case RIGHT => 1
    case JUMP => 2
    case ACTION => 3
    case DOWN => 4
    case NONE => 5
  }

  /**
    The value `encode_action` builds: 1 or else 2 for the horizontal keys,
    plus 4, 8 and 16 for the others. The masks are disjoint, so OR-ing them
    in is adding them.
  */
  function Mask(keys: Keys): int {
    (if keys.left then 1 else if keys.right then 2 else 0)
    + (if keys.jump then 4 else 0)
    + (if keys.action then 8 else 0)
    + (if keys.down then 16 else 0)
  }

  /** The bits of `Mask(keys)` are the held keys, LEFT taking precedence over RIGHT. */
  lemma MaskBits(keys: Keys)
    ensures 0 <= Mask(keys) < 32
    ensures Bit(Mask(keys), 0) <==> keys.left
    ensures Bit(Mask(keys), 1) <==> !keys.left && keys.right
    ensures Bit(Mask(keys), 2) <==> keys.jump
    ensures Bit(Mask(keys), 3) <==> keys.action
    ensures Bit(Mask(keys), 4) <==> keys.down
  {
    var bs := [if keys.left then 1 else 0, if !keys.left && keys.right then 1 else 0,
               if keys.jump then 1 else 0, if keys.action then 1 else 0, if keys.down then 1 else 0];
    Horner5(bs[0], bs[1], bs[2], bs[3], bs[4]);
    assert Mask(keys) == Horner(bs);
    HornerBit(bs, 0);
    HornerBit(bs, 1);
    HornerBit(bs, 2);
    HornerBit(bs, 3);
    HornerBit(bs, 4);
  }

  /**
    `encode_action`: a code below 32 whose bits 0 to 4 are LEFT, RIGHT
    (only when LEFT is not held), JUMP, ACTION and DOWN.
  */
  function Encode(keys: Keys): (code: int)
    ensures 0 <= code < 32
    ensures Bit(code, 0) <==> keys.left
    ensures Bit(code, 1) <==> !keys.left && keys.right
    ensures Bit(code, 2) <==> keys.jump
    ensures Bit(code, 3) <==> keys.action
    ensures Bit(code, 4) <==> keys.down
    ensures !(Bit(code, 0) && Bit(code, 1))
  {
    MaskBits(keys);
    Mask(keys)
  }

  /** A label list in the fixed output order, each label at most once. */
  predicate Ranked(labels: seq<Label>) {
    forall i, j :: 0 <= i < j < |labels| ==> Rank(labels[i]) < Rank(labels[j])
  }

  /**
    A label is appended for a set of flags.  RIGHT needs LEFT clear: this is
    the `elif` of the source, and it is also why LEFT wins over RIGHT.
  */
  predicate Held(f: Keys, l: Label) {
    match l
    case LEFT => f.left
    case RIGHT => !f.left && f.right
    case JUMP => f.jump
    case ACTION => f.action
    case DOWN => f.down
    case NONE => false
  }

  /** The labels of `order` that the flags hold, in the order of `order`. */
  function Filter(f: Keys, order: seq<Label>): (r: seq<Label>)
    ensures forall l :: l in r <==> l in order && Held(f, l)
  {
    if |order| == 0 then []
    else (if Held(f, order[0]) then [order[0]] else []) + Filter(f, order[1..])
  }

  lemma RankedTail(order: seq<Label>)
    requires Ranked(order) && |order| > 0
    ensures Ranked(order[1..])
  {
    forall i, j | 0 <= i < j < |order[1..]|
      ensures Rank(order[1..][i]) < Rank(order[1..][j])
    {
      assert order[1..][i] == order[i + 1] && order[1..][j] == order[j + 1];
    }
  }

  lemma RankedHead(order: seq<Label>, x: Label)
    requires Ranked(order) && |order| > 0 && x in order[1..]
    ensures Rank(order[0]) < Rank(x)
  {
    var m :| 0 <= m < |order[1..]| && order[1..][m] == x;
    assert order[m + 1] == x;
  }

  lemma RankedCons(x: Label, rest: seq<Label>)
    requires Ranked(rest)
    requires forall y :: y in rest ==> Rank(x) < Rank(y)
    ensures Ranked([x] + rest)
  {
    var r := [x] + rest;
    forall i, j | 0 <= i < j < |r|
      ensures Rank(r[i]) < Rank(r[j])
    {
      assert r[j] == rest[j - 1] && r[j] in rest;
      if i > 0 {
        assert r[i] == rest[i - 1];
      }
    }
  }

  /** Filtering keeps the relative order of what it keeps. */
  lemma {:induction false} FilterRanked(f: Keys, order: seq<Label>)
    requires Ranked(order)
    ensures Ranked(Filter(f, order))
  {
    if |order| > 0 {
      var rest := Filter(f, order[1..]);
      RankedTail(order);
      FilterRanked(f, order[1..]);
      if Held(f, order[0]) {
        forall y | y in rest
          ensures Rank(order[0]) < Rank(y)
        {
          RankedHead(order, y);
        }
        RankedCons(order[0], rest);
      } else {
        assert Filter(f, order) == rest;
      }
    }
  }

  /** The order in which `decode_action` tests the bits. */
  const Canonical: seq<Label> := [LEFT, RIGHT, JUMP, ACTION, DOWN]

  /**
    The label list a set of flags stands for: the held labels in the fixed
    order, or ["NONE"] when nothing is held.
  */
  function Labels(f: Keys): (labels: seq<Label>)
    ensures |labels| >= 1
    ensures LEFT in labels <==> f.left
    ensures RIGHT in labels <==> !f.left && f.right
    ensures JUMP in labels <==> f.jump
    ensures ACTION in labels <==> f.action
    ensures DOWN in labels <==> f.down
    ensures NONE in labels <==> labels == [NONE]
    ensures labels == [NONE] <==> !(f.left || f.right || f.jump || f.action || f.down)
    ensures Ranked(labels)
  {
    var held := Filter(f, Canonical);
    CanonicalRanked();
    FilterRanked(f, Canonical);
    NothingHeld(f);
    CanonicalHeld(f);
    if held == [] then [NONE] else held
  }

  lemma CanonicalRanked()
    ensures Ranked(Canonical)
  {
    forall i, j | 0 <= i < j < |Canonical|
      ensures Rank(Canonical[i]) < Rank(Canonical[j])
    {
      assert Rank(Canonical[i]) == i && Rank(Canonical[j]) == j;
    }
  }

  /** Which labels the fixed order lets through for a set of flags. */
  lemma CanonicalHeld(f: Keys)
    ensures var held := Filter(f, Canonical);
      && (LEFT in held <==> f.left)
      && (RIGHT in held <==> !f.left && f.right)
      && (JUMP in held <==> f.jump)
      && (ACTION in held <==> f.action)
      && (DOWN in held <==> f.down)
      && NONE !in held
  {
    assert LEFT in Canonical && RIGHT in Canonical && JUMP in Canonical;
    assert ACTION in Canonical && DOWN in Canonical && NONE !in Canonical;
  }

  /** No label is held exactly when no key is. */
  lemma NothingHeld(f: Keys)
    ensures Filter(f, Canonical) == [] <==> !(f.left || f.right || f.jump || f.action || f.down)
  {
    var held := Filter(f, Canonical);
    if held != [] { assert Held(f, held[0]); }
    if f.left { assert LEFT in held; }
    else if f.right { assert RIGHT in held; }
    else if f.jump { assert JUMP in held; }
    else if f.action { assert ACTION in held; }
    else if f.down { assert DOWN in held; }
  }

  /** The five flags `code & 1`, `code & 2`, `code & 4`, `code & 8`, `code & 16`. */
  function Flags(code: int): Keys {
    Keys(Bit(code, 0), Bit(code, 1), Bit(code, 2), Bit(code, 3), Bit(code, 4))
  }

  /**
    `decode_action`: examines bits 0-4 of any int independently, lists LEFT
    before RIGHT with LEFT winning when both are set, and answers ["NONE"]
    when none of the five bits is set.
  */
  function Decode(code: int): (labels: seq<Label>)
    ensures |labels| >= 1
    ensures LEFT in labels <==> Bit(code, 0)
    ensures RIGHT in labels <==> !Bit(code, 0) && Bit(code, 1)
    ensures JUMP in labels <==> Bit(code, 2)
    ensures ACTION in labels <==> Bit(code, 3)
    ensures DOWN in labels <==> Bit(code, 4)
    ensures NONE in labels <==> labels == [NONE]
    ensures labels == [NONE] <==> forall k :: 0 <= k < 5 ==> !Bit(code, k)
    ensures Ranked(labels)
  {
    var labels := Labels(Flags(code));
    assert labels == [NONE] ==> forall k :: 0 <= k < 5 ==> !Bit(code, k) by {
      if labels == [NONE] {
        forall k | 0 <= k < 5
          ensures !Bit(code, k)
        {
          assert k == 0 || k == 1 || k == 2 || k == 3 || k == 4;
        }
      }
    }
    labels
  }

  /** Decoding an encoded key state yields the labels the keys themselves stand for. */
  lemma RoundTrip(keys: Keys)
    ensures Decode(Encode(keys)) == Labels(keys)
  {
    var resolved := keys.(right := !keys.left && keys.right);
    assert Flags(Encode(keys)) == resolved;
    assert forall l :: Held(resolved, l) == Held(keys, l);
    assert Filter(resolved, Canonical) == Filter(keys, Canonical) by {
      FilterCongruent(resolved, keys, Canonical);
    }
  }

  /** Flags that hold the same labels filter alike. */
  lemma {:induction false} FilterCongruent(f: Keys, g: Keys, order: seq<Label>)
    requires forall l :: Held(f, l) == Held(g, l)
    ensures Filter(f, order) == Filter(g, order)
  {
    if |order| > 0 {
      FilterCongruent(f, g, order[1..]);
    }
  }

  /** The key state a label list describes. */
  function KeysOf(labels: seq<Label>): Keys {
    Keys(LEFT in labels, RIGHT in labels, JUMP in labels, ACTION in labels, DOWN in labels)
  }

  /** Every code `encode_action` can produce is re-encoded from its own decoding. */
  lemma DecodeThenEncode(code: int)
    requires 0 <= code < 32 && !(Bit(code, 0) && Bit(code, 1))
    ensures Encode(KeysOf(Decode(code))) == code
  {
    DecodeKeys(code);
    EncodeFlags(code);
  }

  /** Without both horizontal bits set, the labels of a code describe its flags. */
  lemma DecodeKeys(code: int)
    requires !(Bit(code, 0) && Bit(code, 1))
    ensures KeysOf(Decode(code)) == Flags(code)
  {
  }

  /** Encoding the flags of a code below 32 without both horizontal bits gives the code back. */
  lemma EncodeFlags(code: int)
    requires 0 <= code < 32 && !(Bit(code, 0) && Bit(code, 1))
    ensures Encode(Flags(code)) == code
  {
    var back := Encode(Flags(code));
    assert Pow2(5) == 32;
    forall k | 0 <= k < 5
      ensures Bit(back, k) <==> Bit(code, k)
    {
      assert k == 0 || k == 1 || k == 2 || k == 3 || k == 4;
    }
    BitsDetermineValue(back, code, 5);
  }

  /** Only the five low bits matter to the decoder. */
  lemma DecodeIgnoresHighBits(code: int)
    ensures Decode(code) == Decode(code % 32)
  {
    var r := code % 32;
    assert Pow2(5) == 32;
    assert code == r + Pow2(5) * (code / 32);
    forall k | 0 <= k < 5
      ensures Bit(code, k) <==> Bit(r, k)
    {
      BitShift(r, code / 32, 5, k);
    }
  }

  // ---------------------------------------------------------------------------
  // The action-description table of the statistics file

  /** The five entries of `tools.keybinding`, taken to name five distinct keys. */
  datatype Binding = LeftKey | RightKey | JumpKey | ActionKey | DownKey

  /** Indexing a Python dict either finds the key or raises KeyError. */
  datatype Lookup = Found(code: int) | KeyError(missing: Binding)

  /**
    `encode_action` run on a dict from key to flag: the lookups happen in source
    order (RIGHT only when LEFT is not held) and the first absent key raises.
  */
  function EncodeLookup(pressed: map<Binding, bool>): (r: Lookup)
    ensures r.KeyError? ==> r.missing !in pressed
  {
    if LeftKey !in pressed then KeyError(LeftKey)
    else if !pressed[LeftKey] && RightKey !in pressed then KeyError(RightKey)
    else if JumpKey !in pressed then KeyError(JumpKey)
    else if ActionKey !in pressed then KeyError(ActionKey)
    else if DownKey !in pressed then KeyError(DownKey)
    else
      var right := RightKey in pressed && pressed[RightKey];
      Found(Encode(Keys(pressed[LeftKey], right, pressed[JumpKey], pressed[ActionKey], pressed[DownKey])))
  }

  /** On a full key table the dict lookup is exactly `Encode`. */
  lemma EncodeLookupTotal(pressed: map<Binding, bool>)
    requires forall b: Binding :: b in pressed
    ensures EncodeLookup(pressed) == Found(Encode(Keys(pressed[LeftKey], pressed[RightKey],
                                                      pressed[JumpKey], pressed[ActionKey], pressed[DownKey])))
  {
    assert LeftKey in pressed && RightKey in pressed && JumpKey in pressed;
    assert ActionKey in pressed && DownKey in pressed;
  }

  /** The table as written: one `encode_action` call per single-key dict, keyed by `str(code)`. */
  function DescriptionsAsWritten(): Lookup {
    var singles := [map[LeftKey := true], map[RightKey := true], map[JumpKey := true],
                    map[ActionKey := true], map[DownKey := true]];
    FirstRaise(singles)
  }

  /** The first KeyError among the calls, or the last code if none raises. */
  function FirstRaise(calls: seq<map<Binding, bool>>): Lookup {
    if |calls| == 0 then Found(0)
    else
      var r := EncodeLookup(calls[0]);
      if r.KeyError? || |calls| == 1 then r else FirstRaise(calls[1..])
  }

  /** As written, building the table raises KeyError on its very first entry. */
  lemma DescriptionsAsWrittenRaise()
    ensures DescriptionsAsWritten() == KeyError(JumpKey)
  {
    assert EncodeLookup(map[LeftKey := true]) == KeyError(JumpKey);
  }

  /** The key state with only one key held. */
  function Only(b: Binding): Keys {
    Keys(b == LeftKey, b == RightKey, b == JumpKey, b == ActionKey, b == DownKey)
  }

  /** The table the statistics file evidently means: each single key's code, and 0 for NONE. */
  const ActionDescriptions: seq<(string, Label)> :=
    [("1", LEFT), ("2", RIGHT), ("4", JUMP), ("8", ACTION), ("16", DOWN), ("0", NONE)]

  const Bindings: seq<Binding> := [LeftKey, RightKey, JumpKey, ActionKey, DownKey]

  /** The key state each table entry describes: one key held, or none for the last entry. */
  function Described(i: nat): Keys
    requires i < |ActionDescriptions|
  {
    if i < |Bindings| then Only(Bindings[i]) else Keys(false, false, false, false, false)
  }

  /** The labels of a key state with at most one key held. */
  lemma LabelsOfOne(keys: Keys)
    ensures keys == Keys(true, false, false, false, false) ==> Labels(keys) == [LEFT]
    ensures keys == Keys(false, true, false, false, false) ==> Labels(keys) == [RIGHT]
    ensures keys == Keys(false, false, true, false, false) ==> Labels(keys) == [JUMP]
    ensures keys == Keys(false, false, false, true, false) ==> Labels(keys) == [ACTION]
    ensures keys == Keys(false, false, false, false, true) ==> Labels(keys) == [DOWN]
    ensures keys == Keys(false, false, false, false, false) ==> Labels(keys) == [NONE]
  {
    var o := Canonical;
    assert o[1..] == [RIGHT, JUMP, ACTION, DOWN];
    assert o[1..][1..] == [JUMP, ACTION, DOWN];
    assert o[1..][1..][1..] == [ACTION, DOWN];
    assert o[1..][1..][1..][1..] == [DOWN];
    assert o[1..][1..][1..][1..][1..] == [];
  }

  /** The code of each described key state. */
  lemma DescribedCode(i: nat)
    requires i < |ActionDescriptions|
    ensures Encode(Described(i)) == [1, 2, 4, 8, 16, 0][i]
  {
  }

  /** Each table key is `str(encode(its key state))`. */
  lemma DescriptionKeys(i: nat)
    requires i < |ActionDescriptions|
    ensures ActionDescriptions[i].0 == IntText(Encode(Described(i)))
  {
    DescribedCode(i);
    if i == 4 {
      assert IntText(16) == "16" by {
        assert Decimal(16) == Decimal(1) + [DigitChar(6)];
      }
    }
  }

  /** Each table entry's code decodes back to its label alone. */
  lemma DescriptionLabels(i: nat)
    requires i < |ActionDescriptions|
    ensures Decode(Encode(Described(i))) == [ActionDescriptions[i].1]
  {
    var keys := Described(i);
    RoundTrip(keys);
    LabelsOfOne(keys);
    if i == 0 {
      assert keys == Keys(true, false, false, false, false);
    } else if i == 1 {
      assert keys == Keys(false, true, false, false, false);
    } else if i == 2 {
      assert keys == Keys(false, false, true, false, false);
    } else if i == 3 {
      assert keys == Keys(false, false, false, true, false);
    } else if i == 4 {
      assert keys == Keys(false, false, false, false, true);
    }
  }
}
