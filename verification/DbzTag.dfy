/** Tagged slot words (dbz.c). A slot of the table holds an offset, biased so that it
    is never the vacant word, and optionally tagged with a few more bits of the key's
    hash in bits the offset does not use. */
module DbzTag {
  import opened Bits

  const VACANT: int := 0
  /** Returned by a search that reached a vacant slot. */
  const NOTFOUND: int := -1
  const TAGENB: int := 0x80
  const TAGMASK: int := 0x7f
  const TAGSHIFT: nat := 24

  /** The tag settings of a configuration, unshifted as the .dir file keeps them. */
  datatype TagConf = TagConf(enb: int, mask: int, shift: nat)

  const DEFAULT_TAGS := TagConf(TAGENB, TAGMASK, TAGSHIFT)
  const NO_TAGS := TagConf(0, 0, 0)

  datatype Probed = Vacant | Hit(value: int) | Mismatch

  /** The pre-shifted masks used by every probe. */
  datatype Tags = Tags(bits: int, here: int, shift: nat) {
    /** The two masks are apart, and there is an enable bit whenever there are tag bits. */
    ghost predicate WellFormed() {
      LONG_MIN <= bits <= LONG_MAX && LONG_MIN <= here <= LONG_MAX &&
      Apart(bits, here) && (here == 0 ==> bits == 0)
    }

    /** MKTAG: the tag of a hash quotient. */
    function MakeTag(v: int): int {
      And(ShiftLeft(v, shift), bits)
    }

    /** okayvalue: a value that shows the enable bit would be mistaken for a tagged one. */
    predicate Okay(value: int) {
      And(value, here) == 0
    }

    /** CANTAG: the value uses none of the bits a tagged word needs. */
    predicate CanTag(value: int) {
      And(value, Or(bits, here)) == 0
    }

    function WithTag(tag: int, value: int): int {
      Or(value, Or(tag, here))
    }

    /** What `set` writes for a value under a tag. */
    function Encode(tag: int, value: int): int {
      Bias(if CanTag(value) && WithTag(tag, value) != Unbias(VACANT) then WithTag(tag, value) else value)
    }

    /** What `search` makes of a slot word while looking for a tag. */
    function Decode(word: int, tag: int): Probed {
      var value := Unbias(word);
      if word == VACANT then Vacant
      else if And(value, here) == 0 then Hit(value)
      else if And(value, bits) == tag then Hit(And(value, Not(Or(bits, here))))
      else Mismatch
    }
  }

  /** Makes any offset non-vacant; the largest `long` wraps. */
  function Bias(o: int): int {
    if o == LONG_MAX then LONG_MIN else o + 1
  }

  function Unbias(o: int): int {
    if o == LONG_MIN then LONG_MAX else o - 1
  }

  function Shifted(c: TagConf): Tags {
    Tags(ShiftLeft(c.mask, c.shift), ShiftLeft(c.enb, c.shift), c.shift)
  }

  /** A tag the key's hash can give. */
  ghost predicate TagFor(t: Tags, tag: int) {
    LONG_MIN <= tag <= LONG_MAX && forall k: nat :: Bit(tag, k) ==> Bit(t.bits, k)
  }

  lemma MakeTagFits(t: Tags, v: int)
    requires t.WellFormed()
    ensures TagFor(t, t.MakeTag(v))
  {
    LongOps(ShiftLeft(v, t.shift), t.bits);
    forall k: nat
      ensures Bit(t.MakeTag(v), k) ==> Bit(t.bits, k)
    {
      AndBit(ShiftLeft(v, t.shift), t.bits, k);
    }
  }

  lemma WithTagBits(t: Tags, tag: int, value: int, k: nat)
    ensures Bit(t.WithTag(tag, value), k) <==> Bit(value, k) || Bit(tag, k) || Bit(t.here, k)
    ensures Bit(Or(t.bits, t.here), k) <==> Bit(t.bits, k) || Bit(t.here, k)
    ensures Bit(Not(Or(t.bits, t.here)), k) <==> !Bit(t.bits, k) && !Bit(t.here, k)
  {
    OrBit(tag, t.here, k);
    OrBit(value, Or(tag, t.here), k);
    OrBit(t.bits, t.here, k);
    NotBit(Or(t.bits, t.here), k);
  }

  /** A tagged word gives back its tag, its enable bit and the offset it was made of. */
  lemma WithTagReadBack(t: Tags, tag: int, value: int)
    requires t.WellFormed() && TagFor(t, tag) && t.CanTag(value)
    ensures And(t.WithTag(tag, value), t.bits) == tag
    ensures And(t.WithTag(tag, value), t.here) == t.here
    ensures And(t.WithTag(tag, value), Not(Or(t.bits, t.here))) == value
  {
    var v := t.WithTag(tag, value);
    AndZero(value, Or(t.bits, t.here));
    forall k: nat
      ensures Bit(And(v, t.bits), k) <==> Bit(tag, k)
      ensures Bit(And(v, t.here), k) <==> Bit(t.here, k)
      ensures Bit(And(v, Not(Or(t.bits, t.here))), k) <==> Bit(value, k)
    {
      WithTagBits(t, tag, value, k);
      AndBit(v, t.bits, k);
      AndBit(v, t.here, k);
      AndBit(v, Not(Or(t.bits, t.here)), k);
    }
    SameBits(And(v, t.bits), tag);
    SameBits(And(v, t.here), t.here);
    SameBits(And(v, Not(Or(t.bits, t.here))), value);
  }

  /** Without an enable bit a tag changes nothing. */
  lemma WithNoTag(t: Tags, tag: int, value: int)
    requires t.bits == 0 && t.here == 0 && TagFor(t, tag)
    ensures t.WithTag(tag, value) == value
  {
    forall k: nat
      ensures Bit(t.WithTag(tag, value), k) <==> Bit(value, k)
    {
      WithTagBits(t, tag, value, k);
      ZeroBits(k);
    }
    SameBits(t.WithTag(tag, value), value);
  }

  /** Whether looking under another tag passes over a stored value: it does when the
      value was stored tagged. */
  predicate Hidden(t: Tags, tag: int, value: int, other: int) {
    other != tag && t.here != 0 && t.CanTag(value) && t.WithTag(tag, value) != -1
  }

  /** What `set` stores is never vacant, and `search` reads it back as the same offset
      under the same tag. Under another tag it is skipped exactly when it was stored
      tagged, and read back as the same offset otherwise. */
  lemma EncodeDecode(t: Tags, tag: int, value: int, other: int)
    requires t.WellFormed() && TagFor(t, tag) && t.Okay(value) && 0 <= value <= LONG_MAX
    ensures t.Encode(tag, value) != VACANT
    ensures t.Decode(t.Encode(tag, value), tag) == Hit(value)
    ensures t.Decode(t.Encode(tag, value), other) == if Hidden(t, tag, value, other) then Mismatch else Hit(value)
  {
    if t.CanTag(value) {
      LongOps(tag, t.here);
      LongOps(value, Or(tag, t.here));
      WithTagReadBack(t, tag, value);
      if t.here == 0 {
        WithNoTag(t, tag, value);
      }
    }
  }

  // ---- choosing the masks -------------------------------------------------

  /** The bits just above runs of ones, found the way `dbzfresh` and `dbzagain` find them. */
  function NextBit(m: int): int {
    And(Wrap(2 * m), Not(m))
  }

  /** The right half of an unsigned all-ones long: ~0 >> (i + 1). */
  function LowOnes(i: nat): int
    requires i <= 62
  {
    Pow2(63 - i) - 1
  }

  /** Tag bits at i..62 with the enable bit at 63. */
  function HighTags(i: nat): TagConf
    requires 1 <= i <= 62
  {
    TagConf(NextBit(LowOnes(i)), LowOnes(i), i)
  }

  /** The bits needed below a base file size: least i with size <= 2^i. */
  predicate IsSizeBits(size: nat, i: nat) {
    i <= 62 && size <= Pow2(i) && (i > 0 ==> Pow2(i - 1) < size)
  }

  /** The loop shared by `dbztagmask` and `dbzagain`. */
  method SizeBits(size: nat) returns (m: nat, i: nat)
    requires size <= 0x4000_0000_0000_0000
    ensures IsSizeBits(size, i) && m == Pow2(i)
  {
    m, i := 1, 0;
    Pow2Values();
    while m < size
      invariant i <= 62 && m == Pow2(i)
      invariant i > 0 ==> Pow2(i - 1) < size
      decreases 63 - i
    {
      i, m := i + 1, m * 2;
      if i > 62 {
        Pow2Monotone(62, i - 1);
      }
    }
  }

  /** Bits i..62. */
  function HighMask(i: nat): int
    requires i <= 62
  {
    Pow2(63) - Pow2(i)
  }

  lemma HighMaskShifted(i: nat)
    requires i <= 62
    ensures ShiftLeft(LowOnes(i), i) == HighMask(i)
  {
    Pow2Values();
    OnesUp(63 - i, i);
    Pow2Monotone(i, 63);
  }

  /** dbztagmask: all of bits i..62, or nothing for a small file. */
  method DbzTagMask(size: int) returns (mask: int)
    requires size <= 0x4000_0000_0000_0000
    ensures size <= 0x80_0000 ==> mask == 0
    ensures size > 0x80_0000 ==>
              exists i: nat :: IsSizeBits(size, i) && mask == HighMask(i) == 0x8000_0000_0000_0000 - Pow2(i)
  {
    if size <= 0 {
      return 0;
    }
    var m, i := SizeBits(size);
    Pow2Values();
    assert Pow2(23) == 0x80_0000;
    if m < Pow2(TAGSHIFT) {
      if i >= 24 {
        Pow2Monotone(24, i);
      }
      Pow2Monotone(i, 23);
      return 0;
    }
    if i <= 23 {
      Pow2Monotone(i, 23);
    }
    Pow2Monotone(23, i - 1);
    HighMaskShifted(i);
    mask := ShiftLeft(LowOnes(i), i);
  }

  lemma LowHalf(q: int, r: nat, x: int)
    requires r < 0x1_0000_0000 && x == 0x1_0000_0000 * q + r
    ensures x % 0x1_0000_0000 == r
  {
  }

  lemma HighMaskTruncated(i: nat)
    requires 1 <= i <= 62
    ensures i >= 32 ==> HighMask(i) % 0x1_0000_0000 == 0
    ensures i <= 31 ==> HighMask(i) % 0x1_0000_0000 > 1
  {
    Pow2Values();
    if i >= 32 {
      Pow2Add(i - 32, 32);
      LowHalf(0x8000_0000 - Pow2(i - 32), 0, HighMask(i));
    } else {
      Pow2Monotone(i, 31);
      LowHalf(0x7FFF_FFFF, 0x1_0000_0000 - Pow2(i), HighMask(i));
    }
  }

  lemma SizeBitsAbove31(i: nat, size: nat)
    requires IsSizeBits(size, i)
    ensures size > 0x8000_0000 <==> i >= 32
  {
    Pow2Values();
    if i >= 32 {
      Pow2Monotone(31, i - 1);
    } else {
      Pow2Monotone(i, 31);
    }
  }

  /** `dbzfresh` moves a mask down to its lowest one. */
  method SplitMask(tagmask: int) returns (m: int, shift: nat)
    requires tagmask != 0
    ensures m % 2 == 1 && m * Pow2(shift) == tagmask
  {
    m, shift := tagmask, 0;
    while m % 2 == 0
      invariant m != 0 && m * Pow2(shift) == tagmask
      decreases Size(m)
    {
      assert m * Pow2(shift) == (m / 2) * Pow2(shift + 1);
      m, shift := m / 2, shift + 1;
    }
  }

  /** How `dbzfresh` splits a tag mask. The mask is first truncated to an `int` to tell
      the two special values, so any mask with 32 low zero bits means the default. */
  method FreshTags(tagmask: int) returns (c: TagConf)
    ensures tagmask % 0x1_0000_0000 == 0 ==> c == TagConf(0x80, 0x7f, 24)
    ensures tagmask % 0x1_0000_0000 == 1 ==> c == TagConf(0, 0, 0)
    ensures tagmask % 0x1_0000_0000 > 1 ==>
              c.mask % 2 == 1 && c.mask * Pow2(c.shift) == tagmask && c.enb == NextBit(c.mask)
  {
    if tagmask % 0x1_0000_0000 == 0 {
      return DEFAULT_TAGS;
    } else if tagmask % 0x1_0000_0000 == 1 {
      return NO_TAGS;
    }
    var m, shift := SplitMask(tagmask);
    c := TagConf(NextBit(m), m, shift);
  }

  /** An odd number and a power of two can be multiplied to a number in only one way. */
  lemma {:induction false} OddPart(x: int, m: int, a: nat, n: int, b: nat)
    requires m % 2 == 1 && n % 2 == 1 && m * Pow2(a) == x && n * Pow2(b) == x
    ensures m == n && a == b
    decreases a
  {
    hide Pow2;
    Pow2Zero();
    if a > 0 {
      DoubleOut(m, a);
      Halved(x, m * Pow2(a - 1));
    }
    if b > 0 {
      DoubleOut(n, b);
      Halved(x, n * Pow2(b - 1));
    }
    if a > 0 && b > 0 {
      OddPart(x / 2, m, a - 1, n, b - 1);
    }
  }

  lemma Halved(x: int, y: int)
    requires x == 2 * y
    ensures x / 2 == y && x % 2 == 0
  {
  }

  /** No offset below the base file's size touches a tag bit or the enable bit. */
  ghost predicate ClearOf(t: Tags, size: nat) {
    forall o :: 0 <= o < size ==> t.CanTag(o)
  }

  lemma {:induction false} NextBitOfOnes(n: nat)
    requires n > 0
    ensures And(2 * (Pow2(n) - 1), Not(Pow2(n) - 1)) == Pow2(n)
  {
    var m := Pow2(n) - 1;
    forall k: nat
      ensures Bit(And(2 * m, Not(m)), k) <==> Bit(Pow2(n), k)
    {
      AndBit(2 * m, Not(m), k);
      NotBit(m, k);
      DoubleBit(m, k);
      OnesBit(n, k);
      PowerBit(n, k);
      if k > 0 {
        OnesBit(n, k - 1);
      }
    }
    SameBits(And(2 * m, Not(m)), Pow2(n));
  }

  lemma OnesOddAndSmall(n: nat)
    requires 1 <= n <= 62
    ensures (Pow2(n) - 1) % 2 == 1 && 2 * (Pow2(n) - 1) <= LONG_MAX
  {
    Pow2Values();
    Pow2Monotone(n, 62);
    assert Pow2(n) == 2 * Pow2(n - 1);
  }

  lemma HighNextBit(i: nat)
    requires 1 <= i <= 62
    ensures NextBit(LowOnes(i)) == Pow2(63 - i)
  {
    OnesOddAndSmall(63 - i);
    NextBitOfOnes(63 - i);
  }

  lemma HighEnable(i: nat)
    requires i <= 63
    ensures ShiftLeft(Pow2(63 - i), i) == LONG_MIN
  {
    Pow2Values();
    Pow2Add(63 - i, i);
  }

  lemma HighTagsShifted(i: nat)
    requires 1 <= i <= 62
    ensures Shifted(HighTags(i)) == Tags(HighMask(i), LONG_MIN, i)
  {
    HighNextBit(i);
    HighEnable(i);
    HighMaskShifted(i);
  }

  lemma HighTagsBits(i: nat, k: nat)
    requires 1 <= i <= 62
    ensures Bit(HighMask(i), k) <==> i <= k < 63
    ensures Bit(LONG_MIN, k) <==> k >= 63
  {
    hide Bit, Pow2;
    Pow2Values();
    OnesUp(63 - i, i);
    ShiftedBit(Pow2(63 - i) - 1, i, k);
    if k >= i {
      OnesBit(63 - i, k - i);
    }
    PowerBit(63, k);
  }

  /** Masks at i..63 leave every offset below 2^i alone. */
  lemma HighTagsClear(i: nat, size: nat)
    requires 1 <= i && IsSizeBits(size, i)
    ensures Shifted(HighTags(i)).WellFormed() && ClearOf(Shifted(HighTags(i)), size)
  {
    var t := Tags(HighMask(i), LONG_MIN, i);
    HighTagsShifted(i);
    Pow2Values();
    Pow2Monotone(i, 63);
    forall k: nat
      ensures !(Bit(t.bits, k) && Bit(t.here, k))
    {
      HighTagsBits(i, k);
    }
    forall o | 0 <= o < size
      ensures t.CanTag(o)
    {
      forall k: nat
        ensures !(Bit(o, k) && Bit(Or(t.bits, t.here), k))
      {
        OrBit(t.bits, t.here, k);
        HighTagsBits(i, k);
        if k >= i {
          HighBitsClear(o, i, k);
        }
      }
      AndZero(o, Or(t.bits, t.here));
    }
  }

  lemma {:induction false} DefaultBits(k: nat)
    ensures Shifted(DEFAULT_TAGS).bits == 0x7F00_0000 && Shifted(DEFAULT_TAGS).here == 0x8000_0000
    ensures Bit(0x7F00_0000, k) <==> 24 <= k < 31
    ensures Bit(0x8000_0000, k) <==> k == 31
  {
    Pow2Values();
    OnesUp(7, 24);
    assert Pow2(7) == 0x80;
    ShiftedBit(0x7f, 24, k);
    if k >= 24 {
      OnesBit(7, k - 24);
    }
    PowerBit(31, k);
  }

  lemma DefaultWellFormed()
    ensures Shifted(DEFAULT_TAGS).WellFormed()
  {
    DefaultBits(0);
    forall k: nat
      ensures !(Bit(Shifted(DEFAULT_TAGS).bits, k) && Bit(Shifted(DEFAULT_TAGS).here, k))
    {
      DefaultBits(k);
    }
  }

  /** The default masks, at bits 24..31, leave exactly the offsets of small files alone. */
  lemma DefaultClear(size: nat)
    requires size <= 0x80_0000
    ensures ClearOf(Shifted(DEFAULT_TAGS), size)
  {
    var t := Shifted(DEFAULT_TAGS);
    Pow2Values();
    forall o | 0 <= o < size
      ensures t.CanTag(o)
    {
      forall k: nat
        ensures !(Bit(o, k) && Bit(Or(t.bits, t.here), k))
      {
        OrBit(t.bits, t.here, k);
        DefaultBits(k);
        if k >= 24 {
          HighBitsClear(o, 24, k);
        }
      }
      AndZero(o, Or(t.bits, t.here));
    }
  }

  lemma DefaultClash(size: nat)
    requires size > 0x8000_0000
    ensures !ClearOf(Shifted(DEFAULT_TAGS), size)
    ensures !Shifted(DEFAULT_TAGS).Okay(0x8000_0000)
  {
    var t := Shifted(DEFAULT_TAGS);
    var o := 0x8000_0000;
    DefaultBits(31);
    OrBit(t.bits, t.here, 31);
    AndZero(o, t.here);
    AndZero(o, Or(t.bits, t.here));
    assert !t.CanTag(o);
  }

  /** A new table tagged for a base file of the given size, by `dbztagmask` and then
      `dbzfresh`: its masks leave every offset below that size alone exactly when the
      size is at most 2^31. Above that the truncation to `int` brings the default masks
      back, and `okayvalue` refuses the offset 2^31. */
  method FreshTagsForSize(size: nat) returns (c: TagConf)
    requires 1 <= size <= 0x4000_0000_0000_0000
    ensures Shifted(c).WellFormed()
    ensures ClearOf(Shifted(c), size) <==> size <= 0x8000_0000
    ensures size > 0x8000_0000 ==> !Shifted(c).Okay(0x8000_0000)
  {
    var mask := DbzTagMask(size);
    c := FreshTags(mask);
    DefaultWellFormed();
    if size <= 0x80_0000 {
      DefaultClear(size);
    } else {
      ghost var i: nat :| IsSizeBits(size, i) && mask == HighMask(i);
      FreshTagsOfMask(size, i, c);
    }
  }

  /** Only `HighTags` splits the mask at i..62 with an odd low part. */
  lemma SplitOfHighMask(i: nat, c: TagConf)
    requires 1 <= i <= 62
    requires c.mask % 2 == 1 && c.mask * Pow2(c.shift) == HighMask(i) && c.enb == NextBit(c.mask)
    ensures c == HighTags(i)
  {
    OnesUp(63 - i, i);
    OnesOddAndSmall(63 - i);
    OddPart(HighMask(i), c.mask, c.shift, LowOnes(i), i);
  }

  lemma FreshTagsOfMask(size: nat, i: nat, c: TagConf)
    requires size > 0x80_0000 && IsSizeBits(size, i)
    requires HighMask(i) % 0x1_0000_0000 == 0 ==> c == DEFAULT_TAGS
    requires HighMask(i) % 0x1_0000_0000 > 1 ==>
              c.mask % 2 == 1 && c.mask * Pow2(c.shift) == HighMask(i) && c.enb == NextBit(c.mask)
    ensures size <= 0x8000_0000 ==> Shifted(c).WellFormed() && ClearOf(Shifted(c), size)
    ensures size > 0x8000_0000 ==> c == DEFAULT_TAGS && !ClearOf(Shifted(c), size) && !Shifted(c).Okay(0x8000_0000)
  {
    assert i >= 1;
    HighMaskTruncated(i);
    SizeBitsAbove31(i, size);
    if size > 0x8000_0000 {
      DefaultClash(size);
    } else {
      SplitOfHighMask(i, c);
      HighTagsClear(i, size);
    }
  }

  /** The masks `dbzagain` builds from the old base file's size, unless the old table was
      untagged or the file is small. They leave every offset of that file alone, whatever
      its size. */
  method AgainTags(was: TagConf, size: nat) returns (c: TagConf)
    requires size <= 0x4000_0000_0000_0000
    ensures Or(was.mask, was.enb) == 0 || size <= 0x100_0000 ==> c == was
    ensures Or(was.mask, was.enb) != 0 && size > 0x100_0000 ==>
              Shifted(c).WellFormed() && ClearOf(Shifted(c), size)
  {
    var m, i := SizeBits(size);
    c := was;
    Pow2Values();
    if i <= 24 {
      Pow2Monotone(i, 24);
    } else {
      Pow2Monotone(24, i - 1);
    }
    if Or(was.mask, was.enb) != 0 && m > Pow2(TAGSHIFT) {
      c := TagConf(NextBit(LowOnes(i)), LowOnes(i), i);
      HighTagsClear(i, size);
    }
  }
}
