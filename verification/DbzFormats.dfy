/** The words, keys and lines of a dbz database in plain numbers and characters (dbz.c). */
module DbzFormats {
  import opened Arith
  import opened Bits
  import opened Bytes
  import opened Decimals
  import opened DbzTag
  import opened DbzHash
  import opened DbzCase
  import opened DbzConf
  import opened DbzTable
  import opened Dbz
  import opened DbzRuns

  // ---- slots --------------------------------------------------------------

  /** Where the j-th probe lies: runs of 100, then the next table. */
  lemma ProbeLaw(tsize: nat, h: nat, j: nat)
    requires tsize >= 1
    ensures Probe(tsize, h, j) == (h + j) % tsize + j / 100 * tsize
  {
  }

  /** An untagged table keeps every offset plus one. */
  lemma UntaggedWord(conf: Conf, key: Bytes, value: int)
    requires conf.tsize >= 1 && conf.tags == Tags(0, 0, 0) && 0 <= value < LONG_MAX
    ensures WordOf(conf, Entry(key, value)) == value + 1
  {
    var tag := conf.TagOf(HashOf(key));
    ZeroAnd(ShiftLeft(HashOf(key) / conf.tsize, 0));
    assert tag == 0;
    OrZero(value);
    OrZero(0);
  }

  lemma OrSwap(a: int, b: int)
    ensures Or(a, b) == Or(b, a)
  {
    hide Or;
    forall k: nat
      ensures Bit(Or(a, b), k) <==> Bit(Or(b, a), k)
    {
      OrBit(a, b, k);
      OrBit(b, a, k);
    }
    SameBits(Or(a, b), Or(b, a));
  }

  lemma {:induction false} AndUp(x: int, m: int, n: nat)
    ensures And(x * Pow2(n), m * Pow2(n)) == And(x, m) * Pow2(n)
  {
    if n > 0 {
      AndUp(x, m, n - 1);
      DoubleOut(x, n);
      DoubleOut(m, n);
      DoubleOut(And(x, m), n);
      AndDouble(x * Pow2(n - 1), m * Pow2(n - 1));
    }
  }

  lemma AndDouble(a: int, b: int)
    ensures And(2 * a, 2 * b) == 2 * And(a, b)
  {
    assert 2 * a / 2 == a && 2 * b / 2 == b;
  }

  /** The default tag of a key: the low seven bits of the hash quotient, at bits 24 to 30. */
  lemma DefaultTag(conf: Conf, h: nat)
    requires conf.tsize >= 1 && conf.tags == Tags(0x7F00_0000, 0x8000_0000, 24) && h < 0x8000_0000
    ensures conf.TagOf(h) == h / conf.tsize % 128 * 0x100_0000
  {
    hide And, Pow2;
    Pow2Values();
    Pow2Seven();
    var v := h / conf.tsize;
    QuotientBelow(h, conf.tsize);
    assert ShiftLeft(v, 24) == v * 0x100_0000;
    AndUp(v, 127, 24);
    MaskIsMod(v, 7);
  }

  lemma QuotientBelow(h: nat, d: nat)
    requires d >= 1
    ensures 0 <= h / d <= h
  {
    DivSmall(h, d);
  }

  lemma Pow2Seven()
    ensures Pow2(7) == 128
  {
  }

  /** A small offset shares no bit with the default masks. */
  lemma SmallCanTag(value: nat)
    requires value < 0x100_0000
    ensures Tags(0x7F00_0000, 0x8000_0000, 24).CanTag(value)
  {
    hide And, Or, Pow2, Bit;
    Pow2Values();
    OrIsPlus(1, 0x7F00_0000, 31);
    OrSwap(0x7F00_0000, 0x8000_0000);
    var high := 0xFF00_0000;
    forall k: nat
      ensures !(Bit(value, k) && Bit(high, k))
    {
      if k >= 24 {
        HighBitsClear(value, 24, k);
      } else {
        ShiftedBit(255, 24, k);
      }
    }
    AndZero(value, high);
  }

  /** With the default tags a small offset is kept plus one, under its tag and the bit that
      says there is one. */
  lemma TaggedWord(conf: Conf, key: Bytes, value: int)
    requires conf.tsize >= 1 && conf.tags == Tags(0x7F00_0000, 0x8000_0000, 24) && 0 <= value < 0x100_0000
    ensures WordOf(conf, Entry(key, value)) ==
            value + HashOf(key) / conf.tsize % 128 * 0x100_0000 + 0x8000_0000 + 1
  {
    hide And, Or, Pow2, HashOf;
    Pow2Values();
    var h := HashOf(key);
    DefaultTag(conf, h);
    SmallCanTag(value);
    var n := h / conf.tsize % 128;
    OrSwap(n * 0x100_0000, 0x8000_0000);
    OrIsPlus(1, n * 0x100_0000, 31);
    OrSwap(value, n * 0x100_0000 + 0x8000_0000);
    OrIsPlus(n + 128, value, 24);
  }

  // ---- what is accepted ---------------------------------------------------

  /** An untagged table takes every key of up to 254 bytes with every offset. */
  lemma UntaggedAccepts(conf: Conf, raw: Bytes, value: nat)
    requires conf.tags == Tags(0, 0, 0)
    ensures Accepts(conf, raw, value) <==> |raw| <= 254
  {
    ZeroAnd(value);
  }

  /** A table with the default tags takes those whose offset has bit 31 clear, and so every
      offset below 2^31. */
  lemma DefaultAccepts(conf: Conf, raw: Bytes, value: nat)
    requires conf.tags == Tags(0x7F00_0000, 0x8000_0000, 24)
    ensures Accepts(conf, raw, value) <==> |raw| <= 254 && value / 0x8000_0000 % 2 == 0
    ensures |raw| <= 254 && value < 0x8000_0000 ==> Accepts(conf, raw, value)
  {
    hide And, Pow2;
    Pow2Values();
    AndPower(value, 31);
    if value < 0x8000_0000 {
      DivModUnique(value, 0x8000_0000, 0, value);
    }
  }

  lemma {:induction false} AndPower(v: nat, n: nat)
    ensures And(v, Pow2(n)) == if v / Pow2(n) % 2 == 1 then Pow2(n) else 0
    decreases n
  {
    hide And, Pow2;
    SmallPowers();
    if n == 0 {
      MaskIsMod(v, 1);
    } else {
      DoubleOut(1, n);
      AndPower(v / 2, n - 1);
      QuotientTwice(v, Pow2(n - 1));
      AndEven(v, Pow2(n - 1));
    }
  }

  lemma AndEven(v: nat, b: int)
    ensures And(v, 2 * b) == 2 * And(v / 2, b)
  {
    assert 2 * b / 2 == b;
  }

  lemma QuotientTwice(v: nat, p: nat)
    requires p >= 1
    ensures v / (2 * p) == v / 2 / p
  {
    var q, r := v / 2 / p, v / 2 % p;
    assert v / 2 == p * q + r;
    assert v == 2 * p * q + (2 * r + v % 2);
    DivModUnique(v, 2 * p, q, 2 * r + v % 2);
  }

  /** Only the first 255 bytes of a fetched key count. */
  lemma FetchCut(conf: Conf, raw: Bytes)
    ensures FetchKey(conf, raw) == MapCase(conf.casemap, if |raw| > 255 then raw[..255] else raw)
  {
    assert |raw| == 255 ==> raw[..255] == raw;
  }

  /** Without case mapping, a key that ends in NUL is confirmed where its text stands with the
      separator or a NUL behind it, and any other key where its text stands. */
  lemma ConfirmLaw(conf: Conf, base: Bytes, key: Bytes, value: int)
    requires conf.casemap == 48 && key != [] && 0 <= value && value + |key| <= |base|
    ensures var n := |key| - 1; var text := base[value..value + |key|];
            Confirm(conf, base, key, value) <==>
            if key[n] == 0 then text[..n] == key[..n] && (text[n] == conf.fieldsep || text[n] == 0) else text == key
  {
  }

  // ---- the hash -----------------------------------------------------------

  function Mixed(on: bool, word: int, sum: int): int {
    if on then Xor(sum, word) else sum
  }

  /** An entry of the table, by the bits of its index. */
  lemma CrcLaw(i: nat)
    requires i < 128
    ensures CrcEntry(i) ==
            Mixed(i % 2 == 1, 0x4800_0000, Mixed(i / 2 % 2 == 1, 0x2400_0000, Mixed(i / 4 % 2 == 1, 0x1200_0000,
            Mixed(i / 8 % 2 == 1, 0x900_0000, Mixed(i / 16 % 2 == 1, 0x480_0000, Mixed(i / 32 % 2 == 1, 0x240_0000,
            Mixed(i / 64 % 2 == 1, 0x120_0000, 0)))))))
  {
    hide Xor;
    SmallPowers();
    BitsOf(i);
    hide Bit, Pow2;
    var s6 := Mixed(Bit(i, 6), 0x120_0000, 0);
    var s5 := Mixed(Bit(i, 5), 0x240_0000, s6);
    var s4 := Mixed(Bit(i, 4), 0x480_0000, s5);
    var s3 := Mixed(Bit(i, 3), 0x900_0000, s4);
    var s2 := Mixed(Bit(i, 2), 0x1200_0000, s3);
    var s1 := Mixed(Bit(i, 1), 0x2400_0000, s2);
    assert CrcFrom(i, 6, 0) == CrcFrom(i, 5, s6);
    assert CrcFrom(i, 5, s6) == CrcFrom(i, 4, s5);
    assert CrcFrom(i, 4, s5) == CrcFrom(i, 3, s4);
    assert CrcFrom(i, 3, s4) == CrcFrom(i, 2, s3);
    assert CrcFrom(i, 2, s3) == CrcFrom(i, 1, s2);
    assert CrcFrom(i, 1, s2) == CrcFrom(i, 0, s1);
  }

  lemma SmallPowers()
    ensures Pow2(0) == 1 && Pow2(1) == 2 && Pow2(2) == 4 && Pow2(3) == 8 && Pow2(4) == 16 && Pow2(5) == 32 && Pow2(6) == 64
  {
    assert Pow2(3) == 8;
    assert Pow2(5) == 32;
  }

  lemma {:induction false} BitIs(x: nat, k: nat)
    ensures Bit(x, k) <==> x / Pow2(k) % 2 == 1
    decreases k
  {
    if k > 0 {
      BitIs(x / 2, k - 1);
      QuotientTwice(x, Pow2(k - 1));
    }
  }

  lemma BitsOf(i: nat)
    ensures Bit(i, 0) == (i % 2 == 1) && Bit(i, 1) == (i / 2 % 2 == 1) && Bit(i, 2) == (i / 4 % 2 == 1)
    ensures Bit(i, 3) == (i / 8 % 2 == 1) && Bit(i, 4) == (i / 16 % 2 == 1)
    ensures Bit(i, 5) == (i / 32 % 2 == 1) && Bit(i, 6) == (i / 64 % 2 == 1)
  {
    hide Bit, Pow2;
    SmallPowers();
    BitIs(i, 0);
    BitIs(i, 1);
    BitIs(i, 2);
    BitIs(i, 3);
    BitIs(i, 4);
    BitIs(i, 5);
    BitIs(i, 6);
  }

  /** The hash, byte by byte: seven bits out at the bottom, a table entry in. */
  lemma HashLaw(key: Bytes, c: Byte)
    ensures HashOf([]) == 0
    ensures And(Xor(HashOf(key), c as int), 127) >= 0
    ensures HashOf(key + [c]) == Xor(HashOf(key) / 128, CrcEntry(And(Xor(HashOf(key), c as int), 127)))
  {
    Pow2Values();
    HashJoin(0, key, c);
    var i := CrcIndex(HashOf(key), c);
  }

  lemma {:induction false} HashJoin(sum: nat, key: Bytes, c: Byte)
    requires sum < Pow2(31)
    ensures HashFrom(sum, key + [c]) == HashStep(HashFrom(sum, key), c)
    decreases |key|
  {
    hide HashStep, Pow2;
    if key == [] {
      assert [c][1..] == [] && key + [c] == [c];
    } else {
      assert (key + [c])[1..] == key[1..] + [c];
      HashJoin(HashStep(sum, key[0]), key[1..], c);
    }
  }

  // ---- case ---------------------------------------------------------------

  function Down(s: Bytes): (t: Bytes)
    ensures |t| == |s|
    ensures forall i :: 0 <= i < |s| ==> t[i] == if 65 <= s[i] <= 90 then s[i] + 32 else s[i]
  {
    seq(|s|, i requires 0 <= i < |s| => if 65 <= s[i] <= 90 then s[i] + 32 else s[i])
  }

  lemma DownIs(s: Bytes)
    ensures Lowered(s) == Down(s)
  {
  }

  const POSTMASTER := "postmaster"

  predicate SpellsPostmaster(s: Bytes) {
    |s| == |POSTMASTER| && forall i :: 0 <= i < |s| ==> s[i] as int == POSTMASTER[i] as int
  }

  lemma PostmasterIs(s: Bytes)
    ensures SpellsPostmaster(s) <==> s == POST
  {
    assert |POSTMASTER| == 10;
    assert SpellsPostmaster(POST);
  }

  /** The three case maps: '0' leaves a key alone, '=' lower-cases all of it, and 'C' lower-
      cases the domain of "<local@domain>", and the local part if that spells "postmaster". */
  lemma CaseLaw(s: Bytes, local: Bytes, domain: Bytes)
    requires 64 !in local
    ensures MapCase(48, s) == s && MapCase(61, s) == Down(s)
    ensures MapCase(67, [60] + local + [64] + domain) ==
            [60] + (if SpellsPostmaster(Down(local)) then Down(local) else local) + [64] + Down(domain)
  {
    hide MapCase, Lowered, Down, SpellsPostmaster;
    AllMapped(s);
    var id := [60] + local + [64] + domain;
    IdSplit(local, domain);
    MapParts(id);
    PostmasterIs(Down(local));
    DownIs(local);
    DownIs([64] + domain);
    DownTail(domain);
  }

  lemma AllMapped(s: Bytes)
    ensures MapCase(48, s) == s && MapCase(61, s) == Down(s)
  {
    hide Lowered, Down, IndexOf;
    DownIs(s);
    assert s[0..] == s && s[..0] == [];
    assert [] + Lowered(s) == Lowered(s);
  }

  lemma DownTail(domain: Bytes)
    ensures Down([64] + domain) == [64] + Down(domain)
  {
  }

  lemma IdSplit(local: Bytes, domain: Bytes)
    requires 64 !in local
    ensures var id := [60] + local + [64] + domain;
            IsMessageId(id) && Local(id) == local && Domain(id) == [64] + domain
  {
    var id := [60] + local + [64] + domain;
    assert id == [60] + local + ([64] + domain);
    CutAt(local, [64] + domain);
  }

  // ---- the .dir file ------------------------------------------------------

  function Spaces(ns: seq<int>): Bytes {
    if ns == [] then [] else Spaces(ns[..|ns| - 1]) + [32] + Decimal(ns[|ns| - 1])
  }

  lemma {:induction false} SpacesLaw(ns: seq<int>, n: int, tail: Bytes)
    ensures Spaced(ns + [n], tail) == Spaced(ns, [32] + Decimal(n) + tail)
    decreases |ns|
  {
    if ns == [] {
      assert ([] + [n])[1..] == [];
      Regroup([32], Decimal(n), tail);
    } else {
      assert (ns + [n])[1..] == ns[1..] + [n];
      SpacesLaw(ns[1..], n, tail);
    }
  }

  lemma {:induction false} SpacedIs(ns: seq<int>, tail: Bytes)
    ensures Spaced(ns, tail) == Spaces(ns) + tail
    decreases |ns|
  {
    hide Decimal;
    if ns == [] {
      assert [] + tail == tail;
    } else {
      var before, last := ns[..|ns| - 1], ns[|ns| - 1];
      assert ns == before + [last];
      SpacesLaw(before, last, tail);
      SpacedIs(before, [32] + Decimal(last) + tail);
      assert Spaces(before) + ([32] + Decimal(last) + tail) == Spaces(before) + [32] + Decimal(last) + tail;
    }
  }

  /** The first line of the .dir file: "dbz", the version 3, the table size, the separator, the
      case map as a character, the tag enable bit, mask and shift, the size 8 of an offset and
      its eight byte positions, each after a space. */
  lemma FirstLineLaw(c: Config, tail: Bytes)
    ensures ConfText(c, tail) ==
            [100, 98, 122] + Spaces([3, c.tsize, c.fieldsep]) + [32, c.casemap] +
            Spaces([c.tagenb, c.tagmask, c.tagshift, 8]) + Spaces(c.bytemap) + [10] + UsedLine(c.used, tail)
  {
    hide Spaces, Spaced, UsedLine;
    var used := [10] + UsedLine(c.used, tail);
    var numbers := [c.tagenb, c.tagmask, c.tagshift, 8];
    SpacedSplit(numbers, c.bytemap, used);
    SpacedIs(c.bytemap, used);
    SpacedIs(numbers, Spaces(c.bytemap) + used);
    var second := Spaces(numbers) + (Spaces(c.bytemap) + used);
    SpacedIs([3, c.tsize, c.fieldsep], [32, c.casemap] + second);
    assert Spaces(c.bytemap) + [10] + UsedLine(c.used, tail) == Spaces(c.bytemap) + used;
  }

  /** The second line: the counts with single spaces between them. */
  lemma UsedLaw(n: int, ns: seq<int>, tail: Bytes)
    ensures UsedLine([n] + ns, tail) ==
            if ns == [] then Decimal(n) + [10] + tail else Decimal(n) + [32] + UsedLine(ns, tail)
  {
    assert ([n] + ns)[1..] == ns;
    if ns == [] {
      Regroup(Decimal(n), [10], tail);
    } else {
      Regroup(Decimal(n), [32], UsedLine(ns, tail));
    }
  }

  /** An empty .dir file means 120011 slots, a tab as the separator, case map 'C', tags at bits
      24 to 31, this machine's byte order and no usage yet. */
  lemma EmptyLaw()
    ensures ParseConf([]) ==
            Some(Config(120011, 9, 67, 128, 127, 24, [7, 6, 5, 4, 3, 2, 1, 0], [0, 0, 0, 0, 0, 0, 0, 0, 0, 0, 0]))
  {
  }
}
