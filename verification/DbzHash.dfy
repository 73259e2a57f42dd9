/** The 31-bit hash of a key (dbz.c). */
module DbzHash {
  import opened Bits
  import opened Bytes

  /** A 31-bit polynomial, to avoid sign problems. */
  const POLY: nat := 0x4800_0000

  /** One entry of the table, from bit j of its index downwards. */
  function CrcFrom(i: nat, j: int, sum: int): int
    requires j < 7
    decreases j + 1
  {
    if j < 0 then sum
    else CrcFrom(i, j - 1, if Bit(i, j) then Xor(sum, POLY / Pow2(j)) else sum)
  }

  function CrcEntry(i: nat): (e: nat)
    ensures e < Pow2(31)
  {
    CrcBelow(i, 6, 0);
    CrcFrom(i, 6, 0)
  }

  lemma PolyBelow(j: nat)
    ensures 0 <= POLY / Pow2(j) < Pow2(31)
  {
    Pow2Values();
    hide Pow2;
    DivSmall(POLY, Pow2(j));
  }

  lemma DivSmall(n: nat, d: nat)
    requires d >= 1
    ensures 0 <= n / d <= n
  {
    assert n == d * (n / d) + n % d;
  }

  lemma {:induction false} CrcBelow(i: nat, j: int, sum: int)
    requires j < 7 && 0 <= sum < Pow2(31)
    ensures 0 <= CrcFrom(i, j, sum) < Pow2(31)
    decreases j + 1
  {
    hide Bit, Xor, Pow2;
    if j >= 0 {
      Pow2Values();
      PolyBelow(j);
      XorBelow(sum, POLY / Pow2(j), 31);
      CrcBelow(i, j - 1, if Bit(i, j) then Xor(sum, POLY / Pow2(j)) else sum);
    }
  }

  /** The table entry chosen by the low seven bits of the sum and a key byte. */
  function CrcIndex(sum: nat, c: Byte): (i: nat)
    ensures i < 128
  {
    assert Pow2(7) == 128;
    AndBelow(Xor(sum, c as int), 0x7f, 7);
    And(Xor(sum, c as int), 0x7f)
  }

  function HashStep(sum: nat, c: Byte): (r: nat)
    requires sum < Pow2(31)
    ensures r < Pow2(31)
  {
    XorBelow(sum / 128, CrcEntry(CrcIndex(sum, c)), 31);
    Xor(sum / 128, CrcEntry(CrcIndex(sum, c)))
  }

  function HashFrom(sum: nat, key: Bytes): (h: nat)
    requires sum < Pow2(31)
    ensures h < Pow2(31)
    decreases |key|
  {
    if key == [] then sum else HashFrom(HashStep(sum, key[0]), key[1..])
  }

  /** The hash of a key. */
  function HashOf(key: Bytes): (h: nat)
    ensures h < 0x8000_0000
  {
    Pow2Values();
    HashFrom(0, key)
  }

  predicate IsCrcTable(table: seq<int>) {
    |table| == 128 && forall i :: 0 <= i < 128 ==> table[i] == CrcEntry(i)
  }

  /** crcinit: fills the table. */
  method CrcInit(table: array<int>)
    requires table.Length == 128
    modifies table
    ensures IsCrcTable(table[..])
  {
    hide Bit, Xor, Pow2;
    for i := 0 to 128
      invariant forall k :: 0 <= k < i ==> table[k] == CrcEntry(k)
    {
      hide CrcFrom;
      var sum := 0;
      var j := 6;
      EntryStarts(i);
      while j >= 0
        invariant -1 <= j < 7
        invariant CrcFrom(i, j, sum) == CrcEntry(i)
        invariant forall k :: 0 <= k < i ==> table[k] == CrcEntry(k)
      {
        CrcStep(i, j, sum);
        if Bit(i, j) {
          sum := Xor(sum, POLY / Pow2(j));
        }
        j := j - 1;
      }
      CrcDone(i, sum);
      table[i] := sum;
    }
  }

  lemma EntryStarts(i: nat)
    ensures CrcFrom(i, 6, 0) == CrcEntry(i)
  {
  }

  lemma CrcStep(i: nat, j: nat, sum: int)
    requires j < 7
    ensures CrcFrom(i, j, sum) == CrcFrom(i, j - 1, if Bit(i, j) then Xor(sum, POLY / Pow2(j)) else sum)
  {
  }

  lemma CrcDone(i: nat, sum: int)
    ensures CrcFrom(i, -1, sum) == sum
  {
  }

  /** hash: folds the key through the table. The result is a 31-bit number. */
  method Hash(table: array<int>, key: Bytes) returns (h: nat)
    requires IsCrcTable(table[..])
    ensures h == HashOf(key) && h < 0x8000_0000
  {
    var sum: nat := 0;
    var n := 0;
    while n < |key|
      invariant 0 <= n <= |key| && sum < Pow2(31)
      invariant HashFrom(sum, key[n..]) == HashFrom(0, key)
    {
      assert key[n..][1..] == key[n + 1..];
      assert table[..][CrcIndex(sum, key[n])] == CrcEntry(CrcIndex(sum, key[n]));
      ghost var next := HashStep(sum, key[n]);
      sum := Xor(sum / 128, table[CrcIndex(sum, key[n])]);
      assert sum == next;
      n := n + 1;
    }
    h := sum;
    Pow2Values();
  }
}
