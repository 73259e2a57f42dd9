/** Case mapping of message-IDs (dbz.c). A key is compared after its case-insensitive
    part, if any, has been mapped to lower case. */
module DbzCase {
  import opened Bytes

  const AT: Byte := 64
  const LESS: Byte := 60
  const CASE_RFC822: Byte := 67
  const CASE_ALL: Byte := 61
  const CASE_NONE: Byte := 48
  const POST: Bytes := [112, 111, 115, 116, 109, 97, 115, 116, 101, 114]

  const OFFSET := 128
  const MAPSIZE := 256 + OFFSET

  function Lower(c: Byte): Byte {
    if 65 <= c <= 90 then c + 32 else c
  }

  function Lowered(s: Bytes): (t: Bytes)
    ensures |t| == |s|
    ensures forall i :: 0 <= i < |s| ==> t[i] == Lower(s[i])
  {
    seq(|s|, i requires 0 <= i < |s| => Lower(s[i]))
  }

  /** The place of a byte, read as a signed char, in the case map. */
  function Slot(c: Byte): (i: nat)
    ensures i < 256
  {
    if c < 128 then c as int + OFFSET else c as int - 256 + OFFSET
  }

  /** What a set-up map holds at a place. */
  function Primed(i: nat): Byte {
    Lower(((i - OFFSET) % 256) as Byte)
  }

  lemma LetterPrimed(k: nat)
    requires k < 26
    ensures Primed(97 + k + OFFSET) == Primed(65 + k + OFFSET) == (97 + k) as Byte
  {
  }

  lemma PlainPrimed(i: nat)
    requires i < MAPSIZE
    ensures if 65 + OFFSET <= i < 65 + OFFSET + 26 then Primed(i) != 0
            else Primed(i) == ((i - OFFSET) % 256) as Byte
  {
  }

  /** Where a key becomes case-insensitive. */
  function CasePoint(casemap: Byte, s: Bytes): (r: Option<nat>)
    ensures r.Some? ==> r.value <= |s|
  {
    if casemap == CASE_RFC822 then
      var p := IndexOf(s, AT);
      if p == |s| then None
      else if p == 1 + |POST| && Lowered(s[1..p]) == POST then Some(0)
      else Some(p)
    else if casemap == CASE_ALL then Some(0)
    else None
  }

  function MapCase(casemap: Byte, s: Bytes): (t: Bytes)
    ensures |t| == |s|
  {
    match CasePoint(casemap, s)
    case None => s
    case Some(c) => s[..c] + Lowered(s[c..])
  }

  lemma DifferAt(s: Bytes, t: Bytes, p: nat)
    requires p < |s| == |t|
    ensures Lower(s[p]) != Lower(t[p]) ==> Lowered(s) != Lowered(t)
    ensures NUL !in t ==> t[p] != NUL
    ensures s[p] == NUL != t[p] ==> Lower(s[p]) != Lower(t[p])
  {
    assert Lowered(s)[p] == Lower(s[p]) && Lowered(t)[p] == Lower(t[p]);
  }

  /** The value of a `char`, which is signed. */
  function Signed(c: Byte): int {
    if c < 128 then c as int else c as int - 256
  }

  /** The collating order ignoring case: the NUL that ends a string comes first, also before
      characters that look negative. */
  function Rank(c: Byte): int {
    if c == NUL then -129 else Signed(Lower(c))
  }

  lemma RankTells(a: Byte, b: Byte)
    ensures Rank(a) == Rank(b) <==> Lower(a) == Lower(b)
    ensures a != NUL ==> Rank(a) > Rank(NUL)
    ensures a != NUL && b != NUL ==> (Signed(Lower(a)) == Signed(Lower(b)) <==> Lower(a) == Lower(b))
  {
  }

  lemma RankSigned(c: Byte)
    requires c != NUL
    ensures Rank(c) == Signed(Lower(c))
  {
  }

  /** Two C strings agree up to a place, and both go on there. */
  ghost predicate SameUpTo(a: Bytes, b: Bytes, p: nat) {
    p < |a| && p < |b| && forall k :: 0 <= k < p ==> Rank(a[k]) == Rank(b[k]) && a[k] != NUL
  }

  ghost predicate DiffersAt(a: Bytes, b: Bytes, p: nat) {
    SameUpTo(a, b, p) && Rank(a[p]) < Rank(b[p])
  }

  /** The first string sorts before the second. */
  ghost predicate Sorts(a: Bytes, b: Bytes) {
    exists p: nat :: DiffersAt(a, b, p)
  }

  /** What the first difference, or the end, decides. */
  lemma FirstDifference(a: Bytes, b: Bytes, p: nat)
    requires SameUpTo(a, b, p)
    ensures Rank(a[p]) < Rank(b[p]) ==> Sorts(a, b) && !Sorts(b, a)
    ensures Rank(a[p]) > Rank(b[p]) ==> Sorts(b, a) && !Sorts(a, b)
    ensures a[p] == NUL == b[p] ==> !Sorts(a, b) && !Sorts(b, a)
  {
    hide Rank;
    forall x: nat | DiffersAt(a, b, x)
      ensures x == p || (Rank(a[p]) == Rank(b[p]) && a[p] != NUL)
    {
    }
    forall x: nat | DiffersAt(b, a, x)
      ensures x == p || (Rank(a[p]) == Rank(b[p]) && b[p] != NUL)
    {
    }
    if Rank(a[p]) < Rank(b[p]) {
      assert DiffersAt(a, b, p);
    }
    if Rank(a[p]) > Rank(b[p]) {
      SameBothWays(a, b, p);
      assert DiffersAt(b, a, p);
    }
  }

  lemma SameBothWays(a: Bytes, b: Bytes, p: nat)
    requires SameUpTo(a, b, p)
    ensures SameUpTo(b, a, p)
  {
  }

  lemma NoDifference(a: Bytes, b: Bytes)
    requires Lowered(a) == Lowered(b)
    ensures !Sorts(a, b) && !Sorts(b, a)
  {
    forall p | 0 <= p < |a| && p < |b|
      ensures Rank(a[p]) == Rank(b[p])
    {
      assert Lowered(a)[p] == Lowered(b)[p];
      RankTells(a[p], b[p]);
    }
  }

  /** The static state of the mapper: the map, and whether it has been set up. */
  class CaseMap {
    const cmap: array<Byte>
    var primed: bool

    /** Before priming every entry is zero; afterwards each maps to lower case. */
    ghost predicate Valid()
      reads this, cmap
    {
      && cmap.Length == MAPSIZE
      && (!primed ==> forall i :: 0 <= i < MAPSIZE ==> cmap[i] == 0)
      && (primed ==> forall i :: 0 <= i < MAPSIZE ==> cmap[i] == Primed(i))
    }

    constructor ()
      ensures Valid() && fresh(cmap) && !primed
    {
      cmap := new Byte[MAPSIZE](_ => 0);
      primed := false;
    }

    /** mapprime */
    method MapPrime()
      requires Valid()
      modifies this, cmap
      ensures Valid() && primed
    {
      hide Primed;
      for k := 0 to 26
        invariant forall i :: 0 <= i < MAPSIZE ==> cmap[i] == 0 || cmap[i] == Primed(i)
        invariant forall i :: 65 + OFFSET <= i < 65 + OFFSET + k ==> cmap[i] == Primed(i)
      {
        LetterPrimed(k);
        cmap[97 + k + OFFSET] := (97 + k) as Byte;
        cmap[65 + k + OFFSET] := (97 + k) as Byte;
      }
      for i := 0 to MAPSIZE
        invariant forall j :: 0 <= j < i ==> cmap[j] == Primed(j)
        invariant forall j :: i <= j < MAPSIZE ==> cmap[j] == 0 || cmap[j] == Primed(j)
        invariant forall j :: 65 + OFFSET <= j < 65 + OFFSET + 26 ==> cmap[j] == Primed(j)
      {
        PlainPrimed(i);
        if cmap[i] == 0 {
          cmap[i] := ((i - OFFSET) % 256) as Byte;
        }
      }
      primed := true;
    }

    lemma MapsAll()
      requires Valid() && primed
      ensures forall c :: cmap[Slot(c)] == Lower(c)
    {
    }

    /** casencmp: negative, zero or positive as the first string sorts before the second,
        neither does, or the second does; zero exactly on equality ignoring case when the
        second is free of NUL. */
    method CaseNCmp(s1: Bytes, s2: Bytes, len: nat) returns (r: int)
      requires Valid() && len <= |s1| && len <= |s2|
      modifies this, cmap
      ensures Valid() && primed
      ensures NUL !in s2[..len] ==> (r == 0 <==> Lowered(s1[..len]) == Lowered(s2[..len]))
      ensures r < 0 <==> Sorts(s1[..len], s2[..len])
      ensures r > 0 <==> Sorts(s2[..len], s1[..len])
    {
      hide Lowered, Lower, Slot, Primed, Rank, Sorts, Signed;
      if !primed {
        MapPrime();
      }
      MapsAll();
      var p := 0;
      while p < len && s1[p] != NUL && cmap[Slot(s1[p])] == cmap[Slot(s2[p])]
        invariant 0 <= p <= len && Valid() && primed
        invariant Lowered(s1[..p]) == Lowered(s2[..p])
        invariant forall k :: 0 <= k < p ==> Rank(s1[k]) == Rank(s2[k]) && s1[k] != NUL
        invariant forall c :: cmap[Slot(c)] == Lower(c)
      {
        LoweredNext(s1, 0, p);
        LoweredNext(s2, 0, p);
        RankTells(s1[p], s2[p]);
        p := p + 1;
      }
      if p == len {
        NoDifference(s1[..len], s2[..len]);
        return 0;
      }
      DifferAt(s1[..len], s2[..len], p);
      FirstDifference(s1[..len], s2[..len], p);
      RankTells(s1[p], s2[p]);
      RankTells(s2[p], s1[p]);
      if s1[p] == NUL && s2[p] == NUL {
        r := 0;
      } else if s1[p] == NUL {
        r := -1;
      } else if s2[p] == NUL {
        r := 1;
      } else {
        RankSigned(s1[p]);
        RankSigned(s2[p]);
        r := Signed(cmap[Slot(s1[p])]) - Signed(cmap[Slot(s2[p])]);
      }
    }

    /** CISTREQN: safe without priming the map first, because an unprimed map compares
        every first character equal and leaves the decision to casencmp. */
    method CaseEqual(s1: Bytes, s2: Bytes, n: nat) returns (equal: bool)
      requires Valid() && 0 < n <= |s1| && n <= |s2|
      modifies this, cmap
      ensures Valid()
      ensures NUL !in s2[..n] ==> (equal <==> Lowered(s1[..n]) == Lowered(s2[..n]))
    {
      assert Lower(s1[0]) != Lower(s2[0]) ==> Lowered(s1[..n])[0] != Lowered(s2[..n])[0];
      equal := cmap[Slot(s1[0])] == cmap[Slot(s2[0])];
      if equal {
        var r := CaseNCmp(s1, s2, n);
        equal := r == 0;
      }
    }

    /** cipoint */
    method CiPoint(casemap: Byte, s: Bytes) returns (r: Option<nat>)
      requires Valid()
      modifies this, cmap
      ensures Valid() && r == CasePoint(casemap, s)
    {
      if casemap == CASE_RFC822 {
        var p := IndexOf(s, AT);
        if p == |s| {
          return None;
        }
        if p == 1 + |POST| {
          var post := CaseEqual(s[1..], POST, |POST|);
          assert s[1..][..|POST|] == s[1..p] && POST[..|POST|] == POST;
          assert Lowered(POST) == POST;
          if post {
            return Some(0);
          }
        }
        return Some(p);
      } else if casemap == CASE_ALL {
        return Some(0);
      }
      r := None;
    }

    /** mapcase: the case-mapped copy of a key. */
    method Map(casemap: Byte, src: Bytes) returns (dst: Bytes)
      requires Valid()
      modifies this, cmap
      ensures Valid() && dst == MapCase(casemap, src)
    {
      hide Lowered, CasePoint;
      var c := CiPoint(casemap, src);
      if c == None {
        return src;
      }
      if !primed {
        MapPrime();
      }
      dst := [];
      while |dst| < c.value
        invariant |dst| <= c.value && dst == src[..|dst|]
      {
        dst := dst + [src[|dst|]];
      }
      ghost var front := src[..c.value];
      assert Lowered(src[c.value..c.value]) == [];
      while |dst| < |src|
        invariant Valid() && primed && c.value <= |dst| <= |src|
        invariant dst == front + Lowered(src[c.value..|dst|])
      {
        LoweredNext(src, c.value, |dst|);
        Regroup(front, Lowered(src[c.value..|dst|]), [Lower(src[|dst|])]);
        dst := dst + [cmap[Slot(src[|dst|])]];
      }
      assert src[c.value..|dst|] == src[c.value..];
    }
  }

  lemma LoweredNext(s: Bytes, a: nat, i: nat)
    requires a <= i < |s|
    ensures Lowered(s[a..i + 1]) == Lowered(s[a..i]) + [Lower(s[i])]
  {
  }

  lemma MappedBytes(casemap: Byte, s: Bytes)
    ensures forall i :: 0 <= i < |s| ==> MapCase(casemap, s)[i] == s[i] || MapCase(casemap, s)[i] == Lower(s[i])
  {
  }

  /** Mapping keeps the split into local part and domain. */
  lemma MapKeepsAt(casemap: Byte, s: Bytes)
    ensures IndexOf(MapCase(casemap, s), AT) == IndexOf(s, AT)
  {
    hide MapCase, IndexOf;
    var p := IndexOf(s, AT);
    var t := MapCase(casemap, s);
    IndexOfFirst(s, AT);
    IndexOfFirst(t, AT);
    MappedBytes(casemap, s);
    if p < |s| {
      assert forall i :: 0 <= i < p ==> s[i] in s[..p];
      IndexOfUnique(t, AT, p);
    } else {
      assert AT !in t;
    }
  }

  lemma LoweredTwice(s: Bytes)
    ensures Lowered(Lowered(s)) == Lowered(s)
  {
  }

  /** Mapping a mapped key changes nothing, for every map. */
  lemma MapIdempotent(casemap: Byte, s: Bytes)
    ensures MapCase(casemap, MapCase(casemap, s)) == MapCase(casemap, s)
  {
    var t := MapCase(casemap, s);
    MapKeepsAt(casemap, s);
    match CasePoint(casemap, s)
    case None =>
    case Some(c) =>
      if casemap == CASE_RFC822 {
        var p := IndexOf(s, AT);
        if 1 <= p {
          if c == 0 {
            assert Lowered(t[1..p]) == Lowered(s[1..p]);
          } else {
            assert t[1..p] == s[1..p];
          }
        }
      }
      LoweredTwice(s[c..]);
      assert t[..c] == s[..c] && t[c..] == Lowered(s[c..]);
  }

  function Local(s: Bytes): Bytes {
    var p := IndexOf(s, AT);
    if p == 0 then [] else s[1..p]
  }

  function Domain(s: Bytes): Bytes {
    s[IndexOf(s, AT)..]
  }

  predicate IsMessageId(s: Bytes) {
    s != [] && s[0] == LESS && AT in s
  }

  predicate IsPostmaster(local: Bytes) {
    Lowered(local) == POST
  }

  lemma LoweredJoin(a: Bytes, b: Bytes)
    ensures Lowered(a + b) == Lowered(a) + Lowered(b)
  {
  }

  lemma Split3(s: Bytes, p: nat)
    requires 1 <= p <= |s|
    ensures s == [s[0]] + s[1..p] + s[p..]
    ensures s[..p] == [s[0]] + s[1..p]
  {
  }

  lemma IdCut(s: Bytes)
    requires IsMessageId(s)
    ensures 1 <= IndexOf(s, AT) < |s|
    ensures AT !in s[1..IndexOf(s, AT)]
  {
    IndexOfFirst(s, AT);
    var p := IndexOf(s, AT);
    assert p > 0;
    Split3(s, p);
  }

  lemma IdParts(s: Bytes)
    requires IsMessageId(s)
    ensures s == [LESS] + Local(s) + Domain(s)
    ensures AT !in Local(s) && Domain(s) != [] && Domain(s)[0] == AT
  {
    IdCut(s);
    Split3(s, IndexOf(s, AT));
  }

  function MappedLocal(s: Bytes): Bytes {
    if IsPostmaster(Local(s)) then POST else Local(s)
  }

  lemma PostIsLower()
    ensures Lowered(POST) == POST
  {
  }

  lemma LoweredId(l: Bytes, d: Bytes)
    ensures Lowered([LESS] + l + d) == [LESS] + Lowered(l) + Lowered(d)
  {
    LoweredJoin([LESS] + l, d);
    LoweredJoin([LESS], l);
    assert Lowered([LESS]) == [LESS];
  }

  lemma MapWhole(s: Bytes)
    requires CasePoint(CASE_RFC822, s) == Some(0)
    ensures MapCase(CASE_RFC822, s) == Lowered(s)
  {
    assert s[0..] == s;
  }

  lemma MapPostmaster(s: Bytes)
    requires IsMessageId(s) && IsPostmaster(Local(s))
    ensures MapCase(CASE_RFC822, s) == [LESS] + POST + Lowered(Domain(s))
  {
    IdCut(s);
    IdParts(s);
    assert |Local(s)| == |POST|;
    MapWhole(s);
    LoweredId(Local(s), Domain(s));
  }

  lemma MapOther(s: Bytes)
    requires IsMessageId(s) && !IsPostmaster(Local(s))
    ensures MapCase(CASE_RFC822, s) == [LESS] + Local(s) + Lowered(Domain(s))
  {
    IdCut(s);
    Split3(s, IndexOf(s, AT));
  }

  /** The mapped form of a message-ID, part by part. */
  lemma MapParts(s: Bytes)
    requires IsMessageId(s)
    ensures MapCase(CASE_RFC822, s) ==
            [LESS] + MappedLocal(s) + Lowered(Domain(s))
  {
    if IsPostmaster(Local(s)) {
      MapPostmaster(s);
    } else {
      MapOther(s);
    }
  }

  /** Two strings cut at their first '@' agree exactly when both parts agree. */
  lemma CutAtFirst(a1: Bytes, a2: Bytes, b1: Bytes, b2: Bytes)
    requires AT !in a1 && AT !in b1
    requires a2 != [] && b2 != [] && a2[0] == AT && b2[0] == AT
    ensures [LESS] + a1 + a2 == [LESS] + b1 + b2 <==> a1 == b1 && a2 == b2
  {
    CutAt(a1, a2);
    CutAt(b1, b2);
  }

  lemma CutAt(a1: Bytes, a2: Bytes)
    requires AT !in a1 && a2 != [] && a2[0] == AT
    ensures var x := [LESS] + a1 + a2;
            IndexOf(x, AT) == 1 + |a1| && x[1..1 + |a1|] == a1 && x[1 + |a1|..] == a2
  {
    var x := [LESS] + a1 + a2;
    assert x[..1 + |a1|] == [LESS] + a1;
    IndexOfUnique(x, AT, 1 + |a1|);
  }

  /** Section 3.4.7 of RFC 822: two message-IDs map alike exactly when their domains agree
      ignoring case, and their local parts agree exactly or are both "postmaster"
      ignoring case. */
  lemma MapEqual(a: Bytes, b: Bytes)
    requires IsMessageId(a) && IsMessageId(b)
    ensures MapCase(CASE_RFC822, a) == MapCase(CASE_RFC822, b) <==>
            Lowered(Domain(a)) == Lowered(Domain(b)) &&
            (Local(a) == Local(b) || (IsPostmaster(Local(a)) && IsPostmaster(Local(b))))
  {
    MapParts(a);
    MapParts(b);
    PartsForCut(a);
    PartsForCut(b);
    CutAtFirst(MappedLocal(a), Lowered(Domain(a)), MappedLocal(b), Lowered(Domain(b)));
    SameMappedLocal(a, b);
  }

  lemma SameMappedLocal(a: Bytes, b: Bytes)
    ensures MappedLocal(a) == MappedLocal(b) <==>
            Local(a) == Local(b) || (IsPostmaster(Local(a)) && IsPostmaster(Local(b)))
  {
    PostIsLower();
  }

  lemma PartsForCut(s: Bytes)
    requires IsMessageId(s)
    ensures AT !in MappedLocal(s) && Lowered(Domain(s)) != [] && Lowered(Domain(s))[0] == AT
  {
    IdParts(s);
  }
}
