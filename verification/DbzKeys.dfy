/** When the base file tells keys apart (dbz.c). The keys themselves are not stored: a hit
    is confirmed by reading as many bytes as the key has from the base file. */
module DbzKeys {
  import opened Bits
  import opened Bytes
  import opened DbzTag
  import opened DbzHash
  import opened DbzCase
  import opened DbzTable

  /** The base file holds a raw key and the field separator at an offset. */
  predicate TextAt(conf: Conf, base: Bytes, raw: Bytes, off: int) {
    0 <= off && off + |raw| < |base| &&
    base[off..off + |raw|] == raw && base[off + |raw|] == conf.fieldsep
  }

  /** The text of each stored pair is at its offset, and its key is the mapped text, with a
      final NUL when the keys are NUL-terminated. */
  ghost predicate KeyedBy(conf: Conf, base: Bytes, es: seq<Entry>, raws: seq<Bytes>, end: Bytes) {
    |es| == |raws| &&
    forall i :: 0 <= i < |es| ==>
      raws[i] != [] && TextAt(conf, base, raws[i], es[i].value) && es[i].key == MapCase(conf.casemap, raws[i] + end)
  }

  /** A separator that is neither a letter nor '@', so that case mapping ignores it. */
  predicate NeutralSep(sep: Byte) {
    Lower(sep) == sep && !(97 <= sep <= 122) && sep != AT
  }

  /** A key that contains neither the separator nor NUL. */
  predicate PlainKey(conf: Conf, raw: Bytes) {
    raw != [] && conf.fieldsep !in raw && NUL !in raw && NeutralSep(conf.fieldsep)
  }

  lemma MapCharwise(casemap: Byte, s: Bytes, i: nat)
    requires i < |s|
    ensures MapCase(casemap, s)[i] == s[i] || MapCase(casemap, s)[i] == Lower(s[i])
  {
    hide CasePoint, Lower;
  }

  /** Mapping leaves a neutral byte where it is and makes no new one. */
  lemma MapKeepsSep(casemap: Byte, s: Bytes, sep: Byte)
    requires NeutralSep(sep)
    ensures forall i :: 0 <= i < |s| ==> (MapCase(casemap, s)[i] == sep <==> s[i] == sep)
    ensures sep !in s ==> sep !in MapCase(casemap, s)
  {
    forall i | 0 <= i < |s|
      ensures MapCase(casemap, s)[i] == sep <==> s[i] == sep
      ensures sep !in s ==> s[i] != sep
    {
      MapCharwise(casemap, s, i);
    }
  }

  lemma NulNeutral()
    ensures NeutralSep(NUL)
  {
  }

  /** Without a final NUL a key is confirmed by any text that merely begins with it. So it
      is told apart from the stored keys exactly when none of them, cut to its length,
      maps to it. */
  predicate NoLongerKey(casemap: Byte, raw: Bytes, other: Bytes) {
    |other| > |raw| ==> MapCase(casemap, other[..|raw|]) != MapCase(casemap, raw)
  }

  lemma ConfirmShort(conf: Conf, base: Bytes, raw: Bytes, other: Bytes, off: int)
    requires PlainKey(conf, raw) && |raw| <= |other|
    requires TextAt(conf, base, other, off)
    ensures Readable(base, MapCase(conf.casemap, raw), off)
    ensures Confirm(conf, base, MapCase(conf.casemap, raw), off) <==>
            MapCase(conf.casemap, other[..|raw|]) == MapCase(conf.casemap, raw)
  {
    hide MapCase, Lower;
    var key := MapCase(conf.casemap, raw);
    NulNeutral();
    MapKeepsSep(conf.casemap, raw, NUL);
    LastIn(key);
    TextPrefix(base, other, off, |raw|);
  }

  lemma LastIn(key: Bytes)
    requires key != []
    ensures key[|key| - 1] in key
  {
  }

  lemma TextPrefix(base: Bytes, text: Bytes, off: int, n: nat)
    requires 0 <= off && off + |text| <= |base| && base[off..off + |text|] == text && n <= |text|
    ensures base[off..off + n] == text[..n]
  {
    assert base[off..off + n] == base[off..off + |text|][..n];
  }

  lemma ConfirmLong(conf: Conf, base: Bytes, raw: Bytes, other: Bytes, off: int)
    requires PlainKey(conf, raw) && |raw| > |other|
    requires TextAt(conf, base, other, off) && Readable(base, MapCase(conf.casemap, raw), off)
    ensures !Confirm(conf, base, MapCase(conf.casemap, raw), off)
  {
    hide MapCase, Lower;
    var key := MapCase(conf.casemap, raw);
    var text := base[off..off + |key|];
    NulNeutral();
    MapKeepsSep(conf.casemap, raw, NUL);
    assert key[|key| - 1] in key;
    assert text[|other|] == conf.fieldsep;
    MapKeepsSep(conf.casemap, text, conf.fieldsep);
    MapKeepsSep(conf.casemap, raw, conf.fieldsep);
    assert key[|other|] in key;
  }

  /** The first of some raw keys that is the same key once mapped. */
  function FirstRaw(casemap: Byte, raws: seq<Bytes>, raw: Bytes): (i: nat)
    ensures i <= |raws|
    ensures i < |raws| ==> MapCase(casemap, raws[i]) == MapCase(casemap, raw)
    ensures forall k :: 0 <= k < i ==> MapCase(casemap, raws[k]) != MapCase(casemap, raw)
  {
    if raws == [] then 0
    else if MapCase(casemap, raws[0]) == MapCase(casemap, raw) then 0
    else 1 + FirstRaw(casemap, raws[1..], raw)
  }

  /** No longer key was stored that begins with the key, unless the key itself was stored
      before it. */
  predicate NoneExtends(casemap: Byte, raws: seq<Bytes>, raw: Bytes) {
    forall i :: 0 <= i < FirstRaw(casemap, raws, raw) ==> NoLongerKey(casemap, raw, raws[i])
  }

  lemma FirstIsFirst(conf: Conf, base: Bytes, es: seq<Entry>, raws: seq<Bytes>, raw: Bytes)
    requires KeyedBy(conf, base, es, raws, [])
    ensures FirstIndex(es, MapCase(conf.casemap, raw)) == FirstRaw(conf.casemap, raws, raw)
  {
    hide MapCase;
    forall i | 0 <= i < |es|
      ensures es[i].key == MapCase(conf.casemap, raws[i])
    {
      assert raws[i] + [] == raws[i];
    }
    var a, b := FirstIndex(es, MapCase(conf.casemap, raw)), FirstRaw(conf.casemap, raws, raw);
  }

  /** Unterminated keys are told apart when no older key begins with the key, and, as far as
      the stored offsets can be read, only then. */
  lemma TellsUnterminated(conf: Conf, base: Bytes, es: seq<Entry>, raws: seq<Bytes>, raw: Bytes)
    requires PlainKey(conf, raw) && KeyedBy(conf, base, es, raws, [])
    ensures Tells(conf, base, es, MapCase(conf.casemap, raw)) <==> NoneExtends(conf.casemap, raws, raw)
  {
    hide MapCase, Confirm, NoLongerKey, Readable;
    var key := MapCase(conf.casemap, raw);
    FirstIsFirst(conf, base, es, raws, raw);
    forall i | 0 <= i < |es| && i <= FirstIndex(es, key)
      ensures es[i].key == key ==> Readable(base, key, es[i].value) && Confirm(conf, base, key, es[i].value)
      ensures es[i].key != key ==>
                ((Readable(base, key, es[i].value) ==> !Confirm(conf, base, key, es[i].value)) <==>
                 NoLongerKey(conf.casemap, raw, raws[i]))
    {
      assert raws[i] + [] == raws[i];
      TellsOne(conf, base, raw, raws[i], es[i].value);
    }
  }

  /** What one stored text says of a key. */
  lemma TellsOne(conf: Conf, base: Bytes, raw: Bytes, other: Bytes, off: int)
    requires PlainKey(conf, raw) && TextAt(conf, base, other, off)
    ensures var key := MapCase(conf.casemap, raw);
            if MapCase(conf.casemap, other) == key then Readable(base, key, off) && Confirm(conf, base, key, off)
            else Readable(base, key, off) && Confirm(conf, base, key, off) <==> !NoLongerKey(conf.casemap, raw, other)
  {
    hide MapCase, Confirm;
    if |raw| <= |other| {
      ConfirmShort(conf, base, raw, other, off);
      assert |raw| == |other| ==> other[..|raw|] == other;
    } else if Readable(base, MapCase(conf.casemap, raw), off) {
      ConfirmLong(conf, base, raw, other, off);
    }
  }

  /** The byte after a key does not change how the key is mapped, unless it is an '@'. */
  lemma MapBefore(casemap: Byte, s: Bytes, a: Byte, b: Byte)
    requires a != AT && b != AT
    ensures MapCase(casemap, s + [a])[..|s|] == MapCase(casemap, s + [b])[..|s|]
  {
    var p := IndexOf(s, AT);
    IndexOfFirst(s, AT);
    FirstAtExtended(s, a);
    FirstAtExtended(s, b);
    if 0 < p < |s| {
      assert (s + [a])[1..p] == s[1..p] == (s + [b])[1..p];
    }
    SamePointSameMap(casemap, s, a, b);
  }

  lemma SamePointSameMap(casemap: Byte, s: Bytes, a: Byte, b: Byte)
    requires CasePoint(casemap, s + [a]) == CasePoint(casemap, s + [b])
    ensures MapCase(casemap, s + [a])[..|s|] == MapCase(casemap, s + [b])[..|s|]
  {
    hide MapCase, CasePoint, Lower;
    forall i | 0 <= i < |s|
      ensures MapCase(casemap, s + [a])[i] == MapCase(casemap, s + [b])[i]
    {
      MapAt(casemap, s + [a], i);
      MapAt(casemap, s + [b], i);
    }
  }

  lemma MapAt(casemap: Byte, s: Bytes, i: nat)
    requires i < |s|
    ensures MapCase(casemap, s)[i] ==
            match CasePoint(casemap, s)
            case None => s[i]
            case Some(c) => if i < c then s[i] else Lower(s[i])
  {
    hide CasePoint, Lower;
  }

  lemma FirstAtExtended(s: Bytes, a: Byte)
    requires a != AT
    ensures IndexOf(s + [a], AT) == if IndexOf(s, AT) < |s| then IndexOf(s, AT) else |s| + 1
  {
    var p := IndexOf(s, AT);
    IndexOfFirst(s, AT);
    IndexOfFirst(s + [a], AT);
    if p < |s| {
      assert (s + [a])[..p] == s[..p];
      IndexOfUnique(s + [a], AT, p);
    }
  }

  /** The mapped form of a NUL-terminated key is NUL-terminated. */
  lemma MapTerminated(casemap: Byte, raw: Bytes)
    ensures MapCase(casemap, raw + [NUL])[|raw|] == NUL
  {
    hide MapCase, CasePoint;
    MapAt(casemap, raw + [NUL], |raw|);
  }

  lemma TerminatedSame(conf: Conf, base: Bytes, raw: Bytes, other: Bytes, off: int)
    requires PlainKey(conf, raw) && |raw| == |other| && TextAt(conf, base, other, off)
    ensures Readable(base, MapCase(conf.casemap, raw + [NUL]), off)
    ensures Confirm(conf, base, MapCase(conf.casemap, raw + [NUL]), off) <==>
            MapCase(conf.casemap, raw + [NUL]) == MapCase(conf.casemap, other + [NUL])
  {
    hide MapCase, Lower;
    var key, key' := MapCase(conf.casemap, raw + [NUL]), MapCase(conf.casemap, other + [NUL]);
    var text := base[off..off + |key|];
    assert text == other + [conf.fieldsep];
    MapTerminated(conf.casemap, raw);
    MapTerminated(conf.casemap, other);
    MapBefore(conf.casemap, other, conf.fieldsep, NUL);
    MapAt(conf.casemap, text, |raw|);
    assert key == key[..|raw|] + [NUL] && key' == key'[..|raw|] + [NUL];
  }

  lemma TerminatedShort(conf: Conf, base: Bytes, raw: Bytes, other: Bytes, off: int)
    requires PlainKey(conf, raw) && PlainKey(conf, other) && |raw| < |other| && TextAt(conf, base, other, off)
    ensures Readable(base, MapCase(conf.casemap, raw + [NUL]), off)
    ensures !Confirm(conf, base, MapCase(conf.casemap, raw + [NUL]), off)
  {
    hide MapCase, Lower;
    var key := MapCase(conf.casemap, raw + [NUL]);
    MapTerminated(conf.casemap, raw);
    TextPrefix(base, other, off, |raw| + 1);
    var text := other[..|raw| + 1];
    NulNeutral();
    MapKeepsSep(conf.casemap, text, NUL);
    MapKeepsSep(conf.casemap, text, conf.fieldsep);
    assert text[|raw|] in other;
  }

  lemma TerminatedLong(conf: Conf, base: Bytes, raw: Bytes, other: Bytes, off: int)
    requires PlainKey(conf, raw) && |raw| > |other| && TextAt(conf, base, other, off)
    requires Readable(base, MapCase(conf.casemap, raw + [NUL]), off)
    ensures !Confirm(conf, base, MapCase(conf.casemap, raw + [NUL]), off)
  {
    hide MapCase, Lower;
    var key := MapCase(conf.casemap, raw + [NUL]);
    var text := base[off..off + |key|];
    MapTerminated(conf.casemap, raw);
    assert text[|other|] == conf.fieldsep;
    MapKeepsSep(conf.casemap, text, conf.fieldsep);
    assert (raw + [NUL])[|other|] in raw;
    MapKeepsSep(conf.casemap, raw + [NUL], conf.fieldsep);
  }

  /** NUL-terminated keys are always told apart, even when one is a prefix of another. */
  lemma TellsTerminated(conf: Conf, base: Bytes, es: seq<Entry>, raws: seq<Bytes>, raw: Bytes)
    requires PlainKey(conf, raw) && KeyedBy(conf, base, es, raws, [NUL])
    requires forall i :: 0 <= i < |es| ==> PlainKey(conf, raws[i])
    ensures Tells(conf, base, es, MapCase(conf.casemap, raw + [NUL]))
  {
    hide MapCase, Confirm;
    var key := MapCase(conf.casemap, raw + [NUL]);
    forall i | 0 <= i < |es|
      ensures if es[i].key == key then Readable(base, key, es[i].value) && Confirm(conf, base, key, es[i].value)
              else Readable(base, key, es[i].value) ==> !Confirm(conf, base, key, es[i].value)
    {
      if |raw| == |raws[i]| {
        TerminatedSame(conf, base, raw, raws[i], es[i].value);
      } else if |raw| < |raws[i]| {
        TerminatedShort(conf, base, raw, raws[i], es[i].value);
      } else if Readable(base, key, es[i].value) {
        TerminatedLong(conf, base, raw, raws[i], es[i].value);
      }
    }
  }

  // ---- where the conditions are needed ------------------------------------

  /** Untagged tables of one slot: the j-th probe of any key is slot j / MAXRUN. */
  function Tiny(sep: Byte, casemap: Byte): Conf {
    Conf(1, sep, casemap, Tags(0, 0, 0))
  }

  lemma TinyValid(sep: Byte, casemap: Byte)
    ensures Tiny(sep, casemap).Valid()
  {
    forall k: nat
      ensures !Bit(0, k)
    {
      ZeroBits(k);
    }
  }

  lemma TinyOkay(sep: Byte, casemap: Byte, e: Entry)
    requires 0 <= e.value <= LONG_MAX
    ensures OkayEntry(Tiny(sep, casemap), e)
  {
    ZeroAnd(e.value);
  }

  /** In such a table the pairs lie one after another. */
  lemma {:induction false} TinyPlace(s: seq<int>, sep: Byte, casemap: Byte, es: seq<Entry>, ds: seq<nat>, i: nat)
    requires Represents(s, Tiny(sep, casemap), es, ds) && i < |es|
    ensures PlaceOf(Tiny(sep, casemap), es[i], ds[i]) == i
    decreases i
  {
    hide HashOf;
    var conf := Tiny(sep, casemap);
    var p := PlaceOf(conf, es[i], ds[i]);
    assert p == ds[i] / MAXRUN;
    if p < i {
      TinyPlace(s, sep, casemap, es, ds, p);
    } else if p > i {
      var k := OlderThere(s, conf, es, ds, i, MAXRUN * i);
      TinyPlace(s, sep, casemap, es, ds, k);
    }
  }

  lemma TinyDecode(sep: Byte, casemap: Byte, e: Entry, h: nat)
    requires OkayEntry(Tiny(sep, casemap), e)
    ensures Tiny(sep, casemap).tags.Decode(WordOf(Tiny(sep, casemap), e), Tiny(sep, casemap).TagOf(h)) == Hit(e.value)
  {
    var conf := Tiny(sep, casemap);
    TinyValid(sep, casemap);
    MakeTagFits(conf.tags, HashOf(e.key) / conf.tsize);
    hide MapCase, And, Or, Not, HashOf;
    EncodeDecode(conf.tags, conf.TagOf(HashOf(e.key)), e.value, conf.TagOf(h));
    assert !Hidden(conf.tags, conf.TagOf(HashOf(e.key)), e.value, conf.TagOf(h));
  }

  /** Every fetch from such a table meets the pairs in the order they were stored. */
  lemma TinyMeets(s: seq<int>, sep: Byte, casemap: Byte, es: seq<Entry>, ds: seq<nat>, h: nat, j: nat)
    requires Represents(s, Tiny(sep, casemap), es, ds) && j / MAXRUN < |es|
    ensures var conf := Tiny(sep, casemap);
            conf.tags.Decode(At(s, Probe(1, h, j)), conf.TagOf(h)) == Hit(es[j / MAXRUN].value)
  {
    var i := j / MAXRUN;
    TinyPlace(s, sep, casemap, es, ds, i);
    TinyDecode(sep, casemap, es[i], h);
  }

  /** A pair whose offset would stop a fetch of the key, or be taken for it. */
  predicate Stops(conf: Conf, base: Bytes, key: Bytes, e: Entry)
    requires key != []
  {
    Readable(base, key, e.value) ==> Confirm(conf, base, key, e.value)
  }

  /** So a fetch ends at the first of them that stops it, whatever its own key. */
  lemma {:induction false} TinyStops(s: seq<int>, conf: Conf, base: Bytes, es: seq<Entry>, ds: seq<nat>, key: Bytes, m: nat, j: nat)
    requires conf == Tiny(conf.fieldsep, conf.casemap) && Represents(s, conf, es, ds) && key != []
    requires m < |es| && j / MAXRUN <= m
    requires forall k :: 0 <= k < m ==> !Stops(conf, base, key, es[k])
    requires Stops(conf, base, key, es[m])
    ensures Lookup(s, conf, base, key, HashOf(key), j) ==
            if Readable(base, key, es[m].value) then Found(es[m].value) else Unreadable
    decreases MAXRUN * (m + 1) - j
  {
    hide Lookup, HashOf, Represents, Confirm, Probe, At;
    TinyMeets(s, conf.fieldsep, conf.casemap, es, ds, HashOf(key), j);
    LookupStep(s, conf, base, key, HashOf(key), j);
    if j / MAXRUN < m {
      TinyStops(s, conf, base, es, ds, key, m, j + 1);
    }
  }

  /** Without the condition on longer keys: after storing a longer key alone, fetching the
      shorter one finds it, and so does any other beginning of it. */
  lemma PrefixIsFound(s: seq<int>, ds: seq<nat>, sep: Byte, casemap: Byte, base: Bytes, other: Bytes, value: int, raw: Bytes)
    requires PlainKey(Tiny(sep, casemap), raw) && TextAt(Tiny(sep, casemap), base, other, value)
    requires !NoLongerKey(casemap, raw, other)
    requires Represents(s, Tiny(sep, casemap), [Entry(MapCase(casemap, other), value)], ds)
    ensures var key := MapCase(casemap, raw);
            FetchOutcome(s, Tiny(sep, casemap), base, key) == Found(value) &&
            Scan([Entry(MapCase(casemap, other), value)], key) == None
  {
    hide HashOf, MapCase, Confirm, Lookup, Represents;
    ConfirmShort(Tiny(sep, casemap), base, raw, other, value);
    TinyStops(s, Tiny(sep, casemap), base, [Entry(MapCase(casemap, other), value)], ds, MapCase(casemap, raw), 0, 0);
  }

  /** Without the condition on the probe path: a pair whose offset leaves too little to read
      hides every key stored after it. */
  lemma ShortReadHides(s: seq<int>, ds: seq<nat>, conf: Conf, base: Bytes, first: Entry, key: Bytes, value: int)
    requires conf == Tiny(conf.fieldsep, conf.casemap) && key != []
    requires Represents(s, conf, [first, Entry(key, value)], ds)
    requires first.key != key && !Readable(base, key, first.value)
    ensures FetchOutcome(s, conf, base, key) == Unreadable
    ensures Scan([first, Entry(key, value)], key) == Some(value)
  {
    hide HashOf, Confirm, Lookup, Represents;
    var es := [first, Entry(key, value)];
    TinyStops(s, conf, base, es, ds, key, 0, 0);
    assert es[0] == first && es[1] == Entry(key, value);
    assert FirstIndex(es, key) == 1;
  }

  // ---- exactly when a fetch may be wrong ----------------------------------

  function Reply(r: Outcome): Option<int> {
    if r.Found? then Some(r.value) else None
  }

  /** A table in which some keys were stored in order, over a base file that holds them and
      in which the pairs older than the key's own can be read. */
  ghost predicate TableOf(s: seq<int>, conf: Conf, base: Bytes, es: seq<Entry>, ds: seq<nat>, raws: seq<Bytes>, raw: Bytes) {
    && conf.Valid() && Represents(s, conf, es, ds) && KeyedBy(conf, base, es, raws, [])
    && var key := MapCase(conf.casemap, raw);
       forall i :: 0 <= i < FirstIndex(es, key) < |es| ==> Readable(base, key, es[i].value)
  }

  /** No such table, of any size and with any tags, over any base file, answers a fetch of
      the key wrongly. */
  ghost predicate NeverWrong(sep: Byte, casemap: Byte, raws: seq<Bytes>, raw: Bytes)
    requires raw != []
  {
    forall s, conf: Conf, base, es, ds ::
      conf.fieldsep == sep && conf.casemap == casemap && TableOf(s, conf, base, es, ds, raws, raw) ==>
        Reply(FetchOutcome(s, conf, base, MapCase(casemap, raw))) == Scan(es, MapCase(casemap, raw))
  }

  /** A base file made of the keys, one after another. */
  function Texts(raws: seq<Bytes>, sep: Byte): Bytes {
    if raws == [] then [] else Texts(raws[..|raws| - 1], sep) + raws[|raws| - 1] + [sep]
  }

  function OffsetOf(raws: seq<Bytes>, sep: Byte, i: nat): nat
    requires i <= |raws|
  {
    |Texts(raws[..i], sep)|
  }

  lemma TextsNext(raws: seq<Bytes>, sep: Byte, i: nat)
    requires i < |raws|
    ensures Texts(raws[..i + 1], sep) == Texts(raws[..i], sep) + raws[i] + [sep]
    ensures OffsetOf(raws, sep, i + 1) == OffsetOf(raws, sep, i) + |raws[i]| + 1
  {
    assert raws[..i + 1][..i] == raws[..i];
  }

  lemma {:induction false} TextsGrow(raws: seq<Bytes>, sep: Byte, i: nat, n: nat)
    requires i <= n <= |raws|
    ensures Texts(raws[..i], sep) <= Texts(raws[..n], sep)
    ensures n - i <= OffsetOf(raws, sep, n) - OffsetOf(raws, sep, i)
    decreases n - i
  {
    if i < n {
      TextsNext(raws, sep, i);
      TextsGrow(raws, sep, i + 1, n);
    }
  }

  /** Each key stands in it at its offset. */
  lemma TextIsAt(raws: seq<Bytes>, sep: Byte, casemap: Byte, i: nat)
    requires i < |raws|
    ensures TextAt(Tiny(sep, casemap), Texts(raws, sep), raws[i], OffsetOf(raws, sep, i))
  {
    assert raws[..|raws|] == raws;
    TextsNext(raws, sep, i);
    TextsGrow(raws, sep, i + 1, |raws|);
    var off, whole := OffsetOf(raws, sep, i), Texts(raws[..i + 1], sep);
    assert whole == Texts(raws, sep)[..|whole|];
    assert whole[off..off + |raws[i]|] == raws[i];
    assert Texts(raws, sep)[off..off + |raws[i]|] == whole[off..off + |raws[i]|];
  }

  function EntriesFor(raws: seq<Bytes>, sep: Byte, casemap: Byte): (es: seq<Entry>)
    ensures |es| == |raws|
    ensures forall i :: 0 <= i < |es| ==> es[i] == Entry(MapCase(casemap, raws[i]), OffsetOf(raws, sep, i))
  {
    seq(|raws|, i requires 0 <= i < |raws| => Entry(MapCase(casemap, raws[i]), OffsetOf(raws, sep, i)))
  }

  /** The keys stored over that base file, in the tiny table. */
  lemma TinyTable(raws: seq<Bytes>, sep: Byte, casemap: Byte, raw: Bytes) returns (s: seq<int>, ds: seq<nat>)
    requires raw != [] && forall i :: 0 <= i < |raws| ==> raws[i] != []
    requires |Texts(raws, sep)| <= LONG_MAX
    ensures TableOf(s, Tiny(sep, casemap), Texts(raws, sep), EntriesFor(raws, sep, casemap), ds, raws, raw)
    ensures forall i :: 0 <= i < |raws| && |raws[i]| >= |raw| ==>
              forall k :: 0 <= k <= i ==>
                Readable(Texts(raws, sep), MapCase(casemap, raw), EntriesFor(raws, sep, casemap)[k].value)
  {
    hide Represents, MapCase, Laid, DepthsOf, OkayEntry, Texts, OffsetOf;
    var conf, base, es := Tiny(sep, casemap), Texts(raws, sep), EntriesFor(raws, sep, casemap);
    TinyValid(sep, casemap);
    forall i | 0 <= i < |raws|
      ensures TextAt(conf, base, raws[i], es[i].value) && OkayEntry(conf, es[i])
      ensures es[i].key == MapCase(casemap, raws[i] + [])
    {
      TextIsAt(raws, sep, casemap, i);
      TinyOkay(sep, casemap, es[i]);
      assert raws[i] + [] == raws[i];
    }
    LaidRepresents(conf, es);
    s, ds := Laid(conf, es), DepthsOf(conf, es);
    forall i, k | 0 <= k <= i < |raws| && |raws[i]| >= |raw|
      ensures Readable(base, MapCase(casemap, raw), es[k].value)
    {
      TextsGrow(raws, sep, k, i);
    }
    FirstIsFirst(conf, base, es, raws, raw);
  }

  /** If an older key begins with the key, that table answers wrongly. */
  lemma WrongAnswer(sep: Byte, casemap: Byte, raws: seq<Bytes>, raw: Bytes)
    requires PlainKey(Tiny(sep, casemap), raw) && forall i :: 0 <= i < |raws| ==> raws[i] != []
    requires |Texts(raws, sep)| <= LONG_MAX && !NoneExtends(casemap, raws, raw)
    ensures !NeverWrong(sep, casemap, raws, raw)
  {
    hide Represents, MapCase, Texts, OffsetOf, Confirm, Lookup, HashOf;
    var conf, base, es := Tiny(sep, casemap), Texts(raws, sep), EntriesFor(raws, sep, casemap);
    var key, n := MapCase(casemap, raw), FirstRaw(casemap, raws, raw);
    var s, ds := TinyTable(raws, sep, casemap, raw);
    var m := FirstExtending(casemap, raws, raw);
    FirstIsFirst(conf, base, es, raws, raw);
    forall k | 0 <= k <= m
      ensures Readable(base, key, es[k].value) && (Confirm(conf, base, key, es[k].value) <==> k == m)
    {
      TextIsAt(raws, sep, casemap, k);
      TellsOne(conf, base, raw, raws[k], es[k].value);
    }
    TinyStops(s, conf, base, es, ds, key, m, 0);
    if n < |raws| {
      TextsGrow(raws, sep, m, n);
    }
  }

  lemma FirstExtending(casemap: Byte, raws: seq<Bytes>, raw: Bytes) returns (m: nat)
    requires !NoneExtends(casemap, raws, raw)
    ensures m < FirstRaw(casemap, raws, raw) && !NoLongerKey(casemap, raw, raws[m])
    ensures forall k :: 0 <= k < m ==> NoLongerKey(casemap, raw, raws[k])
  {
    m := 0;
    while NoLongerKey(casemap, raw, raws[m])
      invariant m < FirstRaw(casemap, raws, raw)
      invariant forall k :: 0 <= k < m ==> NoLongerKey(casemap, raw, raws[k])
      decreases |raws| - m
    {
      assert exists k :: m < k < FirstRaw(casemap, raws, raw) && !NoLongerKey(casemap, raw, raws[k]);
      m := m + 1;
    }
  }

  /** Unterminated keys: in every table over every base file a fetch answers as the scan of
      the stored pairs does, if and only if no longer key that was stored before the key
      itself begins with it. */
  lemma FetchWrongExactly(sep: Byte, casemap: Byte, raws: seq<Bytes>, raw: Bytes)
    requires PlainKey(Tiny(sep, casemap), raw) && forall i :: 0 <= i < |raws| ==> raws[i] != []
    requires |Texts(raws, sep)| <= LONG_MAX
    ensures NeverWrong(sep, casemap, raws, raw) <==> NoneExtends(casemap, raws, raw)
  {
    hide Represents, MapCase, Texts, NoneExtends, Tells, FetchOutcome;
    if NoneExtends(casemap, raws, raw) {
      forall s, conf: Conf, base, es, ds |
        conf.fieldsep == sep && conf.casemap == casemap && TableOf(s, conf, base, es, ds, raws, raw)
        ensures Reply(FetchOutcome(s, conf, base, MapCase(casemap, raw))) == Scan(es, MapCase(casemap, raw))
      {
        TellsUnterminated(conf, base, es, raws, raw);
        FetchIsScanOfReadable(s, conf, base, es, ds, MapCase(casemap, raw));
      }
    } else {
      WrongAnswer(sep, casemap, raws, raw);
    }
  }
}
