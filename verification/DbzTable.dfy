/** The table of dbz.c as a mathematical object: an unbounded sequence of slots, probed in
    runs of MAXRUN that spill from one table into the next, standing for the list of the
    pairs stored in it. */
module DbzTable {
  import opened Bits
  import opened Bytes
  import opened DbzTag
  import opened DbzHash
  import opened DbzCase

  const MAXRUN: nat := 100

  datatype Conf = Conf(tsize: nat, fieldsep: Byte, casemap: Byte, tags: Tags) {
    ghost predicate Valid() {
      tsize >= 1 && tags.WellFormed()
    }

    /** The tag a key's hash gives it. */
    function TagOf(h: nat): int
      requires tsize >= 1
    {
      tags.MakeTag(h / tsize)
    }
  }

  // ---- slots --------------------------------------------------------------

  /** A slot of the file; everything never written reads as vacant. */
  function At(s: seq<int>, p: nat): int {
    if p < |s| then s[p] else VACANT
  }

  /** Writing a slot, past the end if need be: the hole in between reads as vacant. */
  function Write(s: seq<int>, p: nat, w: int): (t: seq<int>)
    ensures forall q: nat :: At(t, q) == if q == p then w else At(s, q)
  {
    if p < |s| then s[p := w] else s + seq(p - |s|, _ => VACANT) + [w]
  }

  /** The place of the j-th probe for a hash. */
  function Probe(tsize: nat, h: nat, j: nat): nat
    requires tsize >= 1
  {
    (h + j) % tsize + (j / MAXRUN) * tsize
  }

  /** The j-th probe lies in table j / MAXRUN. */
  lemma ProbeTable(tsize: nat, h: nat, j: nat)
    requires tsize >= 1
    ensures j / MAXRUN * tsize <= Probe(tsize, h, j) < (j / MAXRUN + 1) * tsize
    ensures Probe(tsize, h, j) >= j / MAXRUN
  {
    var t := j / MAXRUN;
    assert (t + 1) * tsize == t * tsize + tsize;
    assert t * tsize >= t;
  }

  /** The first MAXRUN probes, and no others, lie in the first table. */
  lemma FirstTable(tsize: nat, h: nat, j: nat)
    requires tsize >= 1
    ensures Probe(tsize, h, j) < tsize <==> j < MAXRUN
  {
    ProbeTable(tsize, h, j);
    if j >= MAXRUN {
      assert j / MAXRUN * tsize >= tsize;
    }
  }

  /** Occupied slots are finite, so the probes that meet them are. */
  lemma OccupiedBound(s: seq<int>, tsize: nat, h: nat, j: nat)
    requires tsize >= 1 && At(s, Probe(tsize, h, j)) != VACANT
    ensures j < MAXRUN * (|s| + 1)
  {
    ProbeTable(tsize, h, j);
  }

  /** The first vacant probe at or after the j-th; tables are unbounded, so there is one. */
  function FirstVacant(s: seq<int>, tsize: nat, h: nat, j: nat): (r: nat)
    requires tsize >= 1
    ensures r >= j && At(s, Probe(tsize, h, r)) == VACANT
    ensures forall k :: j <= k < r ==> At(s, Probe(tsize, h, k)) != VACANT
    decreases MAXRUN * (|s| + 1) - j
  {
    ProbeTable(tsize, h, j);
    if At(s, Probe(tsize, h, j)) == VACANT then j else FirstVacant(s, tsize, h, j + 1)
  }

  /** A search resumed where an earlier one stopped ends where a fresh one would. */
  lemma FirstVacantResumed(s: seq<int>, tsize: nat, h: nat, j: nat)
    requires tsize >= 1
    requires forall k :: 0 <= k < j ==> At(s, Probe(tsize, h, k)) != VACANT
    ensures FirstVacant(s, tsize, h, j) == FirstVacant(s, tsize, h, 0)
  {
  }

  // ---- the stored pairs ---------------------------------------------------

  /** A stored pair: the mapped key, and the offset of its text in the base file. */
  datatype Entry = Entry(key: Bytes, value: int)

  function PlaceOf(conf: Conf, e: Entry, depth: nat): nat
    requires conf.tsize >= 1
  {
    Probe(conf.tsize, HashOf(e.key), depth)
  }

  function WordOf(conf: Conf, e: Entry): int
    requires conf.tsize >= 1
  {
    conf.tags.Encode(conf.TagOf(HashOf(e.key)), e.value)
  }

  ghost predicate OkayEntry(conf: Conf, e: Entry) {
    0 <= e.value <= LONG_MAX && conf.tags.Okay(e.value)
  }

  /** Entry i sits at probe ds[i] of its own hash. */
  ghost predicate InPlace(s: seq<int>, conf: Conf, es: seq<Entry>, ds: seq<nat>)
    requires conf.tsize >= 1 && |es| == |ds|
  {
    forall i :: 0 <= i < |es| ==>
      OkayEntry(conf, es[i]) && At(s, PlaceOf(conf, es[i], ds[i])) == WordOf(conf, es[i])
  }

  ghost predicate DistinctPlaces(conf: Conf, es: seq<Entry>, ds: seq<nat>)
    requires conf.tsize >= 1 && |es| == |ds|
  {
    forall i, k :: 0 <= i < k < |es| ==> PlaceOf(conf, es[i], ds[i]) != PlaceOf(conf, es[k], ds[k])
  }

  ghost predicate NothingElse(s: seq<int>, conf: Conf, es: seq<Entry>, ds: seq<nat>)
    requires conf.tsize >= 1 && |es| == |ds|
  {
    forall p: nat :: At(s, p) != VACANT ==> Taken(conf, es, ds, |es|, p)
  }

  /** Every earlier probe of an entry is taken by an older entry. */
  ghost predicate OlderBefore(conf: Conf, es: seq<Entry>, ds: seq<nat>)
    requires conf.tsize >= 1 && |es| == |ds|
  {
    forall i, j :: 0 <= i < |es| && 0 <= j < ds[i] ==>
      Taken(conf, es, ds, i, Probe(conf.tsize, HashOf(es[i].key), j))
  }

  /** The slots stand for the list of stored pairs, the i-th at probe ds[i]. */
  ghost predicate Represents(s: seq<int>, conf: Conf, es: seq<Entry>, ds: seq<nat>)
    requires conf.tsize >= 1
  {
    && |es| == |ds|
    && InPlace(s, conf, es, ds)
    && DistinctPlaces(conf, es, ds)
    && NothingElse(s, conf, es, ds)
    && OlderBefore(conf, es, ds)
  }

  /** One of the first n entries sits at place p. */
  ghost predicate Taken(conf: Conf, es: seq<Entry>, ds: seq<nat>, n: nat, p: nat)
    requires conf.tsize >= 1 && n <= |es| && |es| == |ds|
  {
    exists i :: 0 <= i < n && PlaceOf(conf, es[i], ds[i]) == p
  }

  lemma EmptyRepresents(conf: Conf)
    requires conf.tsize >= 1
    ensures Represents([], conf, [], [])
  {
  }

  /** Only what the slots hold matters. */
  lemma SameSlots(s: seq<int>, t: seq<int>, conf: Conf, es: seq<Entry>, ds: seq<nat>)
    requires conf.tsize >= 1 && Represents(s, conf, es, ds)
    requires forall p: nat :: At(t, p) == At(s, p)
    ensures Represents(t, conf, es, ds)
  {
  }

  /** Every slot taken by an entry holds a word that is not vacant. */
  lemma TakenNotVacant(s: seq<int>, conf: Conf, es: seq<Entry>, ds: seq<nat>, i: nat)
    requires conf.Valid() && Represents(s, conf, es, ds) && i < |es|
    ensures At(s, PlaceOf(conf, es[i], ds[i])) != VACANT
  {
    WordNotVacant(conf, es[i]);
  }

  lemma WordNotVacant(conf: Conf, e: Entry)
    requires conf.Valid() && OkayEntry(conf, e)
    ensures WordOf(conf, e) != VACANT
  {
    var tag := conf.TagOf(HashOf(e.key));
    MakeTagFits(conf.tags, HashOf(e.key) / conf.tsize);
    EncodeDecode(conf.tags, tag, e.value, tag);
  }

  lemma NewPlace(s: seq<int>, conf: Conf, es: seq<Entry>, ds: seq<nat>, e: Entry, d: nat)
    requires conf.Valid() && Represents(s, conf, es, ds)
    requires At(s, PlaceOf(conf, e, d)) == VACANT
    ensures forall i :: 0 <= i < |es| ==> PlaceOf(conf, es[i], ds[i]) != PlaceOf(conf, e, d)
    ensures DistinctPlaces(conf, es + [e], ds + [d])
  {
    forall i | 0 <= i < |es|
      ensures PlaceOf(conf, es[i], ds[i]) != PlaceOf(conf, e, d)
    {
      TakenNotVacant(s, conf, es, ds, i);
    }
  }

  lemma StillNothingElse(s: seq<int>, t: seq<int>, conf: Conf, es: seq<Entry>, ds: seq<nat>, e: Entry, d: nat)
    requires conf.tsize >= 1 && |es| == |ds| && NothingElse(s, conf, es, ds)
    requires forall q: nat :: q != PlaceOf(conf, e, d) ==> At(t, q) == At(s, q)
    ensures NothingElse(t, conf, es + [e], ds + [d])
  {
    forall p: nat | At(t, p) != VACANT
      ensures Taken(conf, es + [e], ds + [d], |es + [e]|, p)
    {
      if p == PlaceOf(conf, e, d) {
        assert PlaceOf(conf, (es + [e])[|es|], (ds + [d])[|es|]) == p;
      } else {
        TakenLonger(conf, es, ds, e, d, |es|, p);
      }
    }
  }

  lemma StillOlderBefore(s: seq<int>, conf: Conf, es: seq<Entry>, ds: seq<nat>, e: Entry, d: nat)
    requires conf.tsize >= 1 && |es| == |ds| && NothingElse(s, conf, es, ds) && OlderBefore(conf, es, ds)
    requires forall j :: 0 <= j < d ==> At(s, Probe(conf.tsize, HashOf(e.key), j)) != VACANT
    ensures OlderBefore(conf, es + [e], ds + [d])
  {
    var es', ds' := es + [e], ds + [d];
    forall i, j | 0 <= i < |es'| && 0 <= j < ds'[i]
      ensures Taken(conf, es', ds', i, Probe(conf.tsize, HashOf(es'[i].key), j))
    {
      TakenLonger(conf, es, ds, e, d, i, Probe(conf.tsize, HashOf(es'[i].key), j));
    }
  }

  /** Storing a pair at the first vacant probe of its hash. */
  lemma InsertRepresents(s: seq<int>, conf: Conf, es: seq<Entry>, ds: seq<nat>, e: Entry)
    requires conf.Valid() && Represents(s, conf, es, ds) && OkayEntry(conf, e)
    ensures var d := FirstVacant(s, conf.tsize, HashOf(e.key), 0);
            Represents(Write(s, PlaceOf(conf, e, d), WordOf(conf, e)), conf, es + [e], ds + [d])
  {
    var d := FirstVacant(s, conf.tsize, HashOf(e.key), 0);
    var t := Write(s, PlaceOf(conf, e, d), WordOf(conf, e));
    NewPlace(s, conf, es, ds, e, d);
    StillNothingElse(s, t, conf, es, ds, e, d);
    StillOlderBefore(s, conf, es, ds, e, d);
  }

  lemma TakenLonger(conf: Conf, es: seq<Entry>, ds: seq<nat>, e: Entry, d: nat, n: nat, p: nat)
    requires conf.tsize >= 1 && n <= |es| && |es| == |ds|
    requires Taken(conf, es, ds, n, p)
    ensures Taken(conf, es + [e], ds + [d], n, p)
  {
    var i :| 0 <= i < n && PlaceOf(conf, es[i], ds[i]) == p;
    assert PlaceOf(conf, (es + [e])[i], (ds + [d])[i]) == p;
  }

  // ---- the one table of a list --------------------------------------------

  /** The slots after storing some pairs one after another in an empty table. */
  function Laid(conf: Conf, es: seq<Entry>): seq<int>
    requires conf.tsize >= 1
    decreases |es|, 0
  {
    if es == [] then []
    else
      var before, last := es[..|es| - 1], es[|es| - 1];
      Write(Laid(conf, before), PlaceOf(conf, last, DepthAfter(conf, before, last)), WordOf(conf, last))
  }

  /** The probe at which a pair is stored after some others. */
  function DepthAfter(conf: Conf, es: seq<Entry>, e: Entry): nat
    requires conf.tsize >= 1
    decreases |es|, 1
  {
    FirstVacant(Laid(conf, es), conf.tsize, HashOf(e.key), 0)
  }

  function DepthsOf(conf: Conf, es: seq<Entry>): seq<nat>
    requires conf.tsize >= 1
  {
    if es == [] then []
    else DepthsOf(conf, es[..|es| - 1]) + [DepthAfter(conf, es[..|es| - 1], es[|es| - 1])]
  }

  /** Two files with the same slots, however far they extend. */
  ghost predicate SameAt(s: seq<int>, t: seq<int>) {
    forall p: nat :: At(s, p) == At(t, p)
  }

  /** Every list of acceptable pairs has a table. */
  lemma {:induction false} LaidRepresents(conf: Conf, es: seq<Entry>)
    requires conf.Valid() && forall i :: 0 <= i < |es| ==> OkayEntry(conf, es[i])
    ensures Represents(Laid(conf, es), conf, es, DepthsOf(conf, es))
  {
    hide Represents, OkayEntry, FirstVacant, PlaceOf, WordOf, Write, HashOf;
    if es == [] {
      EmptyRepresents(conf);
    } else {
      var before, last := es[..|es| - 1], es[|es| - 1];
      LaidRepresents(conf, before);
      InsertRepresents(Laid(conf, before), conf, before, DepthsOf(conf, before), last);
      assert es == before + [last];
    }
  }

  /** And only one: where each pair sits follows from the order of storing alone. */
  lemma {:induction false} SameDepth(s: seq<int>, t: seq<int>, conf: Conf, es: seq<Entry>, ds: seq<nat>, ts: seq<nat>, i: nat)
    requires conf.tsize >= 1 && Represents(s, conf, es, ds) && Represents(t, conf, es, ts)
    requires i < |es|
    ensures ds[i] == ts[i]
    decreases i
  {
    hide Probe, HashOf;
    if ds[i] < ts[i] {
      var k := OlderThere(t, conf, es, ts, i, ds[i]);
      SameDepth(s, t, conf, es, ds, ts, k);
    } else if ts[i] < ds[i] {
      var k := OlderThere(s, conf, es, ds, i, ts[i]);
      SameDepth(s, t, conf, es, ds, ts, k);
    }
  }

  lemma SameTable(s: seq<int>, t: seq<int>, conf: Conf, es: seq<Entry>, ds: seq<nat>, ts: seq<nat>)
    requires conf.tsize >= 1 && Represents(s, conf, es, ds) && Represents(t, conf, es, ts)
    ensures ds == ts && SameAt(s, t)
  {
    hide PlaceOf, WordOf;
    forall i | 0 <= i < |es|
      ensures ds[i] == ts[i]
    {
      SameDepth(s, t, conf, es, ds, ts, i);
    }
    assert ds == ts;
    forall p: nat
      ensures At(s, p) == At(t, p)
    {
      if At(s, p) != VACANT || At(t, p) != VACANT {
        assert Taken(conf, es, ds, |es|, p);
        var i :| 0 <= i < |es| && PlaceOf(conf, es[i], ds[i]) == p;
      }
    }
  }

  /** Where a pair that has just been stored sits. */
  lemma DepthIs(s: seq<int>, conf: Conf, es: seq<Entry>, ds: seq<nat>, e: Entry, j: nat)
    requires conf.Valid() && Represents(s, conf, es + [e], ds + [j])
    ensures j == DepthAfter(conf, es, e)
  {
    var all := es + [e];
    assert all[..|all| - 1] == es;
    OkayOf(s, conf, all, ds + [j]);
    hide Represents, OkayEntry, Laid, DepthAfter;
    LaidRepresents(conf, all);
    SameTable(s, Laid(conf, all), conf, all, ds + [j], DepthsOf(conf, all));
    assert (ds + [j])[|ds + [j]| - 1] == j;
  }

  lemma OkayOf(s: seq<int>, conf: Conf, es: seq<Entry>, ds: seq<nat>)
    requires conf.tsize >= 1 && Represents(s, conf, es, ds)
    ensures forall i :: 0 <= i < |es| ==> OkayEntry(conf, es[i])
  {
  }

  /** A file stands for some pairs exactly when it holds their table. */
  lemma StandsFor(file: seq<int>, conf: Conf, es: seq<Entry>)
    requires conf.Valid() && forall i :: 0 <= i < |es| ==> OkayEntry(conf, es[i])
    ensures (exists ds :: Represents(file, conf, es, ds)) <==> SameAt(file, Laid(conf, es))
  {
    hide Represents, OkayEntry, Laid, DepthsOf;
    LaidRepresents(conf, es);
    if SameAt(file, Laid(conf, es)) {
      SameSlots(Laid(conf, es), file, conf, es, DepthsOf(conf, es));
    }
    if ds :| Represents(file, conf, es, ds) {
      SameTable(file, Laid(conf, es), conf, es, ds, DepthsOf(conf, es));
    }
  }

  // ---- a file that lags behind --------------------------------------------

  /** A file that holds each slot or nothing in its place. */
  ghost predicate LagsBehind(file: seq<int>, slots: seq<int>) {
    forall p: nat :: At(file, p) == VACANT || At(file, p) == At(slots, p)
  }

  /** A word that goes to a vacant slot, but not to the file, is what the file then lacks;
      a word that goes to both changes nothing about what it lacked. */
  lemma StoreLags(file: seq<int>, slots: seq<int>, file': seq<int>, slots': seq<int>, place: nat, word: int, coreOnly: bool)
    requires LagsBehind(file, slots) && At(slots, place) == VACANT && word != VACANT
    requires forall p: nat :: At(slots', p) == if p == place then word else At(slots, p)
    requires forall p: nat :: At(file', p) == if p == place && !coreOnly then word else At(file, p)
    ensures LagsBehind(file', slots')
    ensures SameAt(file', slots') <==> SameAt(file, slots) && !coreOnly
  {
    hide At;
    if coreOnly {
      assert At(file', place) != At(slots', place);
    } else if SameAt(file', slots') {
      forall p: nat
        ensures At(file, p) == At(slots, p)
      {
        assert At(file', p) == At(slots', p);
      }
    }
  }

  // ---- looking a key up ---------------------------------------------------

  /** Whether `fetch` can read as many bytes as the key has at an offset. */
  predicate Readable(base: Bytes, key: Bytes, value: int) {
    0 <= value && value + |key| <= |base|
  }

  /** How `fetch` confirms a candidate: the mapped bytes of the base file against the key.
      A final NUL of the key is not compared; in its place there must be a separator. */
  predicate Confirm(conf: Conf, base: Bytes, key: Bytes, value: int)
    requires key != [] && Readable(base, key, value)
  {
    var buffer := MapCase(conf.casemap, base[value..value + |key|]);
    var last := |key| - 1;
    if key[last] == NUL then
      key[..last] == buffer[..last] && (buffer[last] == conf.fieldsep || buffer[last] == NUL)
    else
      key == buffer
  }

  datatype Outcome = Found(value: int) | Missing | Unreadable

  /** What `fetch` finds from the j-th probe of a hash on. */
  function Lookup(s: seq<int>, conf: Conf, base: Bytes, key: Bytes, h: nat, j: nat): (r: Outcome)
    requires conf.tsize >= 1 && key != []
    decreases MAXRUN * (|s| + 1) - j
  {
    ProbeTable(conf.tsize, h, j);
    match conf.tags.Decode(At(s, Probe(conf.tsize, h, j)), conf.TagOf(h))
    case Vacant => Missing
    case Mismatch => Lookup(s, conf, base, key, h, j + 1)
    case Hit(value) =>
      if !Readable(base, key, value) then Unreadable
      else if Confirm(conf, base, key, value) then Found(value)
      else Lookup(s, conf, base, key, h, j + 1)
  }

  function FetchOutcome(s: seq<int>, conf: Conf, base: Bytes, key: Bytes): Outcome
    requires conf.tsize >= 1 && key != []
  {
    Lookup(s, conf, base, key, HashOf(key), 0)
  }

  /** The plain meaning of `fetch`: the earliest stored pair with the key. */
  function FirstIndex(es: seq<Entry>, key: Bytes): (i: nat)
    ensures i <= |es|
    ensures i < |es| ==> es[i].key == key
    ensures forall k :: 0 <= k < i ==> es[k].key != key
  {
    if es == [] then 0 else if es[0].key == key then 0 else 1 + FirstIndex(es[1..], key)
  }

  function Scan(es: seq<Entry>, key: Bytes): Option<int> {
    var i := FirstIndex(es, key);
    if i < |es| then Some(es[i].value) else None
  }

  /** The base file tells the key apart: the key is confirmed at the offset of the first
      pair stored under it, and at the offset of no older pair. */
  ghost predicate Tells(conf: Conf, base: Bytes, es: seq<Entry>, key: Bytes)
    requires key != []
  {
    forall i :: 0 <= i < |es| && i <= FirstIndex(es, key) ==>
      if es[i].key == key then Readable(base, key, es[i].value) && Confirm(conf, base, key, es[i].value)
      else Readable(base, key, es[i].value) ==> !Confirm(conf, base, key, es[i].value)
  }

  /** A candidate `fetch` would look at: its tag does not rule it out. */
  predicate Candidate(conf: Conf, e: Entry, h: nat)
    requires conf.tsize >= 1
  {
    conf.tags.Decode(WordOf(conf, e), conf.TagOf(h)) == Hit(e.value)
  }

  /** What a probe meets: nothing, or one of the entries. */
  lemma ProbeMeets(s: seq<int>, conf: Conf, es: seq<Entry>, ds: seq<nat>, h: nat, j: nat) returns (i: nat)
    requires conf.Valid() && Represents(s, conf, es, ds)
    requires At(s, Probe(conf.tsize, h, j)) != VACANT
    ensures i < |es| && PlaceOf(conf, es[i], ds[i]) == Probe(conf.tsize, h, j)
    ensures At(s, Probe(conf.tsize, h, j)) == WordOf(conf, es[i])
    ensures conf.tags.Decode(WordOf(conf, es[i]), conf.TagOf(h)) ==
            if Candidate(conf, es[i], h) then Hit(es[i].value) else Mismatch
  {
    var p := Probe(conf.tsize, h, j);
    assert Taken(conf, es, ds, |es|, p);
    i :| 0 <= i < |es| && PlaceOf(conf, es[i], ds[i]) == p;
    DecodeEntry(conf, es[i], h);
  }

  lemma DecodeEntry(conf: Conf, e: Entry, h: nat)
    requires conf.Valid() && OkayEntry(conf, e)
    ensures WordOf(conf, e) != VACANT
    ensures conf.tags.Decode(WordOf(conf, e), conf.TagOf(h)) ==
            if Candidate(conf, e, h) then Hit(e.value) else Mismatch
    ensures conf.TagOf(HashOf(e.key)) == conf.TagOf(h) ==> Candidate(conf, e, h)
  {
    MakeTagFits(conf.tags, HashOf(e.key) / conf.tsize);
    EncodeDecode(conf.tags, conf.TagOf(HashOf(e.key)), e.value, conf.TagOf(h));
  }

  /** What the k-th probe for a key shows can be read, if it is a candidate at all. */
  predicate ProbeReadable(s: seq<int>, conf: Conf, base: Bytes, key: Bytes, k: nat)
    requires conf.tsize >= 1
  {
    match conf.tags.Decode(At(s, Probe(conf.tsize, HashOf(key), k)), conf.TagOf(HashOf(key)))
    case Hit(value) => Readable(base, key, value)
    case _ => true
  }

  /** Every candidate met at the probes j..d for the key can be read. */
  ghost predicate PathReadable(s: seq<int>, conf: Conf, base: Bytes, key: Bytes, j: nat, d: nat)
    requires conf.tsize >= 1
  {
    forall k :: j <= k < d ==> ProbeReadable(s, conf, base, key, k)
  }

  lemma PathSplit(s: seq<int>, conf: Conf, base: Bytes, key: Bytes, j: nat, d: nat)
    requires conf.tsize >= 1 && j < d
    ensures PathReadable(s, conf, base, key, j, d) <==>
            ProbeReadable(s, conf, base, key, j) && PathReadable(s, conf, base, key, j + 1, d)
  {
  }

  /** A probe that meets a pair under another key passes on, unless it is a candidate that
      cannot be read. */
  lemma StepOver(s: seq<int>, conf: Conf, base: Bytes, es: seq<Entry>, ds: seq<nat>, key: Bytes, j: nat, i: nat)
    requires conf.Valid() && Represents(s, conf, es, ds) && key != [] && Tells(conf, base, es, key)
    requires i < FirstIndex(es, key) && PlaceOf(conf, es[i], ds[i]) == Probe(conf.tsize, HashOf(key), j)
    ensures Lookup(s, conf, base, key, HashOf(key), j) ==
            if ProbeReadable(s, conf, base, key, j) then Lookup(s, conf, base, key, HashOf(key), j + 1) else Unreadable
  {
    DecodeEntry(conf, es[i], HashOf(key));
  }

  lemma StepOnto(s: seq<int>, conf: Conf, base: Bytes, es: seq<Entry>, ds: seq<nat>, key: Bytes, i: nat)
    requires conf.Valid() && Represents(s, conf, es, ds) && key != [] && Tells(conf, base, es, key)
    requires i == FirstIndex(es, key) < |es|
    ensures Lookup(s, conf, base, key, HashOf(key), ds[i]) == Found(es[i].value)
  {
    assert PlaceOf(conf, es[i], ds[i]) == Probe(conf.tsize, HashOf(key), ds[i]);
    DecodeEntry(conf, es[i], HashOf(key));
  }

  /** Only older pairs lie on the way to an entry. */
  lemma OlderThere(s: seq<int>, conf: Conf, es: seq<Entry>, ds: seq<nat>, i0: nat, j: nat) returns (i: nat)
    requires conf.tsize >= 1 && Represents(s, conf, es, ds) && i0 < |es| && j < ds[i0]
    ensures i < i0 && PlaceOf(conf, es[i], ds[i]) == Probe(conf.tsize, HashOf(es[i0].key), j)
  {
    assert Taken(conf, es, ds, i0, Probe(conf.tsize, HashOf(es[i0].key), j));
    i :| 0 <= i < i0 && PlaceOf(conf, es[i], ds[i]) == Probe(conf.tsize, HashOf(es[i0].key), j);
  }

  /** A key that is stored is found at its earliest pair exactly when every candidate on
      the way to it can be read; otherwise the fetch stops short of it. */
  lemma {:induction false} LookupStored(s: seq<int>, conf: Conf, base: Bytes, es: seq<Entry>, ds: seq<nat>, key: Bytes, j: nat)
    requires conf.Valid() && Represents(s, conf, es, ds) && key != [] && Tells(conf, base, es, key)
    requires FirstIndex(es, key) < |es| && j <= ds[FirstIndex(es, key)]
    ensures var i0 := FirstIndex(es, key);
            Lookup(s, conf, base, key, HashOf(key), j) ==
            if PathReadable(s, conf, base, key, j, ds[i0]) then Found(es[i0].value) else Unreadable
    decreases ds[FirstIndex(es, key)] - j
  {
    hide Lookup, HashOf, ProbeReadable, InPlace, DistinctPlaces, NothingElse, OlderBefore, Tells, Confirm, Probe, At;
    var i0 := FirstIndex(es, key);
    if j == ds[i0] {
      StepOnto(s, conf, base, es, ds, key, i0);
    } else {
      var i := OlderThere(s, conf, es, ds, i0, j);
      PathSplit(s, conf, base, key, j, ds[i0]);
      StepOver(s, conf, base, es, ds, key, j, i);
      LookupStored(s, conf, base, es, ds, key, j + 1);
    }
  }

  /** A key that is not stored is never found. */
  lemma {:induction false} LookupAbsent(s: seq<int>, conf: Conf, base: Bytes, es: seq<Entry>, ds: seq<nat>, key: Bytes, j: nat)
    requires conf.Valid() && Represents(s, conf, es, ds) && key != [] && Tells(conf, base, es, key)
    requires forall k :: 0 <= k < |es| ==> es[k].key != key
    ensures !Lookup(s, conf, base, key, HashOf(key), j).Found?
    decreases MAXRUN * (|s| + 1) - j
  {
    ProbeTable(conf.tsize, HashOf(key), j);
    if At(s, Probe(conf.tsize, HashOf(key), j)) != VACANT {
      var i := ProbeMeets(s, conf, es, ds, HashOf(key), j);
      LookupAbsent(s, conf, base, es, ds, key, j + 1);
    }
  }

  /** `fetch` against the plain scan of the stored pairs: nothing is found that was not
      stored, and a stored key is found, at its earliest offset, exactly when no candidate
      on its probe path runs past the end of the base file. */
  lemma FetchIsScan(s: seq<int>, conf: Conf, base: Bytes, es: seq<Entry>, ds: seq<nat>, key: Bytes)
    requires conf.Valid() && Represents(s, conf, es, ds) && key != [] && Tells(conf, base, es, key)
    ensures Scan(es, key) == None ==> !FetchOutcome(s, conf, base, key).Found?
    ensures Scan(es, key).Some? ==>
              FetchOutcome(s, conf, base, key) ==
              if PathReadable(s, conf, base, key, 0, ds[FirstIndex(es, key)])
              then Found(Scan(es, key).value) else Unreadable
  {
    var i0 := FirstIndex(es, key);
    if i0 < |es| {
      LookupStored(s, conf, base, es, ds, key, 0);
    } else {
      LookupAbsent(s, conf, base, es, ds, key, 0);
    }
  }

  /** Only pairs older than the key's own can lie on its probe path, so it is enough that
      those can be read; a base file that only grows, indexed in order, is always such. */
  lemma OlderReadable(s: seq<int>, conf: Conf, base: Bytes, es: seq<Entry>, ds: seq<nat>, key: Bytes)
    requires conf.Valid() && Represents(s, conf, es, ds) && FirstIndex(es, key) < |es|
    requires forall i :: 0 <= i < FirstIndex(es, key) ==> Readable(base, key, es[i].value)
    ensures PathReadable(s, conf, base, key, 0, ds[FirstIndex(es, key)])
  {
    var i0 := FirstIndex(es, key);
    forall k | 0 <= k < ds[i0]
      ensures ProbeReadable(s, conf, base, key, k)
    {
      var i := OlderThere(s, conf, es, ds, i0, k);
      DecodeEntry(conf, es[i], HashOf(key));
    }
  }

  /** The whole of `fetch` when the older pairs can be read. */
  lemma FetchIsScanOfReadable(s: seq<int>, conf: Conf, base: Bytes, es: seq<Entry>, ds: seq<nat>, key: Bytes)
    requires conf.Valid() && Represents(s, conf, es, ds) && key != [] && Tells(conf, base, es, key)
    requires forall i :: 0 <= i < FirstIndex(es, key) < |es| ==> Readable(base, key, es[i].value)
    ensures var r := FetchOutcome(s, conf, base, key);
            Scan(es, key) == if r.Found? then Some(r.value) else None
  {
    FetchIsScan(s, conf, base, es, ds, key);
    if FirstIndex(es, key) < |es| {
      OlderReadable(s, conf, base, es, ds, key);
    }
  }

  /** Every candidate of a table that stands for stored pairs is an offset. */
  lemma HitIsOffset(s: seq<int>, conf: Conf, es: seq<Entry>, ds: seq<nat>, h: nat, j: nat)
    requires conf.Valid() && Represents(s, conf, es, ds)
    requires conf.tags.Decode(At(s, Probe(conf.tsize, h, j)), conf.TagOf(h)).Hit?
    ensures 0 <= conf.tags.Decode(At(s, Probe(conf.tsize, h, j)), conf.TagOf(h)).value <= LONG_MAX
  {
    var i := ProbeMeets(s, conf, es, ds, h, j);
  }

  /** Probes under another tag are passed over. */
  lemma {:induction false} LookupSkips(s: seq<int>, conf: Conf, base: Bytes, key: Bytes, h: nat, a: nat, b: nat)
    requires conf.tsize >= 1 && key != [] && a <= b
    requires forall j :: a <= j < b ==> conf.tags.Decode(At(s, Probe(conf.tsize, h, j)), conf.TagOf(h)) == Mismatch
    ensures Lookup(s, conf, base, key, h, a) == Lookup(s, conf, base, key, h, b)
    decreases b - a
  {
    if a < b {
      LookupSkips(s, conf, base, key, h, a + 1, b);
    }
  }

  /** One step of `fetch` at a candidate. */
  lemma LookupStep(s: seq<int>, conf: Conf, base: Bytes, key: Bytes, h: nat, j: nat)
    requires conf.tsize >= 1 && key != []
    ensures var d := conf.tags.Decode(At(s, Probe(conf.tsize, h, j)), conf.TagOf(h));
            Lookup(s, conf, base, key, h, j) ==
            if d.Vacant? then Missing
            else if d.Mismatch? then Lookup(s, conf, base, key, h, j + 1)
            else if !Readable(base, key, d.value) then Unreadable
            else if Confirm(conf, base, key, d.value) then Found(d.value)
            else Lookup(s, conf, base, key, h, j + 1)
  {
  }

  /** Where a search stands after returning `r` from the j-th probe: everything before was
      taken and is passed over by the lookup; here is a vacant slot, or a candidate. */
  ghost predicate Standing(s: seq<int>, conf: Conf, base: Bytes, key: Bytes, h: nat, j: nat, r: int)
    requires conf.tsize >= 1 && key != []
  {
    && (forall k :: 0 <= k < j ==> At(s, Probe(conf.tsize, h, k)) != VACANT)
    && Lookup(s, conf, base, key, h, j) == Lookup(s, conf, base, key, h, 0)
    && Shows(s, conf, h, j, r)
  }

  ghost predicate Shows(s: seq<int>, conf: Conf, h: nat, j: nat, r: int)
    requires conf.tsize >= 1
  {
    match conf.tags.Decode(At(s, Probe(conf.tsize, h, j)), conf.TagOf(h))
    case Vacant => r == NOTFOUND
    case Hit(value) => r == value
    case Mismatch => false
  }

  ghost predicate AllMismatch(s: seq<int>, conf: Conf, h: nat, a: nat, b: nat)
    requires conf.tsize >= 1
  {
    forall j :: a <= j < b ==> conf.tags.Decode(At(s, Probe(conf.tsize, h, j)), conf.TagOf(h)) == Mismatch
  }

  lemma MismatchNone(s: seq<int>, conf: Conf, h: nat, a: nat)
    requires conf.tsize >= 1
    ensures AllMismatch(s, conf, h, a, a)
  {
  }

  lemma MismatchNext(s: seq<int>, conf: Conf, h: nat, a: nat, j: nat)
    requires conf.tsize >= 1 && a <= j && AllMismatch(s, conf, h, a, j)
    requires conf.tags.Decode(At(s, Probe(conf.tsize, h, j)), conf.TagOf(h)) == Mismatch
    ensures AllMismatch(s, conf, h, a, j + 1)
  {
  }

  lemma StandsFirst(s: seq<int>, conf: Conf, base: Bytes, key: Bytes, h: nat, j: nat, r: int)
    requires conf.tsize >= 1 && key != [] && AllMismatch(s, conf, h, 0, j) && Shows(s, conf, h, j, r)
    ensures Standing(s, conf, base, key, h, j, r)
  {
    hide Lookup;
    LookupSkips(s, conf, base, key, h, 0, j);
  }

  /** A candidate that is readable but not confirmed sends the search on. */
  lemma StandsNext(s: seq<int>, conf: Conf, base: Bytes, key: Bytes, h: nat, i: nat, v: int, j: nat, r: int)
    requires conf.tsize >= 1 && key != [] && Standing(s, conf, base, key, h, i, v) && i < j
    requires At(s, Probe(conf.tsize, h, i)) != VACANT && Readable(base, key, v) && !Confirm(conf, base, key, v)
    requires AllMismatch(s, conf, h, i + 1, j) && Shows(s, conf, h, j, r)
    ensures Standing(s, conf, base, key, h, j, r)
  {
    LookupStep(s, conf, base, key, h, i);
    hide Lookup, Confirm;
    LookupSkips(s, conf, base, key, h, i + 1, j);
  }

  lemma StandsBehind(s: seq<int>, conf: Conf, base: Bytes, key: Bytes, h: nat, j: nat, r: int)
    requires conf.tsize >= 1 && key != [] && Standing(s, conf, base, key, h, j, r)
    ensures forall k :: 0 <= k < j ==> At(s, Probe(conf.tsize, h, k)) != VACANT
  {
  }

  /** What the lookup comes to where a search stands. */
  lemma StandsAt(s: seq<int>, conf: Conf, base: Bytes, es: seq<Entry>, ds: seq<nat>, key: Bytes, h: nat, j: nat, r: int)
    requires conf.Valid() && key != [] && Represents(s, conf, es, ds) && Standing(s, conf, base, key, h, j, r)
    ensures r == NOTFOUND <==> At(s, Probe(conf.tsize, h, j)) == VACANT
    ensures r == NOTFOUND ==> Lookup(s, conf, base, key, h, 0) == Missing
    ensures r != NOTFOUND ==> 0 <= r <= LONG_MAX && j < MAXRUN * (|s| + 1)
    ensures r != NOTFOUND && !Readable(base, key, r) ==> Lookup(s, conf, base, key, h, 0) == Unreadable
    ensures r != NOTFOUND && Readable(base, key, r) && Confirm(conf, base, key, r) ==>
              Lookup(s, conf, base, key, h, 0) == Found(r)
  {
    LookupStep(s, conf, base, key, h, j);
    hide Lookup, Confirm, Represents, Probe, At, Readable;
    if conf.tags.Decode(At(s, Probe(conf.tsize, h, j)), conf.TagOf(h)).Hit? {
      HitIsOffset(s, conf, es, ds, h, j);
      OccupiedBound(s, conf.tsize, h, j);
    }
  }

  /** Where a store's search stands: every earlier probe is taken. */
  ghost predicate Waiting(s: seq<int>, conf: Conf, h: nat, j: nat, r: int)
    requires conf.tsize >= 1
  {
    (forall k :: 0 <= k < j ==> At(s, Probe(conf.tsize, h, k)) != VACANT) && Shows(s, conf, h, j, r)
  }

  lemma WaitsNext(s: seq<int>, conf: Conf, h: nat, i: nat, j: nat, r: int)
    requires conf.tsize >= 1 && i <= j
    requires forall k :: 0 <= k < i ==> At(s, Probe(conf.tsize, h, k)) != VACANT
    requires AllMismatch(s, conf, h, i, j) && Shows(s, conf, h, j, r)
    ensures Waiting(s, conf, h, j, r)
  {
  }

  /** A search that found nothing more stands at the first vacant probe of its hash. */
  lemma WaitsAt(s: seq<int>, conf: Conf, es: seq<Entry>, ds: seq<nat>, h: nat, j: nat, r: int)
    requires conf.Valid() && Represents(s, conf, es, ds) && Waiting(s, conf, h, j, r)
    ensures r != NOTFOUND ==> At(s, Probe(conf.tsize, h, j)) != VACANT && j < MAXRUN * (|s| + 1)
    ensures r == NOTFOUND ==> j == FirstVacant(s, conf.tsize, h, 0)
  {
    if conf.tags.Decode(At(s, Probe(conf.tsize, h, j)), conf.TagOf(h)).Hit? {
      HitIsOffset(s, conf, es, ds, h, j);
      OccupiedBound(s, conf.tsize, h, j);
    } else {
      FirstVacantResumed(s, conf.tsize, h, j);
    }
  }

  /** The table after a store. */
  lemma StoredAt(s: seq<int>, t: seq<int>, conf: Conf, es: seq<Entry>, ds: seq<nat>, e: Entry, j: nat)
    requires conf.Valid() && Represents(s, conf, es, ds) && OkayEntry(conf, e)
    requires j == FirstVacant(s, conf.tsize, HashOf(e.key), 0)
    requires forall p: nat :: At(t, p) == if p == PlaceOf(conf, e, j) then WordOf(conf, e) else At(s, p)
    ensures Represents(t, conf, es + [e], ds + [j])
  {
    InsertRepresents(s, conf, es, ds, e);
    SameSlots(Write(s, PlaceOf(conf, e, j), WordOf(conf, e)), t, conf, es + [e], ds + [j]);
  }

  /** Whatever a lookup finds is the offset of a stored pair, and confirmed there. */
  lemma {:induction false} FoundIsEntry(s: seq<int>, conf: Conf, base: Bytes, es: seq<Entry>, ds: seq<nat>, key: Bytes, h: nat, j: nat) returns (i: nat)
    requires conf.Valid() && Represents(s, conf, es, ds) && key != []
    requires Lookup(s, conf, base, key, h, j).Found?
    ensures i < |es| && es[i].value == Lookup(s, conf, base, key, h, j).value
    decreases MAXRUN * (|s| + 1) - j
  {
    hide Lookup, Represents, Confirm, Probe, WordOf, Candidate;
    LookupStep(s, conf, base, key, h, j);
    OccupiedBound(s, conf.tsize, h, j);
    i := ProbeMeets(s, conf, es, ds, h, j);
    if Lookup(s, conf, base, key, h, j) == Lookup(s, conf, base, key, h, j + 1) {
      i := FoundIsEntry(s, conf, base, es, ds, key, h, j + 1);
    }
  }
}
