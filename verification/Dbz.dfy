/** An open dbz database (dbz.c): the .pag file read through a stream that skips seeks it
    believes unnecessary, an optional in-core copy of the first table, and a search state
    that a failed fetch leaves for the next store. */
module Dbz {
  import opened Arith
  import opened Bits
  import opened Bytes
  import opened DbzTag
  import opened DbzHash
  import opened DbzCase
  import opened DbzTable

  /** Bytes in an of_t. */
  const SOF: nat := 8
  const DBZMAXKEY: nat := 255

  /** The base file: text that dbz reads and its owner appends to. */
  class TextFile {
    var bytes: Bytes

    constructor ()
      ensures bytes == []
    {
      bytes := [];
    }
  }

  datatype Searcher = Searcher(place: nat, tabno: nat, run: int, hash: nat, tag: int, seen: bool)

  /** One step of a search: the next slot of the run, wrapping within its table, or the
      matching slot of the next table when the run is over. */
  lemma ProbeNext(tsize: nat, h: nat, j: nat)
    requires tsize >= 1
    ensures Probe(tsize, h, j + 1) == (Probe(tsize, h, j) + 1) % tsize + (j + 1) / MAXRUN * tsize
  {
    ModAddMultiple((h + j) % tsize + 1, j / MAXRUN, tsize);
    ModNext(h + j, tsize);
  }

  lemma RunNext(j: nat)
    ensures (j + 1) / MAXRUN == if j % MAXRUN == MAXRUN - 1 then j / MAXRUN + 1 else j / MAXRUN
    ensures (j + 1) % MAXRUN == if j % MAXRUN == MAXRUN - 1 then 0 else j % MAXRUN + 1
  {
  }

  /** The first tsize slots of a table kept apart from the rest of its file. */
  function Overlay(core: seq<int>, file: seq<int>): seq<int> {
    core + (if |file| > |core| then file[|core|..] else [])
  }

  lemma OverlayAt(core: seq<int>, file: seq<int>, p: nat)
    ensures At(Overlay(core, file), p) == if p < |core| then core[p] else At(file, p)
  {
  }

  class Database {
    const conf: Conf
    const basef: TextFile
    /** Entries stored today, kept in the configuration. */
    var used: int

    /** The words of the .pag file, and the byte position of its stream. */
    var pag: seq<int>
    var fpos: nat
    /** Where the code believes the stream is; -1 when it does not know. */
    var pagpos: int

    var corepag: array?<int>
    var writethrough: bool
    var written: bool

    var srch: Searcher
    /** Whether `srch` holds a failed fetch to resume (FRESH otherwise). */
    var prevp: bool

    /** The number of the probe `srch` stands at. */
    ghost var probe: nat
    /** The stored pairs, oldest first, and the probe each was stored at. */
    ghost var entries: seq<Entry>
    ghost var depths: seq<nat>

    /** The slots as every search sees them. */
    ghost function Slots(): seq<int>
      reads `pag, `corepag, corepag
    {
      if corepag == null then pag else Overlay(corepag[..], pag)
    }

    /** The file alone holds the same slots. */
    ghost predicate FileCurrent()
      reads `pag, `corepag, corepag
    {
      SameAt(pag, Slots())
    }

    ghost predicate Shape()
      reads `corepag
    {
      conf.Valid() && (corepag != null ==> corepag.Length == conf.tsize)
    }

    /** The believed position is right, or unknown, or both it and the true position are at
        or past the end of the file, where every read gives a vacant slot. */
    ghost predicate PositionOk()
      reads `fpos, `pagpos, `pag, `corepag
    {
      && fpos % SOF == 0
      && (pagpos == -1
          || (0 <= pagpos && pagpos % SOF == 0 &&
              (pagpos == fpos || (pagpos >= SOF * |pag| && fpos >= SOF * |pag|)) &&
              (corepag != null ==> pagpos >= SOF * conf.tsize && fpos >= SOF * conf.tsize)))
    }

    ghost predicate SearchOk()
      requires conf.tsize >= 1
      reads `srch, `probe
    {
      && srch.place == Probe(conf.tsize, srch.hash, probe)
      && srch.tabno == probe / MAXRUN
      && srch.run == MAXRUN - probe % MAXRUN
      && srch.tag == conf.TagOf(srch.hash)
    }

    /** A remembered search stands where every earlier probe of its hash is taken. */
    ghost predicate ResumeOk()
      requires conf.tsize >= 1
      reads `prevp, `srch, `probe, `pag, `corepag, corepag
    {
      prevp ==> SearchOk() && forall j :: 0 <= j < probe ==> At(Slots(), Probe(conf.tsize, srch.hash, j)) != VACANT
    }

    /** Whether a store at a probe would go to the in-core table alone: the first MAXRUN
        probes lie in the first table. */
    ghost predicate CoreOnly(depth: nat)
      reads `corepag, `writethrough
    {
      corepag != null && !writethrough && depth < MAXRUN
    }

    ghost predicate Valid()
      reads this, corepag
    {
      Shape() && LagsBehind(pag, Slots()) && Represents(Slots(), conf, entries, depths) && PositionOk() && ResumeOk()
    }

    /** getcore: the first table of a file, padded with vacant slots. */
    static method GetCore(file: seq<int>, tsize: nat) returns (core: array<int>)
      ensures fresh(core) && core.Length == tsize
      ensures forall p :: 0 <= p < tsize ==> core[p] == At(file, p)
    {
      core := new int[tsize];
      var nread := if |file| < tsize then |file| else tsize;
      for i := 0 to nread
        invariant forall p :: 0 <= p < i ==> core[p] == file[p]
      {
        core[i] := file[i];
      }
      for i := nread to tsize
        invariant forall p :: 0 <= p < i ==> core[p] == At(file, p)
      {
        core[i] := VACANT;
      }
    }

    /** dbminit: open the database kept in a file that stands for some stored pairs. */
    constructor (conf: Conf, basef: TextFile, used: int, file: seq<int>, incore: bool, writethrough: bool,
                 ghost es: seq<Entry>, ghost ds: seq<nat>)
      requires conf.Valid() && Represents(file, conf, es, ds)
      ensures Valid() && entries == es && depths == ds && FileCurrent()
      ensures this.conf == conf && this.basef == basef && this.used == used && this.writethrough == writethrough
      ensures (corepag != null ==> fresh(corepag)) && (corepag != null <==> incore) && pag == file
      ensures !written && !prevp
      ensures forall p: nat :: At(Slots(), p) == At(file, p)
    {
      this.conf, this.basef, this.used := conf, basef, used;
      this.pag, this.fpos, this.pagpos := file, 0, -1;
      this.writethrough, this.written := writethrough, false;
      this.srch, this.prevp := Searcher(0, 0, 0, 0, 0, false), false;
      this.probe, this.entries, this.depths := 0, es, ds;
      this.corepag := null;
      new;
      if incore {
        corepag := GetCore(file, conf.tsize);
        forall p: nat
          ensures At(Slots(), p) == At(file, p)
        {
          OverlayAt(corepag[..], file, p);
        }
      }
      SameSlots(file, Slots(), conf, es, ds);
    }

    /** start: begin a search, or resume the remembered one when the hash is the same. */
    method Start(key: Bytes, resume: bool)
      requires Shape() && (resume ==> prevp) && ResumeOk()
      modifies this`srch, this`probe
      ensures SearchOk() && !srch.seen && srch.hash == HashOf(key)
      ensures forall j :: 0 <= j < probe ==> At(Slots(), Probe(conf.tsize, srch.hash, j)) != VACANT
      ensures !resume ==> probe == 0
    {
      var h := HashOf(key);
      if resume && srch.hash == h {
        srch := srch.(seen := false);
      } else {
        srch := Searcher(h % conf.tsize, 0, MAXRUN, h, conf.TagOf(h), false);
        probe := 0;
      }
    }

    /** The read of one slot inside `search`. */
    method ReadSlot(place: nat) returns (value: int)
      requires Shape() && PositionOk()
      modifies this`fpos, this`pagpos
      ensures PositionOk() && value == At(Slots(), place)
    {
      if corepag != null && place < conf.tsize {
        value := corepag[place];
      } else {
        var dest := place * SOF;
        if pagpos != dest {
          fpos := dest;
          pagpos := dest;
        }
        if fpos / SOF < |pag| {
          value := pag[fpos / SOF];
          fpos := fpos + SOF;
        } else {
          value := VACANT;
        }
        pagpos := pagpos + SOF;
      }
      if corepag != null {
        OverlayAt(corepag[..], pag, place);
      }
    }

    /** The probe a call of `search` looks at first. */
    ghost function FirstLook(): nat
      reads this
    {
      if srch.seen then probe + 1 else probe
    }

    /** search: on to the next slot that is vacant or may hold the key. */
    method Search() returns (r: int)
      requires Shape() && PositionOk() && SearchOk()
      modifies this`srch, this`probe, this`fpos, this`pagpos
      ensures PositionOk() && SearchOk() && srch.seen && srch.hash == old(srch.hash)
      ensures probe >= old(FirstLook())
      ensures AllMismatch(Slots(), conf, srch.hash, old(FirstLook()), probe)
      ensures Shows(Slots(), conf, srch.hash, probe, r)
    {
      hide AllMismatch, Probe, At;
      ghost var first := FirstLook();
      ghost var bound := MAXRUN * (|Slots()| + 2);
      MismatchNone(Slots(), conf, srch.hash, first);
      while true
        invariant PositionOk() && SearchOk() && srch.hash == old(srch.hash)
        invariant first <= FirstLook()
        invariant AllMismatch(Slots(), conf, srch.hash, first, FirstLook())
        decreases bound - FirstLook()
      {
        ghost var here := FirstLook();
        if srch.seen {
          Advance();
        } else {
          srch := srch.(seen := true);
        }
        ProbeTable(conf.tsize, srch.hash, probe);
        var value := ReadSlot(srch.place);
        if value == VACANT {
          return NOTFOUND;
        }
        value := Unbias(value);
        if And(value, conf.tags.here) == 0 {
          return value;
        } else if And(value, conf.tags.bits) == srch.tag {
          return And(value, Not(Or(conf.tags.bits, conf.tags.here)));
        }
        MismatchNext(Slots(), conf, srch.hash, first, here);
        OccupiedBound(Slots(), conf.tsize, srch.hash, here);
      }
    }

    /** The step of `search` to the next slot. */
    method Advance()
      requires Shape() && SearchOk()
      modifies this`srch, this`probe
      ensures SearchOk() && probe == old(probe) + 1 && srch.hash == old(srch.hash) && srch.seen == old(srch.seen)
    {
      ProbeNext(conf.tsize, srch.hash, probe);
      RunNext(probe);
      hide Probe;
      var run, tabno := srch.run - 1, srch.tabno;
      if run <= 0 {
        tabno := tabno + 1;
        run := MAXRUN;
      }
      assert tabno == (probe + 1) / MAXRUN;
      srch := srch.(run := run, tabno := tabno, place := (srch.place + 1) % conf.tsize + tabno * conf.tsize);
      probe := probe + 1;
    }

    /** set: store a value at the slot a search stopped at. */
    method Set(value: int)
      requires Shape() && PositionOk() && SearchOk()
      modifies this`pag, this`fpos, this`pagpos, corepag
      ensures PositionOk()
      ensures forall p: nat :: At(Slots(), p) ==
                if p == srch.place then conf.tags.Encode(srch.tag, value) else old(At(Slots(), p))
      ensures var coreOnly := corepag != null && srch.place < conf.tsize && !writethrough;
              forall p: nat :: At(pag, p) ==
                if p == srch.place && !coreOnly then conf.tags.Encode(srch.tag, value) else old(At(pag, p))
    {
      hide And, Or, Not, Bias, Unbias, Probe, HashOf, MapCase, At, Overlay, Write, Tags.Encode;
      ghost var core, file := if corepag == null then [] else corepag[..], pag;
      var place := srch.place;
      var word := conf.tags.Encode(srch.tag, value);
      if corepag != null && place < conf.tsize {
        corepag[place] := word;
        assert corepag[..] == core[place := word];
        if !writethrough {
          CoreWritten(core, file, place, word);
          return;
        }
      }
      WriteSlot(place, word);
      FileWritten([], [], file, place, word);
      if corepag != null {
        FileWritten(core, corepag[..], file, place, word);
      }
    }

    /** The write to the file inside `set`. */
    method WriteSlot(place: nat, word: int)
      requires Shape()
      modifies this`pag, this`fpos, this`pagpos
      ensures PositionOk() && pag == Write(old(pag), place, word)
    {
      pagpos := -1;
      fpos := place * SOF;
      pag := Write(pag, fpos / SOF, word);
      fpos := fpos + SOF;
    }

    lemma CoreWritten(core: seq<int>, file: seq<int>, place: nat, word: int)
      requires place < |core|
      ensures forall p: nat :: At(Overlay(core[place := word], file), p) ==
                if p == place then word else At(Overlay(core, file), p)
    {
      forall p: nat
        ensures At(Overlay(core[place := word], file), p) == if p == place then word else At(Overlay(core, file), p)
      {
        OverlayAt(core, file, p);
        OverlayAt(core[place := word], file, p);
      }
    }

    lemma FileWritten(core: seq<int>, core': seq<int>, file: seq<int>, place: nat, word: int)
      requires core' == if place < |core| then core[place := word] else core
      ensures forall p: nat :: At(Overlay(core', Write(file, place, word)), p) ==
                if p == place then word else At(Overlay(core, file), p)
      ensures forall p: nat :: At(Write(file, place, word), p) == if p == place then word else At(file, p)
    {
      forall p: nat
        ensures At(Overlay(core', Write(file, place, word)), p) ==
                if p == place then word else At(Overlay(core, file), p)
      {
        OverlayAt(core, file, p);
        OverlayAt(core', Write(file, place, word), p);
      }
    }

    /** The part of a key that `fetch` compares. */
    static function Cut(key: Bytes): Bytes {
      if |key| >= DBZMAXKEY then key[..DBZMAXKEY] else key
    }

    /** What a fetch of a mapped key comes to in the present state. */
    ghost function Outcome(key: Bytes): Outcome
      requires Shape() && key != []
      reads `pag, `corepag, corepag, basef
    {
      Lookup(Slots(), conf, basef.bytes, Cut(key), HashOf(key), 0)
    }

    /** The comparison inside `fetch`. */
    method Matches(wanted: Bytes, keyPtr: int) returns (found: bool)
      requires wanted != [] && Readable(basef.bytes, wanted, keyPtr)
      ensures found == Confirm(conf, basef.bytes, wanted, keyPtr)
    {
      var buffer := MapCase(conf.casemap, basef.bytes[keyPtr..keyPtr + |wanted|]);
      var cmplen, sep := |wanted|, conf.fieldsep;
      if wanted[|wanted| - 1] == NUL {
        cmplen := |wanted| - 1;
        sep := buffer[|wanted| - 1];
      }
      found := wanted[..cmplen] == buffer[..cmplen] && (sep == conf.fieldsep || sep == NUL);
    }

    /** fetch: the offset of a key, or none. Only a fetch that ran into a vacant slot leaves
        its search for the next store. */
    method Fetch(key: Bytes) returns (r: Option<int>)
      requires Valid() && key != []
      modifies this`srch, this`probe, this`fpos, this`pagpos, this`prevp
      ensures Valid()
      ensures r == if Outcome(key).Found? then Some(Outcome(key).value) else None
      ensures prevp <==> Outcome(key).Missing?
    {
      hide Lookup, Confirm, HashOf, MapCase, Represents, Shows, AllMismatch, Probe, And, Or, Not, Bias, Unbias;
      hide At, Overlay, LagsBehind, Standing;
      ghost var s, base, h := Slots(), basef.bytes, HashOf(key);
      prevp := false;
      var wanted := Cut(key);
      Start(key, false);
      var keyPtr := Search();
      StandsFirst(s, conf, base, wanted, h, probe, keyPtr);
      StandsAt(s, conf, base, entries, depths, wanted, h, probe, keyPtr);
      while keyPtr != NOTFOUND
        invariant Shape() && PositionOk() && SearchOk() && srch.seen && srch.hash == h && !prevp
        invariant Standing(s, conf, base, wanted, h, probe, keyPtr)
        invariant keyPtr != NOTFOUND ==> 0 <= keyPtr && probe < MAXRUN * (|s| + 1)
        decreases MAXRUN * (|s| + 2) - probe
      {
        StandsAt(s, conf, base, entries, depths, wanted, h, probe, keyPtr);
        if keyPtr + |wanted| > |basef.bytes| {
          return None;
        }
        var found := Matches(wanted, keyPtr);
        if found {
          return Some(keyPtr);
        }
        ghost var i, v := probe, keyPtr;
        keyPtr := Search();
        StandsNext(s, conf, base, wanted, h, i, v, probe, keyPtr);
        StandsAt(s, conf, base, entries, depths, wanted, h, probe, keyPtr);
      }
      StandsAt(s, conf, base, entries, depths, wanted, h, probe, keyPtr);
      StandsBehind(s, conf, base, wanted, h, probe, keyPtr);
      prevp := true;
      r := None;
    }

    /** The search inside `store`, which resumes the one a failed fetch left: it stops at
        the first vacant probe of the key's hash, resumed or not. */
    method FindPlace(key: Bytes)
      requires Valid()
      modifies this`srch, this`probe, this`fpos, this`pagpos, this`prevp
      ensures Shape() && PositionOk() && SearchOk() && !prevp
      ensures srch.hash == HashOf(key) && probe == FirstVacant(Slots(), conf.tsize, HashOf(key), 0)
    {
      hide Represents, Shows, AllMismatch, HashOf, Probe, At, Overlay, LagsBehind, FirstVacant, MapCase, And, Bias;
      ghost var s, h := Slots(), HashOf(key);
      Start(key, prevp);
      prevp := false;
      ghost var i := probe;
      var r := Search();
      WaitsNext(s, conf, h, i, probe, r);
      while r != NOTFOUND
        invariant PositionOk() && SearchOk() && srch.seen && srch.hash == h && !prevp
        invariant Waiting(s, conf, h, probe, r)
        decreases MAXRUN * (|s| + 1) - probe
      {
        WaitsAt(s, conf, entries, depths, h, probe, r);
        i := probe + 1;
        r := Search();
        WaitsNext(s, conf, h, i, probe, r);
      }
      WaitsAt(s, conf, entries, depths, h, probe, r);
    }

    /** The rest of `store`: the pair goes to the first vacant probe of its key. */
    method Insert(key: Bytes, value: int)
      requires Valid() && 0 <= value <= LONG_MAX && conf.tags.Okay(value)
      modifies this, corepag
      ensures Valid() && corepag == old(corepag) && writethrough == old(writethrough)
      ensures entries == old(entries) + [Entry(key, value)] && used == old(used) + 1 && written
      ensures FileCurrent() <==> old(FileCurrent()) && !CoreOnly(DepthAfter(conf, old(entries), Entry(key, value)))
    {
      hide Represents, HashOf, Probe, FirstVacant, Bias, Unbias, Lookup, At, LagsBehind, SameAt, DepthAfter;
      hide PositionOk, Overlay, OkayEntry, And, MapCase, Laid, Write;
      ghost var s, file, e := Slots(), pag, Entry(key, value);
      FindPlace(key);
      used := used + 1;
      written := true;
      ghost var place, coreOnly := srch.place, corepag != null && srch.place < conf.tsize && !writethrough;
      FirstTable(conf.tsize, HashOf(key), probe);
      WordNotVacant(conf, e);
      Set(value);
      StoredAt(s, Slots(), conf, entries, depths, e, probe);
      StoreLags(file, s, pag, Slots(), place, WordOf(conf, e), coreOnly);
      DepthIs(Slots(), conf, entries, depths, e, probe);
      entries, depths := entries + [e], depths + [probe];
    }

    /** store: add a pair. Keys that are too long and values that show the enable bit are
        refused; otherwise the pair becomes the youngest one. */
    method Store(key: Bytes, value: int) returns (ok: bool)
      requires Valid() && 0 <= value <= LONG_MAX
      modifies this, corepag
      ensures Valid() && corepag == old(corepag) && writethrough == old(writethrough)
      ensures ok <==> |key| < DBZMAXKEY && conf.tags.Okay(value)
      ensures ok ==> entries == old(entries) + [Entry(key, value)] && used == old(used) + 1 && written
      ensures !ok ==> unchanged(this) && Slots() == old(Slots()) && FileCurrent() == old(FileCurrent())
      ensures ok ==> (FileCurrent() <==> old(FileCurrent()) && !CoreOnly(DepthAfter(conf, old(entries), Entry(key, value))))
    {
      if |key| >= DBZMAXKEY {
        return false;
      }
      if !conf.tags.Okay(value) {
        return false;
      }
      Insert(key, value);
      ok := true;
    }

    /** dbzfetch: fetch with case mapping; a key that is too long is cut. */
    method DbzFetch(raw: Bytes) returns (r: Option<int>)
      requires Valid() && raw != []
      modifies this`srch, this`probe, this`fpos, this`pagpos, this`prevp
      ensures Valid()
      ensures var key := MapCase(conf.casemap, Cut(raw));
              r == if Outcome(key).Found? then Some(Outcome(key).value) else None
    {
      r := Fetch(MapCase(conf.casemap, Cut(raw)));
    }

    /** dbzstore: store with case mapping. */
    method DbzStore(raw: Bytes, value: int) returns (ok: bool)
      requires Valid() && 0 <= value <= LONG_MAX
      modifies this, corepag
      ensures Valid() && corepag == old(corepag) && writethrough == old(writethrough)
      ensures ok <==> |raw| < DBZMAXKEY && conf.tags.Okay(value)
      ensures ok ==> entries == old(entries) + [Entry(MapCase(conf.casemap, raw), value)] && written
      ensures !ok ==> unchanged(this) && Slots() == old(Slots()) && FileCurrent() == old(FileCurrent())
      ensures var depth := DepthAfter(conf, old(entries), Entry(MapCase(conf.casemap, raw), value));
              ok ==> (FileCurrent() <==> old(FileCurrent()) && !CoreOnly(depth))
    {
      if |raw| >= DBZMAXKEY {
        return false;
      }
      ok := Store(MapCase(conf.casemap, raw), value);
    }

    /** dbzsync: push the in-core table out, unless nothing was stored or write-through is on
        now. The file then lags behind exactly if it did before and nothing was pushed. */
    method Sync()
      requires Valid()
      modifies this`pag
      ensures Valid() && Slots() == old(Slots())
      ensures pag == if corepag != null && written && !writethrough then old(Slots()) else old(pag)
      ensures FileCurrent() <==> corepag == null || (written && !writethrough) || old(FileCurrent())
    {
      if !written {
        return;
      }
      if corepag != null && !writethrough {
        ghost var before := Slots();
        pag := corepag[..] + (if |pag| > conf.tsize then pag[conf.tsize..] else []);
        assert pag == before;
        assert Overlay(corepag[..], pag) == pag;
      }
    }

    /** dbzwritethrough: the old setting is returned. */
    method SetWriteThrough(value: bool) returns (was: bool)
      requires Valid()
      modifies this`writethrough
      ensures Valid() && writethrough == value && was == old(writethrough)
    {
      was := writethrough;
      writethrough := value;
    }

    /** dbmclose: synchronize, and leave only the file. */
    method Close() returns (file: seq<int>)
      requires Valid()
      modifies this`pag
      ensures file == if corepag != null && written && !writethrough then old(Slots()) else old(pag)
      ensures SameAt(file, old(Slots())) <==>
              corepag == null || (written && !writethrough) || old(FileCurrent())
    {
      Sync();
      file := pag;
    }
  }

  /** Closing a database and opening it again, with or without an in-core table, gives back
      every stored pair. */
  method Reopen(db: Database, incore: bool, writethrough: bool) returns (again: Database)
    requires db.Valid()
    requires db.corepag == null || (db.written && !db.writethrough) || db.FileCurrent()
    modifies db`pag
    ensures again.Valid() && fresh(again) && again.entries == old(db.entries) && again.FileCurrent()
    ensures (again.corepag != null ==> fresh(again.corepag)) && (again.corepag != null <==> incore)
    ensures again.writethrough == writethrough
    ensures again.conf == db.conf && again.basef == db.basef && again.used == db.used
    ensures forall p: nat :: At(again.Slots(), p) == old(At(db.Slots(), p))
  {
    ghost var es, ds := db.entries, db.depths;
    ghost var slots := db.Slots();
    var file := db.Close();
    SameSlots(slots, file, db.conf, es, ds);
    again := new Database(db.conf, db.basef, db.used, file, incore, writethrough, es, ds);
  }
}
