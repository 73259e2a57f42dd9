/** Streams of two-byte characters that pass through converters in chunks
    (convert/hztty/io.c and b2g.c). */
module HzStream {
  import opened Bytes

  const MAX_MODULE := 8
  /** The size of a stdio buffer. */
  const BUFSIZ := 8192

  const GTOB_COUNT := 7614
  const BTOG_COUNT := 13524

  // ---- one pass over a whole stream ---------------------------------------

  datatype Hanzi = Hanzi(c1: Byte, c2: Byte) {
    function Text(): Bytes {
      [c1, c2]
    }
  }

  type Doubles = Hanzi -> Hanzi

  predicate High(c: Byte) {
    c >= 128
  }

  /** What comes out of a converter, and the byte it holds back (0 when there is none). */
  datatype Done = Done(out: Bytes, saved: Byte)

  function Behind(before: Bytes, d: Done): Done {
    Done(before + d.out, d.saved)
  }

  /** One pass: every byte with the high bit on starts a two-byte character. */
  function Convert(s: Bytes, f: Doubles): (d: Done)
    ensures d.saved == 0 || High(d.saved)
    decreases |s|
  {
    if s == [] then Done([], 0)
    else if !High(s[0]) then Behind([s[0]], Convert(s[1..], f))
    else if |s| == 1 then Done([], s[0])
    else Behind(f(Hanzi(s[0], s[1])).Text(), Convert(s[2..], f))
  }

  lemma BehindBoth(a: Bytes, b: Bytes, d: Done)
    ensures Behind(a, Behind(b, d)) == Behind(a + b, d)
    ensures Behind([], d) == d
  {
  }

  /** One turn of the conversion loop. */
  lemma ConvertTurn(done: Bytes, s: Bytes, f: Doubles)
    requires s != []
    ensures Behind(done, Convert(s, f)) ==
            if !High(s[0]) then Behind(done + [s[0]], Convert(s[1..], f))
            else if |s| == 1 then Done(done, s[0])
            else Behind(done + f(Hanzi(s[0], s[1])).Text(), Convert(s[2..], f))
  {
    if !High(s[0]) {
      BehindBoth(done, [s[0]], Convert(s[1..], f));
    } else if |s| == 1 {
      assert done + [] == done;
    } else {
      BehindBoth(done, f(Hanzi(s[0], s[1])).Text(), Convert(s[2..], f));
    }
  }

  lemma ConvertNothing(f: Doubles)
    ensures Convert([], f) == Done([], 0)
  {
  }

  /** The byte held back goes in front of what comes next. */
  function Carried(saved: Byte): Bytes {
    if saved != 0 then [saved] else []
  }

  /** One call of a converter. */
  function Chunk(s: Bytes, saved: Byte, f: Doubles): Done {
    if s == [] then Done([], saved) else Convert(Carried(saved) + s, f)
  }

  /** Successive calls, their outputs put together. */
  function Chunks(chunks: seq<Bytes>, saved: Byte, f: Doubles): Done {
    if chunks == [] then Done([], saved)
    else
      var first := Chunk(chunks[0], saved, f);
      var rest := Chunks(chunks[1..], first.saved, f);
      Behind(first.out, rest)
  }

  function Joined(chunks: seq<Bytes>): Bytes {
    if chunks == [] then [] else chunks[0] + Joined(chunks[1..])
  }

  lemma ConvertCarried(saved: Byte, f: Doubles)
    requires saved == 0 || High(saved)
    ensures Convert(Carried(saved), f) == Done([], saved)
  {
  }

  /** A pass may be interrupted anywhere, as long as the byte held back is put down again. */
  lemma {:induction false} ConvertJoin(a: Bytes, b: Bytes, f: Doubles)
    ensures var first := Convert(a, f);
            Convert(a + b, f) == Behind(first.out, Convert(Carried(first.saved) + b, f))
    decreases |a|
  {
    hide Hanzi.Text;
    var first := Convert(a, f);
    var rest := Convert(Carried(first.saved) + b, f);
    if a == [] {
      assert a + b == b == Carried(0) + b;
      BehindBoth([], [], rest);
    } else if !High(a[0]) {
      assert (a + b)[1..] == a[1..] + b;
      ConvertJoin(a[1..], b, f);
      BehindBoth([a[0]], Convert(a[1..], f).out, rest);
    } else if |a| == 1 {
      assert a + b == Carried(a[0]) + b;
      BehindBoth([], [], rest);
    } else {
      assert (a + b)[2..] == a[2..] + b;
      ConvertJoin(a[2..], b, f);
      BehindBoth(f(Hanzi(a[0], a[1])).Text(), Convert(a[2..], f).out, rest);
    }
  }

  /** One call after some input is that input going on. */
  lemma ChunkGoesOn(a: Bytes, b: Bytes, f: Doubles)
    ensures var first := Convert(a, f);
            Convert(a + b, f) == Behind(first.out, Chunk(b, first.saved, f))
  {
    hide Convert;
    ConvertJoin(a, b, f);
    if b == [] {
      assert a + b == a;
    }
  }

  /** However a stream is cut into chunks, the outputs put together and the byte held back at
      the end are those of one pass over the whole. */
  lemma {:induction false} ChunksAreOnePass(chunks: seq<Bytes>, saved: Byte, f: Doubles)
    requires saved == 0 || High(saved)
    ensures Chunks(chunks, saved, f) == Convert(Carried(saved) + Joined(chunks), f)
    decreases |chunks|
  {
    hide Convert, Behind, Chunk, Carried, Joined;
    if chunks == [] {
      ConvertCarried(saved, f);
      CarriedAlone(saved);
    } else {
      var s := chunks[0];
      var first := Convert(Carried(saved) + s, f);
      FirstChunkIs(s, saved, f);
      ChunksAreOnePass(chunks[1..], first.saved, f);
      ConvertJoin(Carried(saved) + s, Joined(chunks[1..]), f);
      JoinedFirst(chunks, saved);
    }
  }

  lemma CarriedAlone(saved: Byte)
    ensures Carried(saved) + Joined([]) == Carried(saved)
  {
  }

  lemma JoinedFirst(chunks: seq<Bytes>, saved: Byte)
    requires chunks != []
    ensures Carried(saved) + Joined(chunks) == Carried(saved) + chunks[0] + Joined(chunks[1..])
  {
    Regroup(Carried(saved), chunks[0], Joined(chunks[1..]));
  }

  /** The first call is a pass over the byte held back and the chunk. */
  lemma FirstChunkIs(s: Bytes, saved: Byte, f: Doubles)
    requires saved == 0 || High(saved)
    ensures Chunk(s, saved, f) == Convert(Carried(saved) + s, f)
  {
    hide Convert, Carried;
    ConvertCarried(saved, f);
    if s == [] {
      assert Carried(saved) + [] == Carried(saved);
    }
  }

  // ---- the two-byte tables ------------------------------------------------

  /** The entry of GtoB for a GB character: rows 0xa1..0xa9 and 0xb0..0xf7. */
  function GbIndex(h: Hanzi): (i: Option<nat>)
    ensures i.Some? ==> i.value < GTOB_COUNT
  {
    var c1, c2 := h.c1 as int, h.c2 as int;
    if !(0xa1 <= c2 <= 0xfe) then None
    else if 0xa1 <= c1 <= 0xa9 then Some((c1 - 0xa1) * 94 + (c2 - 0xa1))
    else if 0xb0 <= c1 <= 0xf7 then Some((c1 - 0xb0 + 9) * 94 + (c2 - 0xa1))
    else None
  }

  /** The GB character of an entry. */
  function GbCode(i: nat): Hanzi
    requires i < GTOB_COUNT
  {
    var row, cell := i / 94, i % 94;
    Hanzi((if row < 9 then 0xa1 + row else 0xb0 + row - 9) as Byte, (0xa1 + cell) as Byte)
  }

  /** The characters converted by the table are exactly its entries, one each. */
  lemma GbTable(h: Hanzi, i: nat)
    requires i < GTOB_COUNT
    ensures GbIndex(h) == Some(i) <==> h == GbCode(i)
  {
  }

  /** The entry of BtoG for a Big5 character. */
  function BigIndex(h: Hanzi): (i: Option<nat>)
    ensures i.Some? ==> i.value < BTOG_COUNT
  {
    var c1, c2 := h.c1 as int, h.c2 as int;
    if 0xa1 <= c1 <= 0xf6 then
      if 0x40 <= c2 <= 0x7e then Some((c1 - 0xa1) * 157 + (c2 - 0x40))
      else if 0xa1 <= c2 <= 0xfe then Some((c1 - 0xa1) * 157 + (c2 - 0xa1) + 63)
      else None
    else if c1 == 0xf7 && 0x40 <= c2 <= 0x55 then Some((c1 - 0xa1) * 157 + (c2 - 0x40))
    else None
  }

  function BigCode(i: nat): Hanzi
    requires i < BTOG_COUNT
  {
    var row, cell := i / 157, i % 157;
    Hanzi((0xa1 + row) as Byte, (if cell < 63 then 0x40 + cell else 0xa1 + cell - 63) as Byte)
  }

  lemma BigTable(h: Hanzi, i: nat)
    requires i < BTOG_COUNT
    ensures BigIndex(h) == Some(i) <==> h == BigCode(i)
  {
  }

  type GbToBig = t: Bytes | |t| == 2 * GTOB_COUNT witness seq(2 * GTOB_COUNT, i => 0 as Byte)
  type BigToGb = t: Bytes | |t| == 2 * BTOG_COUNT witness seq(2 * BTOG_COUNT, i => 0 as Byte)

  datatype Tables = Tables(gtob: GbToBig, btog: BigToGb) {
    /** g2b */
    function G2b(h: Hanzi): Hanzi {
      match GbIndex(h)
      case Some(i) => Hanzi(gtob[2 * i], gtob[2 * i + 1])
      case None => Hanzi(0xa1, 0xbc)
    }

    /** b2g */
    function B2g(h: Hanzi): Hanzi {
      match BigIndex(h)
      case Some(i) => Hanzi(btog[2 * i], btog[2 * i + 1])
      case None => Hanzi(0xa1, 0xf5)
    }

    function Of(func: Func): Doubles {
      if func == Gb2Big then h => G2b(h) else h => B2g(h)
    }
  }

  // ---- streams of modules -------------------------------------------------

  datatype Func = Gb2Big | Big2Gb | Dummy

  /** A module of a stream and its instance number. */
  datatype Stage = Stage(func: Func, inst: nat)

  /** One module over a whole stream. */
  function OnePass(t: Tables, func: Func, s: Bytes): Bytes {
    if func == Dummy then s else Convert(s, t.Of(func)).out
  }

  /** The first n modules, one after the other, each over the whole stream. */
  function Through(t: Tables, st: seq<Stage>, n: nat, s: Bytes): Bytes
    requires n <= |st|
  {
    if n == 0 then s else OnePass(t, st[n - 1].func, Through(t, st, n - 1, s))
  }

  /** What one more chunk adds behind a module. */
  lemma OnePassGoesOn(t: Tables, func: Func, a: Bytes, b: Bytes)
    ensures OnePass(t, func, a + b) == OnePass(t, func, a) +
            if func == Dummy then b else Chunk(b, Convert(a, t.Of(func)).saved, t.Of(func)).out
  {
    if func != Dummy {
      ChunkGoesOn(a, b, t.Of(func));
    }
  }

  lemma {:induction false} ThroughNothing(t: Tables, st: seq<Stage>, n: nat)
    requires n <= |st|
    ensures Through(t, st, n, []) == []
  {
    if n > 0 {
      ThroughNothing(t, st, n - 1);
    }
  }

  lemma ThroughNone(t: Tables, st: seq<Stage>, s: Bytes)
    ensures Through(t, st, 0, s) == s
  {
  }

  /** How many of some modules are of one kind. */
  function Count(funcs: seq<Func>, func: Func): (n: nat)
    ensures n <= |funcs|
  {
    if funcs == [] then 0
    else Count(funcs[..|funcs| - 1], func) + if funcs[|funcs| - 1] == func then 1 else 0
  }

  lemma {:induction false} CountMonotone(funcs: seq<Func>, i: nat, j: nat, func: Func)
    requires i < j <= |funcs| && funcs[i] == func
    ensures Count(funcs[..i], func) < Count(funcs[..j], func)
    decreases j
  {
    assert funcs[..j][..j - 1] == funcs[..j - 1];
    if i < j - 1 {
      CountMonotone(funcs, i, j - 1, func);
    }
  }

  class Stream {
    const tables: Tables
    const st: seq<Stage>
    const convBuf: array<Byte>
    const gb2bigSavec: array<Byte>
    const big2gbSavec: array<Byte>
    /** Everything written to the other side. */
    var written: Bytes
    /** Everything handed to `StreamWrite`. */
    ghost var fed: Bytes

    ghost predicate Shape()
    {
      && convBuf.Length == 3 * BUFSIZ && |st| <= MAX_MODULE
      && gb2bigSavec.Length == big2gbSavec.Length == MAX_MODULE
      && convBuf != gb2bigSavec && convBuf != big2gbSavec && gb2bigSavec != big2gbSavec
      && (forall i :: 0 <= i < |st| ==> st[i].inst < MAX_MODULE)
      && (forall i, j :: 0 <= i < j < |st| ==> st[i] != st[j] || st[i].func == Dummy)
    }

    /** The cell that keeps a module's byte. */
    function Savec(func: Func): (a: array<Byte>)
    {
      if func == Gb2Big then gb2bigSavec else big2gbSavec
    }

    /** Module i holds back the byte that one pass over its whole input would. */
    ghost predicate HoldsBack(i: nat, fed: Bytes)
      requires Shape() && i < |st|
      reads gb2bigSavec, big2gbSavec
    {
      st[i].func != Dummy ==>
        Savec(st[i].func)[st[i].inst] ==
        Convert(Through(tables, st, i, fed), tables.Of(st[i].func)).saved
    }

    /** The chunks written so far are one pass of every module over everything fed. */
    ghost predicate Valid()
      reads this, gb2bigSavec, big2gbSavec
    {
      && Shape()
      && written == Through(tables, st, |st|, fed)
      && forall i :: 0 <= i < |st| ==> HoldsBack(i, fed)
    }

    /** stream_init, gb2big_init and big2gb_init. */
    constructor (tables: Tables, funcs: seq<Func>)
      requires |funcs| <= MAX_MODULE
      ensures Valid() && fresh(convBuf) && fresh(gb2bigSavec) && fresh(big2gbSavec)
      ensures this.tables == tables && fed == [] && |st| == |funcs|
      ensures forall i :: 0 <= i < |funcs| ==> st[i].func == funcs[i]
    {
      hide Convert, Through;
      this.tables := tables;
      st := seq(|funcs|, i requires 0 <= i < |funcs| => Stage(funcs[i], Count(funcs[..i], funcs[i])));
      convBuf := new Byte[3 * BUFSIZ];
      gb2bigSavec := new Byte[MAX_MODULE](_ => 0);
      big2gbSavec := new Byte[MAX_MODULE](_ => 0);
      written, fed := [], [];
      new;
      InstancesDiffer(funcs);
      assert Shape();
      ThroughNothing(tables, st, |st|);
      forall i | 0 <= i < |st|
        ensures HoldsBack(i, fed)
      {
        ThroughNothing(tables, st, i);
        ConvertNothing(tables.Of(st[i].func));
      }
    }

    /** g2b, in place. */
    method G2b(p: nat)
      requires p + 1 < convBuf.Length
      modifies convBuf
      ensures Hanzi(convBuf[p], convBuf[p + 1]) == tables.G2b(old(Hanzi(convBuf[p], convBuf[p + 1])))
      ensures forall k :: 0 <= k < convBuf.Length && k != p && k != p + 1 ==> convBuf[k] == old(convBuf[k])
    {
      var c1, c2 := convBuf[p] as int, convBuf[p + 1] as int;
      if 0xa1 <= c2 <= 0xfe {
        if 0xa1 <= c1 <= 0xa9 {
          var i := ((c1 - 0xa1) * 94 + (c2 - 0xa1)) * 2;
          convBuf[p] := tables.gtob[i];
          i := i + 1;
          convBuf[p + 1] := tables.gtob[i];
          return;
        } else if 0xb0 <= c1 <= 0xf7 {
          var i := ((c1 - 0xb0 + 9) * 94 + (c2 - 0xa1)) * 2;
          convBuf[p] := tables.gtob[i];
          i := i + 1;
          convBuf[p + 1] := tables.gtob[i];
          return;
        }
      }
      convBuf[p] := 0xa1;
      convBuf[p + 1] := 0xbc;
    }

    /** b2g, in place. */
    method B2g(p: nat)
      requires p + 1 < convBuf.Length
      modifies convBuf
      ensures Hanzi(convBuf[p], convBuf[p + 1]) == tables.B2g(old(Hanzi(convBuf[p], convBuf[p + 1])))
      ensures forall k :: 0 <= k < convBuf.Length && k != p && k != p + 1 ==> convBuf[k] == old(convBuf[k])
    {
      var c1, c2 := convBuf[p] as int, convBuf[p + 1] as int;
      var i;
      if 0xa1 <= c1 <= 0xf6 {
        if 0x40 <= c2 <= 0x7e {
          i := ((c1 - 0xa1) * 157 + (c2 - 0x40)) * 2;
          convBuf[p] := tables.btog[i];
          i := i + 1;
          convBuf[p + 1] := tables.btog[i];
          return;
        } else if 0xa1 <= c2 <= 0xfe {
          i := ((c1 - 0xa1) * 157 + (c2 - 0xa1) + 63) * 2;
          convBuf[p] := tables.btog[i];
          i := i + 1;
          convBuf[p + 1] := tables.btog[i];
          return;
        }
      } else if c1 == 0xf7 && 0x40 <= c2 <= 0x55 {
        i := ((c1 - 0xa1) * 157 + (c2 - 0x40)) * 2;
        convBuf[p] := tables.btog[i];
        i := i + 1;
        convBuf[p + 1] := tables.btog[i];
        return;
      }
      convBuf[p] := 0xa1;
      convBuf[p + 1] := 0xf5;
    }

    /** The call through hzconvert's function pointer. */
    method Dbcvrt(func: Func, p: nat)
      requires p + 1 < convBuf.Length && func != Dummy
      modifies convBuf
      ensures Hanzi(convBuf[p], convBuf[p + 1]) == tables.Of(func)(old(Hanzi(convBuf[p], convBuf[p + 1])))
      ensures forall k :: 0 <= k < convBuf.Length && k != p && k != p + 1 ==> convBuf[k] == old(convBuf[k])
    {
      if func == Gb2Big {
        G2b(p);
      } else {
        B2g(p);
      }
    }

    /** hzconvert: converts a chunk in place. The chunk moves down by one when a byte held
        back is put in front of it. */
    method HzConvert(start: nat, len: nat, stage: Stage) returns (s: nat, n: nat)
      requires convBuf.Length >= start + len && start > 0 && stage.func != Dummy
      requires stage.inst < Savec(stage.func).Length && convBuf != Savec(stage.func)
      modifies convBuf, Savec(stage.func)
      ensures start - 1 <= s && s + n <= start + len
      ensures var d := Chunk(old(convBuf[start..start + len]), old(Savec(stage.func)[stage.inst]), tables.Of(stage.func));
              convBuf[s..s + n] == d.out && Savec(stage.func)[stage.inst] == d.saved
      ensures forall k :: 0 <= k < Savec(stage.func).Length && k != stage.inst ==>
                Savec(stage.func)[k] == old(Savec(stage.func)[k])
    {
      s, n := start, len;
      if len == 0 {
        return;
      }
      var savec, inst := Savec(stage.func), stage.inst;
      ghost var was := Carried(savec[inst]) + convBuf[start..start + len];
      if savec[inst] != 0 {
        s := s - 1;
        convBuf[s] := savec[inst];
        n := n + 1;
        savec[inst] := 0;
      }
      assert convBuf[s..s + n] == was;
      n := ConvertLoop(s, n, stage);
    }

    /** The loop of hzconvert. */
    method ConvertLoop(s: nat, len: nat, stage: Stage) returns (n: nat)
      requires s + len <= convBuf.Length && stage.func != Dummy
      requires stage.inst < Savec(stage.func).Length && convBuf != Savec(stage.func)
      requires Savec(stage.func)[stage.inst] == 0
      modifies convBuf, Savec(stage.func)
      ensures n <= len
      ensures var d := Convert(old(convBuf[s..s + len]), tables.Of(stage.func));
              convBuf[s..s + n] == d.out && Savec(stage.func)[stage.inst] == d.saved
      ensures forall k :: 0 <= k < Savec(stage.func).Length && k != stage.inst ==>
                Savec(stage.func)[k] == old(Savec(stage.func)[k])
    {
      hide Convert, Tables.Of;
      var savec, inst := Savec(stage.func), stage.inst;
      ghost var f := tables.Of(stage.func);
      ConvertNothing(f);
      ghost var all := Convert(convBuf[s..s + len], f);
      n := len;
      var p, pend := s, s + len;
      assert convBuf[s..s] == [];
      while p < pend
        invariant s <= p <= pend
        invariant all == Behind(convBuf[s..p], Convert(convBuf[p..pend], f))
        invariant savec[inst] == 0 && n == len
        invariant forall k :: 0 <= k < savec.Length ==> savec[k] == old(savec[k])
        decreases pend - p
      {
        ghost var todo, done := convBuf[p..pend], convBuf[s..p];
        ConvertTurn(done, todo, f);
        if High(convBuf[p]) {
          if p < pend - 1 {
            ghost var later := convBuf[p + 2..pend];
            assert later == todo[2..];
            Dbcvrt(stage.func, p);
            assert convBuf[s..p] == done;
            assert convBuf[p + 2..pend] == later;
            assert convBuf[s..p + 2] == done + f(Hanzi(todo[0], todo[1])).Text();
            p := p + 1;
          } else {
            savec[inst] := convBuf[p];
            n := n - 1;
            assert convBuf[s..s + n] == done;
            return;
          }
        } else {
          assert convBuf[p + 1..pend] == todo[1..];
          assert convBuf[s..p + 1] == done + [todo[0]];
        }
        p := p + 1;
      }
      assert convBuf[p..pend] == [];
    }

    /** The call of one module in stream_write's loop. */
    method RunStage(i: nat, start: nat, len: nat, ghost s: Bytes) returns (p: nat, n: nat)
      requires Shape() && i < |st| && 0 < start && start + len <= convBuf.Length
      requires Through(tables, st, i, fed + s) == Through(tables, st, i, fed) + convBuf[start..start + len]
      requires forall j :: 0 <= j < i ==> HoldsBack(j, fed + s)
      requires forall j :: i <= j < |st| ==> HoldsBack(j, fed)
      modifies convBuf, gb2bigSavec, big2gbSavec
      ensures start - 1 <= p && p + n <= start + len
      ensures Through(tables, st, i + 1, fed + s) == Through(tables, st, i + 1, fed) + convBuf[p..p + n]
      ensures forall j :: 0 <= j < i + 1 ==> HoldsBack(j, fed + s)
      ensures forall j :: i + 1 <= j < |st| ==> HoldsBack(j, fed)
    {
      hide Through, Convert, Chunk, OnePass;
      ghost var a, b := Through(tables, st, i, fed), convBuf[start..start + len];
      ghost var f := tables.Of(st[i].func);
      p, n := start, len;
      if st[i].func != Dummy {
        ghost var saved := Savec(st[i].func)[st[i].inst];
        assert HoldsBack(i, fed);
        assert saved == Convert(a, f).saved;
        label before:
        p, n := HzConvert(start, len, st[i]);
        forall j | 0 <= j < |st| && j != i && st[j].func != Dummy
          ensures Savec(st[j].func)[st[j].inst] == old@before(Savec(st[j].func)[st[j].inst])
        {
        }
        ChunkGoesOn(a, b, f);
        assert convBuf[p..p + n] == Chunk(b, saved, f).out;
        assert Savec(st[i].func)[st[i].inst] == Chunk(b, saved, f).saved;
      }
      StageGoesOn(tables, st, i, fed, s, b);
      assert fed == old(fed);
      forall j | 0 <= j < i
        ensures HoldsBack(j, fed + s)
      {
        assert old(HoldsBack(j, fed + s));
      }
      forall j | i < j < |st|
        ensures HoldsBack(j, fed)
      {
        assert old(HoldsBack(j, fed));
      }
      assert HoldsBack(i, fed + s);
    }

    /** stream_write: a chunk goes through every module and out. */
    method StreamWrite(s: Bytes)
      requires Valid() && |s| <= BUFSIZ
      modifies this, convBuf, gb2bigSavec, big2gbSavec
      ensures Valid() && fed == old(fed) + s
      ensures old(written) <= written
    {
      hide Through, Convert, HoldsBack;
      var p: nat, len: nat := BUFSIZ, |s|;
      forall k | 0 <= k < |s| {
        convBuf[BUFSIZ + k] := s[k];
      }
      assert convBuf[p..p + len] == s;
      ThroughNone(tables, st, fed);
      ThroughNone(tables, st, fed + s);
      var i := 0;
      while i < |st|
        invariant 0 <= i <= |st| && Shape() && BUFSIZ - i <= p && p + len <= BUFSIZ + |s|
        invariant Through(tables, st, i, fed + s) == Through(tables, st, i, fed) + convBuf[p..p + len]
        invariant forall j :: 0 <= j < i ==> HoldsBack(j, fed + s)
        invariant forall j :: i <= j < |st| ==> HoldsBack(j, fed)
        invariant fed == old(fed) && written == old(written)
      {
        p, len := RunStage(i, p, len, s);
        i := i + 1;
      }
      fed := fed + s;
      assert len == 0 ==> convBuf[p..p + len] == [];
      if len != 0 {
        written := written + convBuf[p..p + len];
      }
    }

    /** The loop that copies everything from one side to the other: what comes out does not
        depend on how the input arrives. */
    method CopyStream(chunks: seq<Bytes>)
      requires Valid() && fed == [] && forall i :: 0 <= i < |chunks| ==> |chunks[i]| <= BUFSIZ
      modifies this, convBuf, gb2bigSavec, big2gbSavec
      ensures Valid() && written == Through(tables, st, |st|, Joined(chunks))
    {
      hide Through, HoldsBack;
      var i := 0;
      while i < |chunks|
        invariant 0 <= i <= |chunks| && Valid() && fed + Joined(chunks[i..]) == Joined(chunks)
      {
        JoinedNext(fed, chunks, i);
        StreamWrite(chunks[i]);
        i := i + 1;
      }
      assert fed == fed + Joined(chunks[i..]);
    }
  }

  lemma JoinedNext(fed: Bytes, chunks: seq<Bytes>, i: nat)
    requires i < |chunks|
    ensures fed + chunks[i] + Joined(chunks[i + 1..]) == fed + Joined(chunks[i..])
  {
    assert chunks[i..][1..] == chunks[i + 1..];
  }

  lemma StageGoesOn(t: Tables, st: seq<Stage>, i: nat, fed: Bytes, s: Bytes, b: Bytes)
    requires i < |st| && Through(t, st, i, fed + s) == Through(t, st, i, fed) + b
    ensures var func := st[i].func;
            Through(t, st, i + 1, fed + s) == Through(t, st, i + 1, fed) +
            if func == Dummy then b else Chunk(b, Convert(Through(t, st, i, fed), t.Of(func)).saved, t.Of(func)).out
  {
    hide Chunk, Convert;
    OnePassGoesOn(t, st[i].func, Through(t, st, i, fed), b);
  }

  lemma InstancesDiffer(funcs: seq<Func>)
    ensures forall i, j :: 0 <= i < j < |funcs| && funcs[i] == funcs[j] ==>
              Count(funcs[..i], funcs[i]) < Count(funcs[..j], funcs[j])
  {
    forall i, j | 0 <= i < j < |funcs| && funcs[i] == funcs[j]
      ensures Count(funcs[..i], funcs[i]) < Count(funcs[..j], funcs[j])
    {
      CountMonotone(funcs, i, j, funcs[i]);
    }
  }

  // ---- in plain numbers ---------------------------------------------------

  /** Bytes below 128 pass as they are; two bytes from 128 on are a character, whatever the
      second; and a last one alone is held back. */
  lemma ConvertLaw(c: Byte, d: Byte, s: Bytes, f: Doubles)
    ensures c < 128 ==> Convert([c] + s, f) == Done([c] + Convert(s, f).out, Convert(s, f).saved)
    ensures c >= 128 ==>
              Convert([c, d] + s, f) ==
              Done([f(Hanzi(c, d)).c1, f(Hanzi(c, d)).c2] + Convert(s, f).out, Convert(s, f).saved)
    ensures c >= 128 ==> Convert([c], f) == Done([], c)
    ensures Convert([], f) == Done([], 0)
  {
    assert ([c] + s)[1..] == s && ([c, d] + s)[2..] == s;
  }

  predicate Sooner(h: Hanzi, k: Hanzi) {
    h.c1 < k.c1 || (h.c1 == k.c1 && h.c2 < k.c2)
  }

  /** The entries of both tables are in the order of the characters. */
  lemma TableOrder(h: Hanzi, k: Hanzi)
    ensures GbIndex(h).Some? && GbIndex(k).Some? ==> (Sooner(h, k) <==> GbIndex(h).value < GbIndex(k).value)
    ensures BigIndex(h).Some? && BigIndex(k).Some? ==> (Sooner(h, k) <==> BigIndex(h).value < BigIndex(k).value)
  {
  }

  /** An entry is two bytes, the first one first. Characters that have none become 161, 188 on
      the way to Big5 and 161, 245 on the way to GB. */
  lemma EntryLaw(t: Tables, h: Hanzi, i: nat)
    ensures i < 7614 && GbIndex(h) == Some(i) ==> t.G2b(h) == Hanzi(t.gtob[2 * i], t.gtob[2 * i + 1])
    ensures i < 13524 && BigIndex(h) == Some(i) ==> t.B2g(h) == Hanzi(t.btog[2 * i], t.btog[2 * i + 1])
    ensures !(161 <= h.c2 <= 254 && (161 <= h.c1 <= 169 || 176 <= h.c1 <= 247)) ==> t.G2b(h) == Hanzi(161, 188)
    ensures !(((64 <= h.c2 <= 126 || 161 <= h.c2 <= 254) && 161 <= h.c1 <= 246) || (h.c1 == 247 && 64 <= h.c2 <= 85)) ==>
              t.B2g(h) == Hanzi(161, 245)
  {
  }

  /** The modules work in the order in which they were set up, each with its own table. */
  lemma {:induction false} PipeLaw(t: Tables, first: Stage, st: seq<Stage>, n: nat, s: Bytes)
    requires n <= |st|
    ensures Through(t, [first] + st, n + 1, s) == Through(t, st, n, OnePass(t, first.func, s))
    decreases n
  {
    if n > 0 {
      PipeLaw(t, first, st, n - 1, s);
    }
  }

  lemma ModuleLaw(t: Tables, h: Hanzi)
    ensures t.Of(Gb2Big)(h) == t.G2b(h) && t.Of(Big2Gb)(h) == t.B2g(h)
  {
  }
}
