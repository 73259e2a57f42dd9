/** Converting kanji streams between Shift-JIS, 7-bit JIS and EUC (convert/jis/jis.c). */
module Jis {
  import opened Bytes

  const FF: Byte := 12
  const CR: Byte := 13
  const ESC: Byte := 27
  /** The first byte of half-width katakana in EUC. */
  const SS2: Byte := 142
  const EOF := -1

  datatype Code = New | Old | Nec

  predicate Lead(c: int) {
    129 <= c <= 159 || 224 <= c <= 239
  }

  predicate Trail(c: int) {
    64 <= c <= 252
  }

  predicate Hankata(c: int) {
    161 <= c <= 223
  }

  predicate IsEuc(c: int) {
    161 <= c <= 254
  }

  /** KanjiIn */
  function KanjiIn(code: Code): Bytes {
    match code
    case New => [ESC, 36, 66]
    case Old => [ESC, 36, 64]
    case Nec => [ESC, 75]
  }

  /** KanjiOut */
  function KanjiOut(code: Code): Bytes {
    match code
    case New => [ESC, 40, 74]
    case Old => [ESC, 40, 74]
    case Nec => [ESC, 72]
  }

  /** The byte that `%c` writes. */
  function Low(c: int): Byte {
    (c % 256) as Byte
  }

  datatype Pair = Pair(p1: int, p2: int) {
    function Text(): (s: Bytes)
      ensures |s| == 2
    {
      [Low(p1), Low(p2)]
    }

    /** Two printing bytes of a 7-bit code. */
    predicate Seven() {
      33 <= p1 <= 126 && 33 <= p2 <= 126
    }

    predicate Shifted() {
      Lead(p1) && Trail(p2)
    }
  }

  /** The row and cell of a Shift-JIS character: Shift-JIS packs two rows of 94 cells behind
      each lead byte, skipping the trail byte 127. */
  function ToJis(p: Pair): (q: Pair)
    requires p.Shifted()
    ensures q.Seven()
  {
    var row := 2 * (if p.p1 < 160 then p.p1 - 129 else p.p1 - 193);
    var cell := if p.p2 < 127 then p.p2 - 64 else if p.p2 == 127 then 63 else p.p2 - 65;
    if cell < 94 then Pair(33 + row, 33 + cell) else Pair(34 + row, 33 + cell - 94)
  }

  /** sjis2jis */
  method Sjis2Jis(c1: int, c2: int) returns (p1: int, p2: int)
    requires Pair(c1, c2).Shifted()
    ensures Pair(p1, p2) == ToJis(Pair(c1, c2))
  {
    var adjust := if c2 < 159 then 1 else 0;
    var rowOffset := if c1 < 160 then 112 else 176;
    var cellOffset := if adjust == 1 then 31 + (if c2 > 127 then 1 else 0) else 126;
    p1 := (c1 - rowOffset) * 2 - adjust;
    p2 := c2 - cellOffset;
  }

  /** The Shift-JIS character of a row and a cell, counted from 33: every second row lies
      behind the same lead byte as the row before it, its cells after that row's, and the
      trail byte 127 is skipped. Bytes that are no row or cell are carried along. */
  function ToSjis(p: Pair): Pair {
    var row, cell := p.p1 - 33, p.p2 - 33;
    Pair((if row < 62 then 129 else 193) + row / 2,
         if row % 2 == 1 then 159 + cell else if cell < 63 then 64 + cell else 65 + cell)
  }

  /** jis2sjis; a missing second byte has been read as -1. Of a 7-bit pair it makes the one
      Shift-JIS character, without trail byte 127, whose code it is. */
  method Jis2Sjis(p1: int, p2: int) returns (q1: int, q2: int)
    requires 0 <= p1 < 256 && -1 <= p2 < 256
    ensures Pair(q1, q2) == ToSjis(Pair(p1, p2 % 256))
    ensures Pair(p1, p2).Seven() ==>
              Pair(q1, q2).Shifted() && q2 != 127 && ToJis(Pair(q1, q2)) == Pair(p1, p2)
  {
    hide ToSjis, ToJis;
    var c1, c2 := p1, p2 % 256;
    var rowOffset := if c1 < 95 then 112 else 176;
    var cellOffset := if c1 % 2 != 0 then 31 + (if c2 > 95 then 1 else 0) else 126;
    q1 := (c1 + 1) / 2 + rowOffset;
    q2 := c2 + cellOffset;
    SjisOffsets(c1, c2);
    if Pair(p1, p2).Seven() {
      BackAndThere(Pair(p1, p2));
    }
  }

  /** The offsets the code adds put a row and a cell where they belong. */
  lemma SjisOffsets(c1: int, c2: int)
    requires 0 <= c1 < 256 && 0 <= c2 < 256
    ensures ToSjis(Pair(c1, c2)) ==
            Pair((c1 + 1) / 2 + (if c1 < 95 then 112 else 176),
                 c2 + if c1 % 2 != 0 then 31 + (if c2 > 95 then 1 else 0) else 126)
  {
  }

  /** The trail byte 127 collides with 128. */
  function Kept(p: Pair): Pair {
    Pair(p.p1, if p.p2 == 127 then 128 else p.p2)
  }

  lemma ThereAndBack(p: Pair)
    requires p.Shifted()
    ensures ToSjis(ToJis(p)) == Kept(p)
  {
  }

  lemma BackAndThere(q: Pair)
    requires q.Seven()
    ensures ToSjis(q).Shifted() && ToSjis(q).p2 != 127 && ToJis(ToSjis(q)) == q
  {
  }

  /** What han2zen makes of half-width katakana: a full-width character, and how many of the
      following bytes belong to it as a sound mark. The tables stay abstract. */
  datatype Wide = Wide(pair: Pair, taken: nat)

  type Widening = w: (Byte, Bytes) -> Wide |
    forall b, s :: w(b, s).pair.Shifted() && w(b, s).taken <= |s|
    witness (b, s) => Wide(Pair(129, 64), 0)

  /** In Shift-JIS a sound mark is one more byte of half-width katakana. */
  ghost predicate TakesMarks(w: Widening) {
    forall b, s :: w(b, s).taken <= 1 && (w(b, s).taken == 1 ==> Hankata(s[0] as int))
  }

  // ---- one step of each converter -----------------------------------------

  /** What one turn of a converter's loop writes, what it leaves to be read, and whether it
      is then in the shifted-in state. */
  datatype Turn = Turn(out: Bytes, rest: Bytes, shifted: bool)

  /** getc, with -1 at the end of the file. */
  function Next(s: Bytes): (c: int)
    ensures -1 <= c < 256 && (c == EOF <==> s == [])
  {
    if s == [] then EOF else s[0] as int
  }

  function Past(s: Bytes): (t: Bytes)
    ensures |t| == if s == [] then 0 else |s| - 1
  {
    if s == [] then [] else s[1..]
  }

  /** Reaching a state of the 7-bit code. */
  function Reach(shifted: bool, target: bool, code: Code): Bytes {
    if shifted == target then [] else if target then KanjiIn(code) else KanjiOut(code)
  }

  function SevenTurn(b: Byte, r: Bytes, shifted: bool, code: Code, zen: Widening): (t: Turn)
    ensures |t.rest| <= |r|
  {
    var c := b as int;
    if b == NUL || b == FF then Turn([], r, shifted)
    else if b == CR || b == NL then Turn(Reach(shifted, false, code) + [NL], r, false)
    else if Lead(c) && Trail(Next(r)) then
      Turn(Reach(shifted, true, code) + ToJis(Pair(c, Next(r))).Text(), Past(r), true)
    else if Lead(c) then Turn(Pair(c, Next(r)).Text(), Past(r), shifted)
    else if Hankata(c) then
      var w := zen(b, r);
      Turn(Reach(shifted, true, code) + ToJis(w.pair).Text(), r[w.taken..], true)
    else Turn(Reach(shifted, false, code) + [b], r, false)
  }

  /** shift2seven: the 7-bit text of a Shift-JIS stream. */
  function Seven(s: Bytes, shifted: bool, code: Code, zen: Widening): Bytes
    decreases |s|
  {
    if s == [] then Reach(shifted, false, code)
    else
      var t := SevenTurn(s[0], s[1..], shifted, code, zen);
      t.out + Seven(t.rest, t.shifted, code, zen)
  }

  function EucTurn(b: Byte, r: Bytes, full: bool, zen: Widening): (t: Turn)
    ensures |t.rest| <= |r|
  {
    var c := b as int;
    if b == CR || b == NL then Turn([NL], r, false)
    else if b == NUL || b == FF then Turn([], r, false)
    else if Lead(c) && Trail(Next(r)) then
      Turn(EucText(ToJis(Pair(c, Next(r)))), Past(r), false)
    else if Lead(c) then Turn(Pair(c, Next(r)).Text(), Past(r), false)
    else if Hankata(c) && full then
      var w := zen(b, r);
      Turn(EucText(ToJis(w.pair)), r[w.taken..], false)
    else if Hankata(c) then Turn(Pair(SS2 as int, c).Text(), r, false)
    else Turn([b], r, false)
  }

  /** EUC is the 7-bit code with the high bits set. */
  function EucText(p: Pair): Bytes {
    Pair(p.p1 + 128, p.p2 + 128).Text()
  }

  /** shift2euc: the EUC text of a Shift-JIS stream. The code also prints the first byte of
      every character to the standard output, so when that is the output file (`mixed`) these
      bytes come between. */
  function Euc(s: Bytes, full: bool, zen: Widening, mixed: bool): Bytes
    decreases |s|
  {
    if s == [] then []
    else
      var t := EucTurn(s[0], s[1..], full, zen);
      Printed(s[0], mixed) + t.out + Euc(t.rest, full, zen, mixed)
  }

  function Printed(b: Byte, here: bool): Bytes {
    if here then [b] else []
  }

  /** What shift2euc prints to the standard output when that is another file. */
  function Strays(s: Bytes, full: bool, zen: Widening): Bytes
    decreases |s|
  {
    if s == [] then [] else [s[0]] + Strays(EucTurn(s[0], s[1..], full, zen).rest, full, zen)
  }

  /** SkipESCSeq: what follows an escape sequence, and the state it selects. */
  function Skipped(s: Bytes): (t: Turn)
    ensures |t.rest| <= |s|
  {
    var c := Next(s);
    Turn([], if c == 36 || c == 40 then Past(Past(s)) else Past(s), c == 75 || c == 36)
  }

  function UnsevenTurn(b: Byte, r: Bytes, shifted: bool): (t: Turn)
    ensures |t.rest| <= |r|
  {
    var c := b as int;
    if b == ESC then Skipped(r)
    else if b == FF then Turn([], r, shifted)
    else if shifted then Turn(ToSjis(Pair(c, Next(r) % 256)).Text(), Past(r), true)
    else Turn([b], r, false)
  }

  /** seven2shift: the Shift-JIS text of a 7-bit stream. */
  function Unseven(s: Bytes, shifted: bool): Bytes
    decreases |s|
  {
    if s == [] then []
    else
      var t := UnsevenTurn(s[0], s[1..], shifted);
      t.out + Unseven(t.rest, t.shifted)
  }

  function UneucTurn(b: Byte, r: Bytes, full: bool, zen: Widening): (t: Turn)
    ensures |t.rest| <= |r|
  {
    var c := b as int;
    if b == FF then Turn([], r, false)
    else if IsEuc(c) && IsEuc(Next(r)) then Turn(ToSjis(Pair(c - 128, Next(r) - 128)).Text(), Past(r), false)
    else if IsEuc(c) then Turn(Pair(c, Next(r)).Text(), Past(r), false)
    else if b == SS2 && Hankata(Next(r)) then
      if full then
        var w := zen(r[0], r[1..]);
        Turn(w.pair.Text(), r[1..][w.taken..], false)
      else Turn([r[0]], r[1..], false)
    else if b == SS2 then Turn(Pair(c, Next(r)).Text(), Past(r), false)
    else Turn([b], r, false)
  }

  /** euc2shift: the Shift-JIS text of an EUC stream. */
  function Uneuc(s: Bytes, full: bool, zen: Widening): Bytes
    decreases |s|
  {
    if s == [] then []
    else
      var t := UneucTurn(s[0], s[1..], full, zen);
      t.out + Uneuc(t.rest, full, zen)
  }

  lemma PrintedOnce(b: Byte, here: bool, before: Bytes)
    ensures before + Printed(b, !here) == if here then before else before + [b]
  {
  }

  // ---- the converters -----------------------------------------------------

  class Converter {
    const input: Bytes
    const zen: Widening
    /** Whether the output file is the standard output. */
    const toStdout: bool
    var pos: nat
    var out: Bytes
    /** The standard output, when it is another file. */
    var stdout: Bytes

    ghost predicate Valid()
      reads `pos
    {
      pos <= |input|
    }

    ghost function Rest(): Bytes
      requires Valid()
      reads `pos
    {
      input[pos..]
    }

    constructor (input: Bytes, zen: Widening, toStdout: bool)
      ensures Valid() && Rest() == input && out == [] && stdout == []
      ensures this.zen == zen && this.toStdout == toStdout
    {
      this.input, this.zen, this.toStdout, pos, out, stdout := input, zen, toStdout, 0, [], [];
    }

    method Getc() returns (c: int)
      requires Valid()
      modifies `pos
      ensures Valid() && c == Next(old(Rest())) && Rest() == Past(old(Rest()))
    {
      if pos == |input| {
        return EOF;
      }
      c := input[pos] as int;
      pos := pos + 1;
    }

    method Put(c: int)
      modifies `out
      ensures out == old(out) + [Low(c)]
    {
      out := out + [Low(c)];
    }

    /** `printf("%c", p1)` */
    method Print(c: Byte)
      modifies `out, `stdout
      ensures out == old(out) + Printed(c, toStdout) && stdout == old(stdout) + Printed(c, !toStdout)
    {
      if toStdout {
        out := out + [c];
      } else {
        stdout := stdout + [c];
      }
    }

    /** `fprintf(out, "%c%c", p1, p2)` */
    method Put2(p1: int, p2: int)
      modifies `out
      ensures out == old(out) + Pair(p1, p2).Text()
    {
      out := out + [Low(p1)] + [Low(p2)];
    }

    method Han2Zen(c: int) returns (p1: int, p2: int)
      requires Valid() && 0 <= c < 256
      modifies `pos
      ensures Valid()
      ensures var w := zen(c as Byte, old(Rest())); Pair(p1, p2) == w.pair && Rest() == old(Rest())[w.taken..]
    {
      var w := zen(c as Byte, input[pos..]);
      p1, p2 := w.pair.p1, w.pair.p2;
      pos := pos + w.taken;
    }

    /** SkipESCSeq */
    method SkipEscSeq(temp: int) returns (shiftedIn: bool)
      requires Valid()
      modifies `pos
      ensures Valid() && shiftedIn == (temp == 75 || temp == 36)
      ensures Rest() == if temp == 36 || temp == 40 then Past(old(Rest())) else old(Rest())
    {
      if temp == 36 || temp == 40 {
        var skipped := Getc();
      }
      shiftedIn := temp == 75 || temp == 36;
    }

    /** The test of `shifted_in` before anything is written in the other state. */
    method ReachState(shifted: bool, target: bool, code: Code) returns (shiftedIn: bool)
      modifies `out
      ensures out == old(out) + Reach(shifted, target, code) && shiftedIn == target
    {
      shiftedIn := target;
      if shifted && !target {
        out := out + KanjiOut(code);
      } else if !shifted && target {
        out := out + KanjiIn(code);
      }
    }

    method SevenStep(p1: int, shifted: bool, code: Code) returns (shiftedIn: bool)
      requires Valid() && 0 <= p1 < 256
      modifies this
      ensures Valid()
      ensures var t := SevenTurn(p1 as Byte, old(Rest()), shifted, code, zen);
              out == old(out) + t.out && Rest() == t.rest && shiftedIn == t.shifted
    {
      hide ToJis, Pair.Text, KanjiIn, KanjiOut, Reach;
      shiftedIn := shifted;
      if p1 == NUL as int || p1 == FF as int {
      } else if p1 == CR as int || p1 == NL as int {
        shiftedIn := ReachState(shiftedIn, false, code);
        Regroup(old(out), Reach(shifted, false, code), [NL]);
        Put(NL as int);
      } else if Lead(p1) {
        var q1 := p1;
        var p2 := Getc();
        if Trail(p2) {
          q1, p2 := Sjis2Jis(q1, p2);
          shiftedIn := ReachState(shiftedIn, true, code);
          Regroup(old(out), Reach(shifted, true, code), Pair(q1, p2).Text());
        }
        Put2(q1, p2);
      } else if Hankata(p1) {
        var q1, q2 := Han2Zen(p1);
        q1, q2 := Sjis2Jis(q1, q2);
        shiftedIn := ReachState(shiftedIn, true, code);
        Regroup(old(out), Reach(shifted, true, code), Pair(q1, q2).Text());
        Put2(q1, q2);
      } else {
        shiftedIn := ReachState(shiftedIn, false, code);
        Regroup(old(out), Reach(shifted, false, code), [Low(p1)]);
        Put(p1);
      }
    }

    method Shift2Seven(code: Code)
      requires Valid()
      modifies this
      ensures out == old(out) + Seven(old(Rest()), false, code, zen)
    {
      hide SevenTurn;
      var shiftedIn := false;
      ghost var all := out + Seven(Rest(), false, code, zen);
      while true
        invariant Valid() && all == out + Seven(Rest(), shiftedIn, code, zen)
        decreases |Rest()|
      {
        ghost var s, before, was := Rest(), out, shiftedIn;
        var p1 := Getc();
        if p1 == EOF {
          break;
        }
        assert s == [p1 as Byte] + Rest();
        shiftedIn := SevenStep(p1, shiftedIn, code);
        ghost var t := SevenTurn(s[0], s[1..], was, code, zen);
        Regroup(before, t.out, Seven(t.rest, t.shifted, code, zen));
      }
      if shiftedIn {
        out := out + KanjiOut(code);
      }
    }

    method EucStep(p1: int, toFullSize: bool)
      requires Valid() && 0 <= p1 < 256
      modifies `pos, `out
      ensures Valid()
      ensures var t := EucTurn(p1 as Byte, old(Rest()), toFullSize, zen);
              out == old(out) + t.out && Rest() == t.rest
    {
      hide ToJis, Pair.Text;
      if p1 == CR as int || p1 == NL as int {
        Put(NL as int);
      } else if p1 == NUL as int || p1 == FF as int {
      } else if Lead(p1) {
        var q1 := p1;
        var p2 := Getc();
        if Trail(p2) {
          q1, p2 := Sjis2Jis(q1, p2);
          q1 := q1 + 128;
          p2 := p2 + 128;
        }
        Put2(q1, p2);
      } else if Hankata(p1) {
        var q1, q2;
        if toFullSize {
          q1, q2 := Han2Zen(p1);
          q1, q2 := Sjis2Jis(q1, q2);
          q1 := q1 + 128;
          q2 := q2 + 128;
        } else {
          q2 := p1;
          q1 := SS2 as int;
        }
        Put2(q1, q2);
      } else {
        Put(p1);
      }
    }

    method Shift2Euc(toFullSize: bool)
      requires Valid()
      modifies this
      ensures out == old(out) + Euc(old(Rest()), toFullSize, zen, toStdout)
      ensures stdout == old(stdout) + (if toStdout then [] else Strays(old(Rest()), toFullSize, zen))
    {
      hide EucTurn, Printed;
      ghost var all := out + Euc(Rest(), toFullSize, zen, toStdout);
      ghost var strays := stdout + Strays(Rest(), toFullSize, zen);
      while true
        invariant Valid() && all == out + Euc(Rest(), toFullSize, zen, toStdout)
        invariant if toStdout then stdout == old(stdout) else strays == stdout + Strays(Rest(), toFullSize, zen)
        decreases |Rest()|
      {
        ghost var s, before, printed := Rest(), out, stdout;
        var p1 := Getc();
        if p1 == EOF {
          break;
        }
        assert s == [p1 as Byte] + Rest();
        Print(p1 as Byte);
        EucStep(p1, toFullSize);
        ghost var t := EucTurn(s[0], s[1..], toFullSize, zen);
        Regroup(before, Printed(s[0], toStdout), t.out);
        Regroup(before, Printed(s[0], toStdout) + t.out, Euc(t.rest, toFullSize, zen, toStdout));
        PrintedOnce(s[0], toStdout, printed);
        Regroup(printed, [s[0]], Strays(t.rest, toFullSize, zen));
      }
    }

    method UnsevenStep(p1: int, shifted: bool) returns (shiftedIn: bool)
      requires Valid() && 0 <= p1 < 256
      modifies this
      ensures Valid()
      ensures var t := UnsevenTurn(p1 as Byte, old(Rest()), shifted);
              out == old(out) + t.out && Rest() == t.rest && shiftedIn == t.shifted
    {
      hide ToSjis, Pair.Text;
      shiftedIn := shifted;
      if p1 == ESC as int {
        var temp := Getc();
        shiftedIn := SkipEscSeq(temp);
      } else if p1 == FF as int {
      } else if shiftedIn {
        var p2 := Getc();
        var q1, q2 := Jis2Sjis(p1, p2);
        Put2(q1, q2);
      } else {
        Put(p1);
      }
    }

    method Seven2Shift()
      requires Valid()
      modifies this
      ensures out == old(out) + Unseven(old(Rest()), false)
    {
      hide UnsevenTurn;
      var shiftedIn := false;
      ghost var all := out + Unseven(Rest(), false);
      while true
        invariant Valid() && all == out + Unseven(Rest(), shiftedIn)
        decreases |Rest()|
      {
        ghost var s, before, was := Rest(), out, shiftedIn;
        var p1 := Getc();
        if p1 == EOF {
          break;
        }
        assert s == [p1 as Byte] + Rest();
        shiftedIn := UnsevenStep(p1, shiftedIn);
        ghost var t := UnsevenTurn(s[0], s[1..], was);
        Regroup(before, t.out, Unseven(t.rest, t.shifted));
      }
    }

    method UneucStep(p1: int, toFullSize: bool)
      requires Valid() && 0 <= p1 < 256
      modifies this
      ensures Valid()
      ensures var t := UneucTurn(p1 as Byte, old(Rest()), toFullSize, zen);
              out == old(out) + t.out && Rest() == t.rest
    {
      hide ToSjis, Pair.Text;
      if p1 == FF as int {
      } else if IsEuc(p1) {
        var q1 := p1;
        var p2 := Getc();
        if IsEuc(p2) {
          q1 := q1 - 128;
          p2 := p2 - 128;
          q1, p2 := Jis2Sjis(q1, p2);
        }
        Put2(q1, p2);
      } else if p1 == SS2 as int {
        var p2 := Getc();
        if Hankata(p2) {
          if toFullSize {
            var q1, q2 := Han2Zen(p2);
            Put2(q1, q2);
          } else {
            Put(p2);
          }
        } else {
          Put2(p1, p2);
        }
      } else {
        Put(p1);
      }
    }

    method Euc2Shift(toFullSize: bool)
      requires Valid()
      modifies this
      ensures out == old(out) + Uneuc(old(Rest()), toFullSize, zen)
    {
      hide UneucTurn;
      ghost var all := out + Uneuc(Rest(), toFullSize, zen);
      while true
        invariant Valid() && all == out + Uneuc(Rest(), toFullSize, zen)
        decreases |Rest()|
      {
        ghost var s, before := Rest(), out;
        var p1 := Getc();
        if p1 == EOF {
          break;
        }
        assert s == [p1 as Byte] + Rest();
        UneucStep(p1, toFullSize);
        ghost var t := UneucTurn(s[0], s[1..], toFullSize, zen);
        Regroup(before, t.out, Uneuc(t.rest, toFullSize, zen));
      }
    }
  }

  // ---- round trips --------------------------------------------------------

  /** A Shift-JIS stream whose lead bytes are all followed by trail bytes. The escape
      character would be taken for a shift by a 7-bit code, and the bytes 240..254 for kanji
      by EUC. */
  predicate WellFormed(s: Bytes, euc: bool)
    decreases |s|
  {
    if s == [] then true
    else if Lead(s[0] as int) then |s| > 1 && Trail(s[1] as int) && WellFormed(s[2..], euc)
    else
      && (if euc then !(240 <= s[0] <= 254) else s[0] != 27)
      && WellFormed(s[1..], euc)
  }

  /** What survives of the first character of a stream. */
  function CleanedTurn(b: Byte, r: Bytes, full: bool, zen: Widening): (t: Turn)
    ensures |t.rest| <= |r|
  {
    var c := b as int;
    if b == NUL || b == FF then Turn([], r, false)
    else if b == CR then Turn([NL], r, false)
    else if Lead(c) && Trail(Next(r)) then Turn(Kept(Pair(c, Next(r))).Text(), Past(r), false)
    else if Hankata(c) && full then
      var w := zen(b, r);
      Turn(Kept(w.pair).Text(), r[w.taken..], false)
    else Turn([b], r, false)
  }

  /** What survives a conversion and its inverse: NUL and form feed are dropped, a carriage
      return becomes a newline, a trail byte 127 becomes 128, and katakana may be widened. */
  function Cleaned(s: Bytes, full: bool, zen: Widening): Bytes
    decreases |s|
  {
    if s == [] then []
    else
      var t := CleanedTurn(s[0], s[1..], full, zen);
      t.out + Cleaned(t.rest, full, zen)
  }

  /** The streams a conversion and its inverse leave alone. */
  predicate Clean(s: Bytes, full: bool)
    decreases |s|
  {
    if s == [] then true
    else if Lead(s[0] as int) then |s| > 1 && s[1] != 127 && Clean(s[2..], full)
    else s[0] !in [0, 12, 13] && !(full && Hankata(s[0] as int)) && Clean(s[1..], full)
  }

  lemma RestWellFormed(s: Bytes, full: bool, euc: bool, zen: Widening)
    requires s != [] && WellFormed(s, euc) && TakesMarks(zen)
    ensures WellFormed(CleanedTurn(s[0], s[1..], full, zen).rest, euc)
  {
    var w := zen(s[0], s[1..]);
    if Lead(s[0] as int) {
      assert s[1..][1..] == s[2..];
    } else if w.taken == 1 {
      assert s[1..][1..] == s[1..][w.taken..];
    } else {
      assert s[1..][w.taken..] == s[1..];
    }
  }

  lemma SkipIn(code: Code, r: Bytes, shifted: bool)
    ensures Unseven(KanjiIn(code) + r, shifted) == Unseven(r, true)
  {
    var s := KanjiIn(code) + r;
    assert s[1..] == KanjiIn(code)[1..] + r;
    if code != Nec {
      assert s[1..][1..][1..] == r;
    } else {
      assert s[1..][1..] == r;
    }
  }

  lemma SkipOut(code: Code, r: Bytes, shifted: bool)
    ensures Unseven(KanjiOut(code) + r, shifted) == Unseven(r, false)
  {
    var s := KanjiOut(code) + r;
    assert s[1..] == KanjiOut(code)[1..] + r;
    if code != Nec {
      assert s[1..][1..][1..] == r;
    } else {
      assert s[1..][1..] == r;
    }
  }

  /** The escape sequences bring the reader to the state the writer chose. */
  lemma SkipReach(shifted: bool, target: bool, code: Code, r: Bytes)
    ensures Unseven(Reach(shifted, target, code) + r, shifted) == Unseven(r, target)
  {
    hide Unseven;
    SkipIn(code, r, shifted);
    SkipOut(code, r, shifted);
    assert [] + r == r;
  }

  lemma UnsevenPair(p: Pair, r: Bytes)
    requires p.Shifted()
    ensures Unseven(ToJis(p).Text() + r, true) == Kept(p).Text() + Unseven(r, true)
  {
    hide ToJis, ToSjis, Kept;
    var q := ToJis(p);
    ThereAndBack(p);
    var s := q.Text() + r;
    var after := s[1..];
    assert s[0] == Low(q.p1) && after[0] == Low(q.p2) && after[1..] == r;
    UnsevenShifted(q, after);
  }

  lemma UnsevenShifted(q: Pair, after: Bytes)
    requires q.Seven() && after != [] && after[0] == Low(q.p2)
    ensures UnsevenTurn(Low(q.p1), after, true) == Turn(ToSjis(q).Text(), after[1..], true)
  {
    hide ToSjis, Pair.Text;
    assert Pair(Low(q.p1) as int, Next(after) % 256) == q;
  }

  lemma UnsevenPlain(c: Byte, r: Bytes)
    requires c != ESC && c != FF
    ensures Unseven([c] + r, false) == [c] + Unseven(r, false)
  {
    assert ([c] + r)[1..] == r;
  }

  /** What a turn of shift2seven writes, seven2shift reads back. */
  lemma SevenTurnBack(s: Bytes, shifted: bool, code: Code, zen: Widening, r: Bytes)
    requires s != [] && WellFormed(s, false)
    ensures var t, u := SevenTurn(s[0], s[1..], shifted, code, zen), CleanedTurn(s[0], s[1..], true, zen);
            u.rest == t.rest && Unseven(t.out + r, shifted) == u.out + Unseven(r, t.shifted)
  {
    hide Unseven, ToJis, KanjiIn, KanjiOut, Reach, Kept, Pair.Text;
    var t := SevenTurn(s[0], s[1..], shifted, code, zen);
    var c := s[0] as int;
    if s[0] == NUL || s[0] == FF {
      assert [] + r == r;
    } else if Lead(c) || Hankata(c) {
      var p := if Lead(c) then Pair(c, Next(s[1..])) else zen(s[0], s[1..]).pair;
      Regroup(Reach(shifted, true, code), ToJis(p).Text(), r);
      SkipReach(shifted, true, code, ToJis(p).Text() + r);
      UnsevenPair(p, r);
    } else {
      var plain := if s[0] == CR then NL else s[0];
      Regroup(Reach(shifted, false, code), [plain], r);
      SkipReach(shifted, false, code, [plain] + r);
      UnsevenPlain(plain, r);
    }
  }

  /** 7-bit JIS and back, for the three pairs of escape sequences. */
  lemma {:induction false} SevenBack(s: Bytes, shifted: bool, code: Code, zen: Widening)
    requires WellFormed(s, false) && TakesMarks(zen)
    ensures Unseven(Seven(s, shifted, code, zen), shifted) == Cleaned(s, true, zen)
    decreases |s|
  {
    hide Unseven, WellFormed, CleanedTurn, SevenTurn, Reach;
    if s == [] {
      SkipReach(shifted, false, code, []);
      assert Reach(shifted, false, code) + [] == Reach(shifted, false, code);
      UnsevenNothing();
    } else {
      var t := SevenTurn(s[0], s[1..], shifted, code, zen);
      RestWellFormed(s, true, false, zen);
      SevenTurnBack(s, shifted, code, zen, Seven(t.rest, t.shifted, code, zen));
      SevenBack(t.rest, t.shifted, code, zen);
    }
  }

  lemma UnsevenNothing()
    ensures Unseven([], false) == []
  {
  }

  /** What a turn of shift2euc writes, euc2shift reads back. */
  lemma EucTurnBack(s: Bytes, full: bool, zen: Widening, zen': Widening, r: Bytes)
    requires s != [] && WellFormed(s, true)
    ensures var t, u := EucTurn(s[0], s[1..], full, zen), CleanedTurn(s[0], s[1..], full, zen);
            u.rest == t.rest && Uneuc(t.out + r, false, zen') == u.out + Uneuc(r, false, zen')
  {
    hide ToJis, Kept, Uneuc, EucText, Pair.Text;
    var c := s[0] as int;
    if s[0] == NUL || s[0] == FF {
      assert [] + r == r;
    } else if Lead(c) || (Hankata(c) && full) {
      UneucPair(if Lead(c) then Pair(c, Next(s[1..])) else zen(s[0], s[1..]).pair, r, zen');
    } else if Hankata(c) {
      UneucHalf(s[0], r, zen');
    } else {
      UneucPlain(if s[0] == CR then NL else s[0], r, zen');
    }
  }

  lemma UneucPair(p: Pair, r: Bytes, zen: Widening)
    requires p.Shifted()
    ensures Uneuc(EucText(ToJis(p)) + r, false, zen) == Kept(p).Text() + Uneuc(r, false, zen)
  {
    hide ToJis, ToSjis, Kept;
    var q := ToJis(p);
    ThereAndBack(p);
    var s := EucText(q) + r;
    var after := s[1..];
    EucTextIs(q);
    assert s[0] == Low(q.p1 + 128) && after[0] == Low(q.p2 + 128) && after[1..] == r;
    UneucHigh(q, after, zen);
  }

  lemma UneucHigh(q: Pair, after: Bytes, zen: Widening)
    requires q.Seven() && after != [] && after[0] == Low(q.p2 + 128)
    ensures UneucTurn(Low(q.p1 + 128), after, false, zen) == Turn(ToSjis(q).Text(), after[1..], false)
  {
    hide ToSjis, Pair.Text;
    assert Pair(Low(q.p1 + 128) as int - 128, Next(after) - 128) == q;
  }

  lemma UneucHalf(c: Byte, r: Bytes, zen: Widening)
    requires Hankata(c as int)
    ensures Uneuc(Pair(SS2 as int, c as int).Text() + r, false, zen) == [c] + Uneuc(r, false, zen)
  {
    var s := Pair(SS2 as int, c as int).Text() + r;
    assert s[0] == SS2 && s[1..][0] == c && s[1..][1..] == r;
  }

  lemma UneucPlain(c: Byte, r: Bytes, zen: Widening)
    requires !IsEuc(c as int) && c != SS2 && c != FF
    ensures Uneuc([c] + r, false, zen) == [c] + Uneuc(r, false, zen)
  {
    assert ([c] + r)[1..] == r;
  }

  /** EUC and back; half-width katakana is kept unless it was widened on the way. */
  lemma {:induction false} EucBack(s: Bytes, full: bool, zen: Widening, zen': Widening)
    requires WellFormed(s, true) && TakesMarks(zen)
    ensures Uneuc(Euc(s, full, zen, false), false, zen') == Cleaned(s, full, zen)
    decreases |s|
  {
    hide WellFormed, CleanedTurn, EucTurn, UneucTurn;
    if s != [] {
      var t := EucTurn(s[0], s[1..], full, zen);
      RestWellFormed(s, full, true, zen);
      assert Printed(s[0], false) + t.out == t.out;
      EucTurnBack(s, full, zen, zen', Euc(t.rest, full, zen, false));
      EucBack(t.rest, full, zen, zen');
    }
  }

  /** Control characters do not survive. */
  lemma {:induction false} CleanedBytes(s: Bytes, full: bool, zen: Widening)
    ensures forall c :: c in Cleaned(s, full, zen) ==> c !in [NUL, FF, CR]
    decreases |s|
  {
    hide Kept;
    if s != [] {
      CleanedUnit(s, full, zen);
      CleanedBytes(CleanedTurn(s[0], s[1..], full, zen).rest, full, zen);
    }
  }

  lemma CleanedUnit(s: Bytes, full: bool, zen: Widening)
    requires s != []
    ensures forall c :: c in CleanedTurn(s[0], s[1..], full, zen).out ==> c !in [NUL, FF, CR]
  {
  }

  /** A stream comes back unchanged exactly when it is clean. */
  lemma {:induction false} CleanedIsSame(s: Bytes, full: bool, euc: bool, zen: Widening)
    requires WellFormed(s, euc)
    ensures Cleaned(s, full, zen) == s <==> Clean(s, full)
    decreases |s|
  {
    hide CleanedTurn, Kept, Cleaned;
    CleanedNext(s, full, zen);
    if s != [] {
      if s[0] in [NUL, FF, CR] {
        CleanedBytes(s, full, zen);
      } else if Lead(s[0] as int) {
        LeadTurn(s, full, zen);
        CleanedIsSame(s[2..], full, euc, zen);
        LeadSame(s[0], s[1], if s[1] == 127 then 128 else s[1], s, Cleaned(s[2..], full, zen));
      } else if Hankata(s[0] as int) && full {
        WideTurn(s, zen);
      } else {
        PlainTurn(s, full, zen);
        CleanedIsSame(s[1..], full, euc, zen);
        SameTail([s[0]], s[1..], [s[0]], Cleaned(s[1..], full, zen));
      }
    }
  }

  lemma CleanedNext(s: Bytes, full: bool, zen: Widening)
    ensures Cleaned(s, full, zen) ==
            if s == [] then [] else
            var t := CleanedTurn(s[0], s[1..], full, zen); t.out + Cleaned(t.rest, full, zen)
  {
  }

  lemma LeadSame(a: Byte, b: Byte, kept: Byte, s: Bytes, r: Bytes)
    requires |s| >= 2 && s[0] == a && s[1] == b
    ensures [a, kept] + r == s <==> b == kept && r == s[2..]
  {
    assert s == [a, b] + s[2..];
    SameTail([a, kept], r, [a, b], s[2..]);
  }

  lemma LeadTurn(s: Bytes, full: bool, zen: Widening)
    requires |s| > 1 && Lead(s[0] as int) && Trail(s[1] as int)
    ensures CleanedTurn(s[0], s[1..], full, zen) == Turn([s[0], if s[1] == 127 then 128 else s[1]], s[2..], false)
  {
    assert s[1..][1..] == s[2..];
  }

  lemma WideTurn(s: Bytes, zen: Widening)
    requires s != [] && Hankata(s[0] as int)
    ensures var out := CleanedTurn(s[0], s[1..], true, zen).out; out != [] && out[0] != s[0]
  {
  }

  lemma PlainTurn(s: Bytes, full: bool, zen: Widening)
    requires s != [] && s[0] !in [NUL, FF, CR] && !Lead(s[0] as int) && !(Hankata(s[0] as int) && full)
    ensures CleanedTurn(s[0], s[1..], full, zen) == Turn([s[0]], s[1..], false)
  {
  }

  lemma SameTail(a: Bytes, b: Bytes, a': Bytes, b': Bytes)
    requires |a| == |a'|
    ensures a + b == a' + b' <==> a == a' && b == b'
  {
    if a + b == a' + b' {
      assert a == (a + b)[..|a|] && a' == (a' + b')[..|a|];
      assert b == (a + b)[|a|..] && b' == (a' + b')[|a|..];
    }
  }

  // ---- when the output is the standard output -----------------------------

  /** The bytes of a stream other than form feeds, and its bytes 142. */
  function Weight(s: Bytes): nat {
    if s == [] then 0 else (if s[0] == FF then 0 else 1) + Weight(s[1..])
  }

  function Marks(s: Bytes): nat {
    if s == [] then 0 else (if s[0] == SS2 then 1 else 0) + Marks(s[1..])
  }

  lemma {:induction false} WeightJoin(a: Bytes, b: Bytes)
    ensures Weight(a + b) == Weight(a) + Weight(b) && Marks(a + b) == Marks(a) + Marks(b)
    decreases |a|
  {
    if a == [] {
      assert a + b == b;
    } else {
      assert (a + b)[1..] == a[1..] + b;
      WeightJoin(a[1..], b);
    }
  }

  lemma Weight1(a: Byte)
    ensures Weight([a]) == (if a == FF then 0 else 1) && Marks([a]) == (if a == SS2 then 1 else 0)
  {
  }

  lemma Weight2(a: Byte, b: Byte)
    ensures Weight([a, b]) == Weight([a]) + Weight([b]) && Marks([a, b]) == Marks([a]) + Marks([b])
  {
    WeightJoin([a], [b]);
    assert [a] + [b] == [a, b];
  }

  lemma Weight3(a: Byte, p: Bytes)
    ensures Weight([a] + p) == Weight([a]) + Weight(p) && Marks([a] + p) == Marks([a]) + Marks(p)
  {
    WeightJoin([a], p);
  }

  /** One turn of euc2shift loses at most a byte 142. */
  lemma UneucWeight(b: Byte, r: Bytes, zen: Widening)
    ensures var u := UneucTurn(b, r, false, zen);
            Weight(u.out) + Weight(u.rest) + Marks([b] + r) >= Weight([b] + r) + Marks(u.rest)
  {
    hide Weight, Marks, ToSjis;
    var u, c := UneucTurn(b, r, false, zen), b as int;
    Weight3(b, r);
    Weight1(b);
    Nothing();
    if r != [] {
      assert r == [r[0]] + r[1..];
      Weight3(r[0], r[1..]);
      Weight1(r[0]);
      Weight2(b, r[0]);
      if IsEuc(c) && IsEuc(r[0] as int) {
        SjisWeight(Pair(c - 128, r[0] as int - 128));
      }
    } else {
      Weight2(b, Low(EOF));
    }
  }

  lemma Nothing()
    ensures Weight([]) == 0 && Marks([]) == 0
  {
  }

  lemma SjisWeight(p: Pair)
    requires p.Seven()
    ensures Weight(ToSjis(p).Text()) == 2
  {
    BackAndThere(p);
    var q := ToSjis(p);
    Weight2(Low(q.p1), Low(q.p2));
    Weight1(Low(q.p1));
    Weight1(Low(q.p2));
  }

  lemma {:induction false} UneucKeepsWeight(s: Bytes, zen: Widening)
    ensures Weight(Uneuc(s, false, zen)) + Marks(s) >= Weight(s)
    decreases |s|
  {
    hide Weight, Marks, UneucTurn;
    Nothing();
    if s != [] {
      var u := UneucTurn(s[0], s[1..], false, zen);
      assert s == [s[0]] + s[1..];
      UneucWeight(s[0], s[1..], zen);
      UneucKeepsWeight(u.rest, zen);
      WeightJoin(u.out, Uneuc(u.rest, false, zen));
    }
  }

  /** A stream of nothing but NUL, form feeds and characters behind lead byte 142. */
  predicate Quiet(s: Bytes)
    decreases |s|
  {
    if s == [] then true
    else if s[0] == SS2 then |s| > 1 && Quiet(s[2..])
    else (s[0] == NUL || s[0] == FF) && Quiet(s[1..])
  }

  /** Every turn of shift2euc adds a byte, if its strays come between, but for those. */
  lemma EucWeight(s: Bytes, full: bool, zen: Widening)
    requires s != [] && WellFormed(s, true) && TakesMarks(zen)
    ensures var t := EucTurn(s[0], s[1..], full, zen); var out := [s[0]] + t.out;
            Weight(out) + Weight(t.rest) >=
            Weight(s) + Marks(out) + (if s[0] in [NUL, FF, SS2] then 0 else 1)
  {
    hide Weight, Marks, ToJis, WellFormed;
    var b, r := s[0], s[1..];
    var t, c := EucTurn(b, r, full, zen), b as int;
    LeadFollowed(s);
    Nothing();
    assert s == [b] + r;
    Weight3(b, r);
    Weight3(b, t.out);
    Weight1(b);
    Weight1(NL);
    Weight2(SS2, b);
    Weight1(SS2);
    if Lead(c) {
      assert r == [r[0]] + r[1..];
      Weight3(r[0], r[1..]);
      Weight1(r[0]);
      EucTextWeight(ToJis(Pair(c, r[0] as int)));
    } else if Hankata(c) && full {
      var w := zen(b, r);
      EucTextWeight(ToJis(w.pair));
      TakenWeight(r, w.taken);
    }
  }

  lemma LeadFollowed(s: Bytes)
    requires s != [] && WellFormed(s, true)
    ensures Lead(s[0] as int) ==> |s| > 1 && Trail(s[1] as int)
    ensures !Lead(s[0] as int) ==> s[0] != SS2
  {
  }

  lemma TakenWeight(r: Bytes, taken: nat)
    requires taken <= 1 && taken <= |r|
    ensures Weight(r) <= 1 + Weight(r[taken..])
  {
    if taken == 0 {
      assert r[0..] == r;
    }
  }

  lemma EucTextWeight(p: Pair)
    requires p.Seven()
    ensures Weight(EucText(p)) == 2 && Marks(EucText(p)) == 0
  {
    var a, b := Low(p.p1 + 128), Low(p.p2 + 128);
    Weight2(a, b);
    Weight1(a);
    Weight1(b);
  }

  lemma {:induction false} MixedWeight(s: Bytes, full: bool, zen: Widening)
    requires WellFormed(s, true) && TakesMarks(zen)
    ensures var e := Euc(s, full, zen, true);
            Weight(e) >= Weight(s) + Marks(e) + (if Quiet(s) then 0 else 1)
    decreases |s|
  {
    hide Weight, Marks, EucTurn, WellFormed, CleanedTurn, TakesMarks;
    Nothing();
    if s != [] {
      var t := EucTurn(s[0], s[1..], full, zen);
      EucWeight(s, full, zen);
      EucRest(s, full, zen);
      MixedWeight(t.rest, full, zen);
      WeightJoin(Printed(s[0], true) + t.out, Euc(t.rest, full, zen, true));
    }
  }

  lemma EucRest(s: Bytes, full: bool, zen: Widening)
    requires s != [] && WellFormed(s, true) && TakesMarks(zen)
    ensures var t := EucTurn(s[0], s[1..], full, zen);
            WellFormed(t.rest, true) &&
            (s[0] in [NUL, FF, SS2] ==> (Quiet(s) <==> Quiet(t.rest)))
  {
    RestWellFormed(s, full, true, zen);
    if s[0] == SS2 {
      assert s[1..][1..] == s[2..];
    }
  }

  /** Nothing that euc2shift writes begins with a form feed. */
  lemma {:induction false} NoFeedFirst(s: Bytes, zen: Widening)
    ensures var u := Uneuc(s, false, zen); u != [] ==> u[0] != FF
    decreases |s|
  {
    hide ToSjis;
    if s != [] {
      var c := s[0] as int;
      if s[0] == FF {
        NoFeedFirst(s[1..], zen);
      } else if IsEuc(c) && IsEuc(Next(s[1..])) {
        BackAndThere(Pair(c - 128, Next(s[1..]) - 128));
      }
    }
  }

  lemma EucTextIs(p: Pair)
    ensures EucText(p) == [Low(p.p1 + 128), Low(p.p2 + 128)]
  {
  }

  /** What the strays make of a character behind lead byte 142 is read as katakana. */
  lemma LeadSplit(s: Bytes, full: bool, zen: Widening, zen': Widening)
    requires |s| > 1 && s[0] == SS2 && Trail(s[1] as int)
    ensures var u := Uneuc(Euc(s, full, zen, true), false, zen'); u != [] && u[0] != SS2
  {
    hide ToSjis, Pair.Text, EucText;
    var q := ToJis(Pair(142, s[1] as int));
    assert 59 <= q.p1 <= 60;
    hide ToJis;
    var t := EucTurn(s[0], s[1..], full, zen);
    var after := EucText(q) + Euc(t.rest, full, zen, true);
    assert Printed(SS2, true) + EucText(q) + Euc(t.rest, full, zen, true) == [SS2] + after;
    EucTextIs(q);
    SplitRead(Low(q.p1 + 128), after, zen');
  }

  lemma SplitRead(c: Byte, after: Bytes, zen: Widening)
    requires after != [] && after[0] == c && Hankata(c as int)
    ensures var u := Uneuc([SS2] + after, false, zen); u != [] && u[0] == c
  {
    var s := [SS2] + after;
    assert s[1..] == after;
  }

  lemma NulFirst(s: Bytes, full: bool, zen: Widening, zen': Widening)
    requires s != [] && s[0] == NUL
    ensures Uneuc(Euc(s, full, zen, true), false, zen') == [NUL] + Uneuc(Euc(s[1..], full, zen, true), false, zen')
  {
    var e := Euc(s[1..], full, zen, true);
    assert Euc(s, full, zen, true) == [NUL] + e;
    UneucPlain(NUL, e, zen');
  }

  predicate AllNul(s: Bytes) {
    forall i :: 0 <= i < |s| ==> s[i] == NUL
  }

  /** When shift2euc writes to the standard output, its strays spoil every stream that is not
      made of NUL alone, and those come back, because of them. */
  lemma {:induction false} MixedIsSame(s: Bytes, full: bool, zen: Widening, zen': Widening)
    requires WellFormed(s, true) && TakesMarks(zen)
    ensures Uneuc(Euc(s, full, zen, true), false, zen') == s <==> AllNul(s)
    decreases |s|
  {
    hide Uneuc, Euc, WellFormed, TakesMarks;
    var e := Euc(s, full, zen, true);
    if s == [] {
      MixedNothing(full, zen, zen');
    } else if s[0] == NUL {
      NulFirst(s, full, zen, zen');
      RestWellFormed(s, full, true, zen);
      MixedIsSame(s[1..], full, zen, zen');
      assert s == [NUL] + s[1..];
      SameTail([NUL], Uneuc(Euc(s[1..], full, zen, true), false, zen'), [NUL], s[1..]);
      assert AllNul(s) <==> AllNul(s[1..]) by {
        assert forall i :: 0 < i < |s| ==> s[i] == s[1..][i - 1];
        assert forall i :: 0 <= i < |s[1..]| ==> s[1..][i] == s[i + 1];
      }
    } else {
      MixedWeight(s, full, zen);
      UneucKeepsWeight(e, zen');
      NoFeedFirst(e, zen');
      LeadFollowed(s);
      if s[0] == SS2 {
        LeadSplit(s, full, zen, zen');
      }
    }
  }

  lemma MixedNothing(full: bool, zen: Widening, zen': Widening)
    ensures Uneuc(Euc([], full, zen, true), false, zen') == []
  {
  }

  /** Through 7-bit JIS and back a well-formed stream is unchanged exactly when it is clean
      and has no half-width katakana. */
  method ThroughSeven(s: Bytes, code: Code, zen: Widening) returns (back: Bytes)
    requires WellFormed(s, false) && TakesMarks(zen)
    ensures back == Cleaned(s, true, zen)
    ensures back == s <==> Clean(s, true)
  {
    hide *;
    var there := new Converter(s, zen, false);
    there.Shift2Seven(code);
    assert there.out == Seven(s, false, code, zen);
    var again := new Converter(there.out, zen, false);
    again.Seven2Shift();
    assert again.out == Unseven(there.out, false);
    back := again.out;
    SevenBack(s, false, code, zen);
    CleanedIsSame(s, true, false, zen);
  }

  /** Through EUC and back. With an output file of its own a well-formed stream is unchanged
      exactly when it is clean; through the standard output, exactly when it is all NUL. */
  method ThroughEuc(s: Bytes, toFullSize: bool, zen: Widening, zen': Widening, toStdout: bool) returns (back: Bytes)
    requires WellFormed(s, true) && TakesMarks(zen)
    ensures !toStdout ==> back == Cleaned(s, toFullSize, zen)
    ensures back == s <==> if toStdout then AllNul(s) else Clean(s, toFullSize)
  {
    hide *;
    var there := new Converter(s, zen, toStdout);
    there.Shift2Euc(toFullSize);
    assert there.out == Euc(s, toFullSize, zen, toStdout);
    var again := new Converter(there.out, zen', false);
    again.Euc2Shift(false);
    assert again.out == Uneuc(there.out, false, zen');
    back := again.out;
    EucBack(s, toFullSize, zen, zen');
    CleanedIsSame(s, toFullSize, true, zen);
    MixedIsSame(s, toFullSize, zen, zen');
  }
}
