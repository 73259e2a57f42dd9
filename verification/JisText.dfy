/** The texts that the kanji converters write, byte by byte (convert/jis/jis.c), against
    readers that know nothing of the converters. */
module JisText {
  import opened Bytes
  import opened Jis

  // ---- rows and cells -----------------------------------------------------

  predicate Less(p: Pair, q: Pair) {
    p.p1 < q.p1 || (p.p1 == q.p1 && p.p2 < q.p2)
  }

  /** The code keeps the order of characters. As it is one to one on the 94 * 94 pairs of
      bytes 33..126, no other code does. */
  lemma CodeOrder(p: Pair, q: Pair)
    requires p.Shifted() && q.Shifted() && p.p2 != 127 && q.p2 != 127
    ensures Less(p, q) <==> Less(ToJis(p), ToJis(q))
  {
  }

  // ---- 7-bit JIS ----------------------------------------------------------

  function Prepend(a: Bytes, r: Option<Bytes>): Option<Bytes> {
    match r
    case None => None
    case Some(b) => Some(a + b)
  }

  /** A strict reader of 7-bit text: it takes one escape sequence to kanji and one back, pairs
      of bytes 33..126 in between, and wants the text to end outside of kanji. */
  function Read7(s: Bytes, kanji: bool, into: Bytes, back: Bytes): Option<Bytes>
    requires into != [] && back != []
    decreases |s|
  {
    if s == [] then if kanji then None else Some([])
    else if s[0] == 27 then
      var e := if kanji then back else into;
      if e <= s then Read7(s[|e|..], !kanji, into, back) else None
    else if kanji then
      if |s| >= 2 && 33 <= s[0] <= 126 && 33 <= s[1] <= 126 then
        Prepend(ToSjis(Pair(s[0] as int, s[1] as int)).Text(), Read7(s[2..], true, into, back))
      else None
    else Prepend([s[0]], Read7(s[1..], false, into, back))
  }

  lemma EscapesStart(code: Code)
    ensures KanjiIn(code) != [] && KanjiIn(code)[0] == 27 && KanjiOut(code) != [] && KanjiOut(code)[0] == 27
  {
  }

  lemma ReadReach(r: Bytes, kanji: bool, target: bool, code: Code)
    ensures KanjiIn(code) != [] && KanjiOut(code) != []
    ensures Read7(Reach(kanji, target, code) + r, kanji, KanjiIn(code), KanjiOut(code)) ==
            Read7(r, target, KanjiIn(code), KanjiOut(code))
  {
    hide KanjiIn, KanjiOut;
    EscapesStart(code);
    var e := Reach(kanji, target, code);
    assert (e + r)[|e|..] == r;
    if e == [] {
      assert e + r == r;
    } else {
      assert e <= e + r;
    }
  }

  lemma ReadPair(p: Pair, r: Bytes, into: Bytes, back: Bytes)
    requires p.Shifted() && into != [] && back != []
    ensures Read7(ToJis(p).Text() + r, true, into, back) == Prepend(Kept(p).Text(), Read7(r, true, into, back))
  {
    hide ToJis, ToSjis, Kept;
    var q := ToJis(p);
    ThereAndBack(p);
    var s := q.Text() + r;
    assert s[0] == Low(q.p1) && s[1] == Low(q.p2) && s[2..] == r;
    assert Pair(s[0] as int, s[1] as int) == q;
  }

  lemma ReadPlain(c: Byte, r: Bytes, into: Bytes, back: Bytes)
    requires c != 27 && into != [] && back != []
    ensures Read7([c] + r, false, into, back) == Prepend([c], Read7(r, false, into, back))
  {
    assert ([c] + r)[1..] == r;
  }

  lemma PrependNothing(r: Option<Bytes>)
    ensures Prepend([], r) == r
  {
    if r.Some? {
      assert [] + r.value == r.value;
    }
  }

  lemma ReadTurn(s: Bytes, kanji: bool, code: Code, zen: Widening, r: Bytes)
    requires s != [] && WellFormed(s, false)
    ensures var t, u := SevenTurn(s[0], s[1..], kanji, code, zen), CleanedTurn(s[0], s[1..], true, zen);
            KanjiIn(code) != [] && KanjiOut(code) != [] && u.rest == t.rest &&
            Read7(t.out + r, kanji, KanjiIn(code), KanjiOut(code)) ==
            Prepend(u.out, Read7(r, t.shifted, KanjiIn(code), KanjiOut(code)))
  {
    hide Read7, ToJis, KanjiIn, KanjiOut, Reach, Kept, Pair.Text, Prepend;
    EscapesStart(code);
    var into, back, c := KanjiIn(code), KanjiOut(code), s[0] as int;
    if s[0] == NUL || s[0] == FF {
      assert [] + r == r;
      PrependNothing(Read7(r, kanji, into, back));
    } else if Lead(c) || Hankata(c) {
      var p := if Lead(c) then Pair(c, Next(s[1..])) else zen(s[0], s[1..]).pair;
      Regroup(Reach(kanji, true, code), ToJis(p).Text(), r);
      ReadReach(ToJis(p).Text() + r, kanji, true, code);
      ReadPair(p, r, into, back);
    } else {
      var plain := if s[0] == CR then NL else s[0];
      Regroup(Reach(kanji, false, code), [plain], r);
      ReadReach([plain] + r, kanji, false, code);
      ReadPlain(plain, r, into, back);
    }
  }

  lemma {:induction false} ReadSeven(s: Bytes, kanji: bool, code: Code, zen: Widening)
    requires WellFormed(s, false) && TakesMarks(zen)
    ensures KanjiIn(code) != [] && KanjiOut(code) != []
    ensures Read7(Seven(s, kanji, code, zen), kanji, KanjiIn(code), KanjiOut(code)) == Some(Cleaned(s, true, zen))
    decreases |s|
  {
    hide Read7, WellFormed, CleanedTurn, SevenTurn, Reach, KanjiIn, KanjiOut;
    EscapesStart(code);
    if s == [] {
      ReadReach([], kanji, false, code);
      assert Reach(kanji, false, code) + [] == Reach(kanji, false, code);
      ReadNothing(KanjiIn(code), KanjiOut(code));
    } else {
      var t := SevenTurn(s[0], s[1..], kanji, code, zen);
      RestWellFormed(s, true, false, zen);
      ReadTurn(s, kanji, code, zen, Seven(t.rest, t.shifted, code, zen));
      ReadSeven(t.rest, t.shifted, code, zen);
    }
  }

  lemma ReadNothing(into: Bytes, back: Bytes)
    requires into != [] && back != []
    ensures Read7([], false, into, back) == Some([])
  {
  }

  /** The strict reader, given the two escape sequences of a code and no others, takes all
      that shift2seven writes for that code: ESC $ B and ESC ( J for New-JIS, ESC $ @ and
      ESC ( J for Old-JIS, ESC K and ESC H for NEC. */
  lemma SevenText(s: Bytes, zen: Widening)
    requires WellFormed(s, false) && TakesMarks(zen)
    ensures Read7(Seven(s, false, New, zen), false, [27, 36, 66], [27, 40, 74]) == Some(Cleaned(s, true, zen))
    ensures Read7(Seven(s, false, Old, zen), false, [27, 36, 64], [27, 40, 74]) == Some(Cleaned(s, true, zen))
    ensures Read7(Seven(s, false, Nec, zen), false, [27, 75], [27, 72]) == Some(Cleaned(s, true, zen))
  {
    hide Read7, Seven, Cleaned, WellFormed;
    ReadSeven(s, false, New, zen);
    ReadSeven(s, false, Old, zen);
    ReadSeven(s, false, Nec, zen);
  }

  /** shift2seven, by what such a reader makes of its output. */
  method WriteSeven(s: Bytes, code: Code, zen: Widening) returns (out: Bytes)
    requires WellFormed(s, false) && TakesMarks(zen)
    ensures var r := match code
                     case New => Read7(out, false, [27, 36, 66], [27, 40, 74])
                     case Old => Read7(out, false, [27, 36, 64], [27, 40, 74])
                     case Nec => Read7(out, false, [27, 75], [27, 72]);
            r == Some(Cleaned(s, true, zen))
  {
    hide Read7, Seven, Cleaned, WellFormed;
    var conv := new Converter(s, zen, false);
    conv.Shift2Seven(code);
    out := conv.out;
    assert out == Seven(s, false, code, zen);
    SevenText(s, zen);
  }

  // ---- EUC ----------------------------------------------------------------

  /** A strict reader of EUC: two bytes 161..254 are a character, byte 142 goes before one of
      half-width katakana, and the bytes below 128, 128, 160 and 255 stand for themselves. */
  function ReadEuc(s: Bytes): Option<Bytes>
    decreases |s|
  {
    if s == [] then Some([])
    else if 161 <= s[0] <= 254 then
      if |s| >= 2 && 161 <= s[1] <= 254 then
        Prepend(ToSjis(Pair(s[0] as int - 128, s[1] as int - 128)).Text(), ReadEuc(s[2..]))
      else None
    else if s[0] == 142 then
      if |s| >= 2 && 161 <= s[1] <= 223 then Prepend([s[1]], ReadEuc(s[2..])) else None
    else if s[0] < 128 || s[0] == 128 || s[0] == 160 || s[0] == 255 then Prepend([s[0]], ReadEuc(s[1..]))
    else None
  }

  lemma EucPair(p: Pair, r: Bytes)
    requires p.Shifted()
    ensures ReadEuc(EucText(ToJis(p)) + r) == Prepend(Kept(p).Text(), ReadEuc(r))
  {
    hide ToJis, ToSjis, Kept, EucText;
    var q := ToJis(p);
    ThereAndBack(p);
    EucTextIs(q);
    var s := EucText(q) + r;
    assert s[0] == Low(q.p1 + 128) && s[1] == Low(q.p2 + 128) && s[2..] == r;
    assert Pair(s[0] as int - 128, s[1] as int - 128) == q;
  }

  lemma EucHalf(c: Byte, r: Bytes)
    requires 161 <= c <= 223
    ensures ReadEuc(Pair(SS2 as int, c as int).Text() + r) == Prepend([c], ReadEuc(r))
  {
    var s := Pair(SS2 as int, c as int).Text() + r;
    assert s[0] == 142 && s[1] == c && s[2..] == r;
  }

  lemma EucPlain(c: Byte, r: Bytes)
    requires c <= 128 || c == 160 || c == 255
    ensures ReadEuc([c] + r) == Prepend([c], ReadEuc(r))
  {
    assert ([c] + r)[1..] == r;
  }

  lemma EucReadTurn(s: Bytes, full: bool, zen: Widening, r: Bytes)
    requires s != [] && WellFormed(s, true)
    ensures var t, u := EucTurn(s[0], s[1..], full, zen), CleanedTurn(s[0], s[1..], full, zen);
            u.rest == t.rest && ReadEuc(t.out + r) == Prepend(u.out, ReadEuc(r))
  {
    hide ReadEuc, ToJis, Kept, EucText, Pair.Text, Prepend;
    var c := s[0] as int;
    if s[0] == NUL || s[0] == FF {
      assert [] + r == r;
      PrependNothing(ReadEuc(r));
    } else if Lead(c) || (Hankata(c) && full) {
      EucPair(if Lead(c) then Pair(c, Next(s[1..])) else zen(s[0], s[1..]).pair, r);
    } else if Hankata(c) {
      EucHalf(s[0], r);
    } else {
      EucPlain(if s[0] == CR then NL else s[0], r);
    }
  }

  /** The strict reader takes all that shift2euc writes to a file of its own. */
  lemma {:induction false} EucReads(s: Bytes, full: bool, zen: Widening)
    requires WellFormed(s, true) && TakesMarks(zen)
    ensures ReadEuc(Euc(s, full, zen, false)) == Some(Cleaned(s, full, zen))
    decreases |s|
  {
    hide WellFormed, CleanedTurn, EucTurn;
    if s != [] {
      hide ReadEuc;
      var t := EucTurn(s[0], s[1..], full, zen);
      RestWellFormed(s, full, true, zen);
      assert Printed(s[0], false) + t.out == t.out;
      EucReadTurn(s, full, zen, Euc(t.rest, full, zen, false));
      EucReads(t.rest, full, zen);
    }
  }

  // ---- what survives ------------------------------------------------------

  /** What becomes of each kind of byte. */
  lemma CleanedLaw(b: Byte, r: Bytes, full: bool, zen: Widening)
    ensures b == 0 || b == 12 ==> Cleaned([b] + r, full, zen) == Cleaned(r, full, zen)
    ensures b == 13 ==> Cleaned([b] + r, full, zen) == [10] + Cleaned(r, full, zen)
    ensures (129 <= b <= 159 || 224 <= b <= 239) && r != [] && 64 <= r[0] <= 252 ==>
              Cleaned([b] + r, full, zen) == [b, if r[0] == 127 then 128 else r[0]] + Cleaned(r[1..], full, zen)
    ensures 161 <= b <= 223 && !full ==> Cleaned([b] + r, full, zen) == [b] + Cleaned(r, full, zen)
    ensures 161 <= b <= 223 && full ==>
              var w := zen(b, r); Cleaned([b] + r, full, zen) == Kept(w.pair).Text() + Cleaned(r[w.taken..], full, zen)
    ensures b !in [0, 12, 13] && (b <= 128 || b == 160 || b >= 240) ==>
              Cleaned([b] + r, full, zen) == [b] + Cleaned(r, full, zen)
    ensures Cleaned([], full, zen) == []
  {
    hide Cleaned;
    var s := [b] + r;
    assert s[1..] == r;
    CleanedNext(s, full, zen);
    CleanedNext([], full, zen);
    assert [] + Cleaned(r, full, zen) == Cleaned(r, full, zen);
    if (129 <= b <= 159 || 224 <= b <= 239) && r != [] && 64 <= r[0] <= 252 {
      LeadTurn(s, full, zen);
      assert s[2..] == r[1..];
    }
  }

  // ---- the rest of the reader and the writers -----------------------------

  /** seven2shift takes ESC $ and one more byte, or ESC K, for the start of kanji; ESC ( and
      one more byte, or ESC and any other byte, for its end; and drops form feeds. */
  lemma EscapeLaw(c: Byte, d: Byte, r: Bytes, shifted: bool)
    ensures Unseven([27, 36, d] + r, shifted) == Unseven(r, true)
    ensures Unseven([27, 75] + r, shifted) == Unseven(r, true)
    ensures Unseven([27, 40, d] + r, shifted) == Unseven(r, false)
    ensures c != 36 && c != 75 && c != 40 ==> Unseven([27, c] + r, shifted) == Unseven(r, false)
    ensures Unseven([12] + r, shifted) == Unseven(r, shifted)
  {
    ThreeAfter(36, d, r, shifted);
    ThreeAfter(40, d, r, shifted);
    TwoAfter(75, r, shifted);
    TwoAfter(c, r, shifted);
    assert ([12] + r)[1..] == r;
    assert [] + Unseven(r, shifted) == Unseven(r, shifted);
  }

  lemma ThreeAfter(c: Byte, d: Byte, r: Bytes, shifted: bool)
    requires c == 36 || c == 40
    ensures Unseven([27, c, d] + r, shifted) == Unseven(r, c == 36)
  {
    hide Unseven;
    var s := [27, c, d] + r;
    assert s[1..][0] == c && s[1..][1..][1..] == r;
    OneTurn(s, shifted);
    assert [] + Unseven(r, c == 36) == Unseven(r, c == 36);
  }

  lemma TwoAfter(c: Byte, r: Bytes, shifted: bool)
    ensures c != 36 && c != 40 ==> Unseven([27, c] + r, shifted) == Unseven(r, c == 75)
  {
    hide Unseven;
    var s := [27, c] + r;
    assert s[1..][0] == c && s[1..][1..] == r;
    OneTurn(s, shifted);
    assert [] + Unseven(r, c == 75) == Unseven(r, c == 75);
  }

  lemma OneTurn(s: Bytes, shifted: bool)
    requires s != []
    ensures var t := UnsevenTurn(s[0], s[1..], shifted); Unseven(s, shifted) == t.out + Unseven(t.rest, t.shifted)
  {
  }

  /** A lead byte with no trail byte behind it passes as it is, with what follows it; at the
      end of the file that is byte 255. */
  lemma BrokenPairLaw(b: Byte, c: Byte, r: Bytes, shifted: bool, code: Code, full: bool, zen: Widening)
    requires (129 <= b <= 159 || 224 <= b <= 239) && !(64 <= c <= 252)
    ensures Seven([b, c] + r, shifted, code, zen) == [b, c] + Seven(r, shifted, code, zen)
    ensures Seven([b], shifted, code, zen) == [b, 255] + Seven([], shifted, code, zen)
    ensures Euc([b, c] + r, full, zen, false) == [b, c] + Euc(r, full, zen, false)
    ensures Euc([b], full, zen, false) == [b, 255]
  {
    hide Seven, Euc, SevenTurn, EucTurn, Printed;
    var s := [b, c] + r;
    assert s[1..] == [c] + r && [b][1..] == [];
    BrokenTurn(b, [c] + r, shifted, code, full, zen);
    BrokenTurn(b, [], shifted, code, full, zen);
    assert ([c] + r)[1..] == r;
    BrokenText(b, c);
    WriterTurn(s, shifted, code, full, zen);
    WriterTurn([b], shifted, code, full, zen);
    EucNothing(full, zen);
    assert [b, 255] + [] == [b, 255];
  }

  lemma BrokenTurn(b: Byte, r: Bytes, shifted: bool, code: Code, full: bool, zen: Widening)
    requires (129 <= b <= 159 || 224 <= b <= 239) && !(64 <= Next(r) <= 252)
    ensures SevenTurn(b, r, shifted, code, zen) == Turn(Pair(b as int, Next(r)).Text(), Past(r), shifted)
    ensures EucTurn(b, r, full, zen) == Turn(Pair(b as int, Next(r)).Text(), Past(r), false)
  {
    hide Pair.Text;
  }

  lemma WriterTurn(s: Bytes, shifted: bool, code: Code, full: bool, zen: Widening)
    requires s != []
    ensures var t := SevenTurn(s[0], s[1..], shifted, code, zen);
            Seven(s, shifted, code, zen) == t.out + Seven(t.rest, t.shifted, code, zen)
    ensures var t := EucTurn(s[0], s[1..], full, zen); Euc(s, full, zen, false) == t.out + Euc(t.rest, full, zen, false)
  {
    hide SevenTurn, EucTurn;
    var t := EucTurn(s[0], s[1..], full, zen);
    assert Printed(s[0], false) + t.out == t.out;
  }

  lemma EucNothing(full: bool, zen: Widening)
    ensures Euc([], full, zen, false) == []
  {
  }

  lemma BrokenText(b: Byte, c: Byte)
    ensures Pair(b as int, c as int).Text() == [b, c] && Pair(b as int, -1).Text() == [b, 255]
  {
  }
}
