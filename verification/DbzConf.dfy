/** The configuration kept in the .dir file (dbz.c): printed by `putconf`, parsed by
    `getconf`. */
module DbzConf {
  import opened Bits
  import opened Bytes
  import opened Decimals

  const DBZVERSION := 3
  const SOF := 8
  const NUSEDS := 11
  /** Room for a number in `getno`, with its NUL. */
  const MAXN := 50
  const DEFSIZE := 120011
  const DBZ: Bytes := [100, 98, 122]

  datatype Config = Config(tsize: int, fieldsep: int, casemap: Byte, tagenb: int, tagmask: int, tagshift: int,
                           bytemap: seq<int>, used: seq<int>) {
    /** The numbers are longs, and the case map selector is a printing character. */
    ghost predicate Valid() {
      && AreLongs([tsize, fieldsep]) && AreLongs([tagenb, tagmask, tagshift])
      && |bytemap| == SOF && AreLongs(bytemap)
      && |used| == NUSEDS && AreLongs(used)
      && casemap != SPACE
    }
  }

  predicate AreLongs(ns: seq<int>) {
    forall i :: 0 <= i < |ns| ==> LONG_MIN <= ns[i] <= LONG_MAX
  }

  /** The numbers, each after a space, and then some text. */
  function Spaced(ns: seq<int>, tail: Bytes): Bytes {
    if ns == [] then tail else [SPACE] + (Decimal(ns[0]) + Spaced(ns[1..], tail))
  }

  /** The usage counts, each before a space but the last, which ends the line. */
  function UsedLine(ns: seq<int>, tail: Bytes): Bytes {
    if ns == [] then tail
    else Decimal(ns[0]) + ([if |ns| > 1 then SPACE else NL] + UsedLine(ns[1..], tail))
  }

  /** What `putconf` prints, and then whatever an older and longer file still holds. */
  function ConfText(c: Config, tail: Bytes): Bytes {
    DBZ + Spaced([DBZVERSION, c.tsize, c.fieldsep],
                 [SPACE, c.casemap] + Spaced([c.tagenb, c.tagmask, c.tagshift, SOF] + c.bytemap,
                                             [NL] + UsedLine(c.used, tail)))
  }

  // ---- reading ------------------------------------------------------------

  function SkipSpaces(s: Bytes): (t: Bytes)
    ensures |t| <= |s|
    ensures t == [] || t[0] != SPACE
  {
    if s != [] && s[0] == SPACE then SkipSpaces(s[1..]) else s
  }

  /** How far a number reaches: up to a space, the end of the line, or the end of the file. */
  function TokenLength(s: Bytes): (n: nat)
    ensures n <= |s|
    ensures n < |s| ==> s[n] == SPACE || s[n] == NL
  {
    if s == [] || s[0] == SPACE || s[0] == NL then 0 else 1 + TokenLength(s[1..])
  }

  predicate Numeric(s: Bytes) {
    forall i :: 0 <= i < |s| ==> IsDigit(s[i]) || s[i] == MINUS
  }

  datatype Number = Number(value: int, rest: Bytes, ok: bool)

  /** getno: the value, what is left, and whether it was a number. Characters that do not
      fit the buffer are dropped. */
  function ParseNumber(s: Bytes): Number {
    var t := SkipSpaces(s);
    if t == [] then Number(0, [], false)
    else if t[0] == NL then Number(0, t[1..], false)
    else
      var n := TokenLength(t);
      var token := if n < MAXN then t[..n] else t[..MAXN - 1];
      Number(Atol(token), t[n..], n < |t| && Numeric(token))
  }

  datatype Numbers = Numbers(values: seq<int>, rest: Bytes, ok: bool)

  function ParseNumbers(s: Bytes, k: nat): (r: Numbers)
    ensures |r.values| == k
    decreases k
  {
    if k == 0 then Numbers([], s, true)
    else
      var first := ParseNumber(s);
      var others := ParseNumbers(first.rest, k - 1);
      Numbers([first.value] + others.values, others.rest, first.ok && others.ok)
  }

  predicate Ends(tail: Bytes) {
    tail != [] && (tail[0] == SPACE || tail[0] == NL)
  }

  lemma {:induction false} TokenOfDecimal(s: Bytes, tail: Bytes)
    requires Numeric(s) && Ends(tail)
    ensures TokenLength(s + tail) == |s|
    decreases |s|
  {
    if s == [] {
      assert s + tail == tail;
    } else {
      assert (s + tail)[1..] == s[1..] + tail;
      TokenOfDecimal(s[1..], tail);
    }
  }

  /** A printed number is read back, and reading stops at what follows it. */
  lemma ParsePrinted(n: int, tail: Bytes)
    requires LONG_MIN <= n <= LONG_MAX && Ends(tail)
    ensures ParseNumber(Decimal(n) + tail) == Number(n, tail, true)
  {
    hide Atol;
    var d := Decimal(n);
    DecimalShort(n);
    assert (d + tail)[0] == d[0];
    TokenOfDecimal(d, tail);
    assert (d + tail)[..|d|] == d && (d + tail)[|d|..] == tail;
    AtolDecimal(n, []);
    assert d + [] == d;
  }

  lemma ParseSpace(s: Bytes)
    ensures ParseNumber([SPACE] + s) == ParseNumber(s)
  {
    assert ([SPACE] + s)[1..] == s;
  }

  lemma SpacedEnds(ns: seq<int>, tail: Bytes)
    requires Ends(tail)
    ensures Ends(Spaced(ns, tail))
  {
  }

  /** A run of printed numbers is read back. */
  lemma {:induction false} ParseSpaced(ns: seq<int>, tail: Bytes)
    requires AreLongs(ns) && Ends(tail)
    ensures ParseNumbers(Spaced(ns, tail), |ns|) == Numbers(ns, tail, true)
    decreases |ns|
  {
    hide ParseNumber;
    if ns != [] {
      var rest := Spaced(ns[1..], tail);
      SpacedEnds(ns[1..], tail);
      ParsePrinted(ns[0], rest);
      ParseSpace(Decimal(ns[0]) + rest);
      ParseSpaced(ns[1..], tail);
    }
  }

  lemma ParseSpaces(s: Bytes, k: nat)
    requires k >= 1
    ensures ParseNumbers([SPACE] + s, k) == ParseNumbers(s, k)
  {
    ParseSpace(s);
  }

  /** The line of usage counts is read back, up to the end of the line. */
  lemma {:induction false} ParseUsed(ns: seq<int>, tail: Bytes)
    requires AreLongs(ns) && ns != []
    ensures ParseNumbers(UsedLine(ns, tail), |ns|) == Numbers(ns, [NL] + tail, true)
    decreases |ns|
  {
    hide ParseNumber, Decimal;
    var rest := UsedLine(ns[1..], tail);
    if |ns| == 1 {
      assert rest == tail;
      ParsePrinted(ns[0], [NL] + tail);
      assert UsedLine(ns, tail) == Decimal(ns[0]) + ([NL] + tail);
      assert ns == [ns[0]];
    } else {
      ParsePrinted(ns[0], [SPACE] + rest);
      ParseSpaces(rest, |ns| - 1);
      ParseUsed(ns[1..], tail);
    }
  }

  // ---- the whole file -----------------------------------------------------

  const DEFAULT_CONFIG := Config(DEFSIZE, 9, 67, 0x80, 0x7f, 24, [7, 6, 5, 4, 3, 2, 1, 0], [0, 0, 0, 0, 0, 0, 0, 0, 0, 0, 0])

  /** getconf: the default for an empty file, otherwise what the two lines say, or none if
      anything is wrong. */
  function ParseConf(s: Bytes): Option<Config> {
    if s == [] then Some(DEFAULT_CONFIG)
    else if !(DBZ <= s) then None
    else
      var n1 := ParseNumbers(s[3..], 3);
      var afterSpaces := SkipSpaces(n1.rest);
      if afterSpaces == [] then None else
      var n2 := ParseNumbers(afterSpaces[1..], 4 + SOF);
      if n2.rest == [] || n2.rest[0] != NL then None else
      var n3 := ParseNumbers(n2.rest[1..], NUSEDS);
      if n3.rest == [] || n3.rest[0] != NL then None
      else if !(n1.ok && n2.ok && n3.ok) || n1.values[0] != DBZVERSION || n2.values[3] != SOF then None
      else Some(Config(n1.values[1], n1.values[2], afterSpaces[0],
                       n2.values[0], n2.values[1], n2.values[2], n2.values[4..], n3.values))
  }

  /** Reading what was printed gives the same configuration back, whatever an older and
      longer file leaves behind it. */
  lemma ConfRoundTrip(c: Config, tail: Bytes)
    requires c.Valid()
    ensures ParseConf(ConfText(c, tail)) == Some(c)
  {
    hide ParseNumbers, Spaced, UsedLine;
    var used := [NL] + UsedLine(c.used, tail);
    var numbers := [c.tagenb, c.tagmask, c.tagshift, SOF] + c.bytemap;
    var second := Spaced(numbers, used);
    var first := [SPACE, c.casemap] + second;
    assert AreLongs([DBZVERSION, c.tsize, c.fieldsep]) by {
      assert AreLongs([c.tsize, c.fieldsep]);
      assert [c.tsize, c.fieldsep][0] == c.tsize && [c.tsize, c.fieldsep][1] == c.fieldsep;
    }
    LongNumbers(c);
    ParseSpaced([DBZVERSION, c.tsize, c.fieldsep], first);
    ParseSpaced(numbers, used);
    ParseUsed(c.used, tail);
    var s := ConfText(c, tail);
    assert s[3..] == Spaced([DBZVERSION, c.tsize, c.fieldsep], first);
    SkipOne(c.casemap, second);
    assert ([c.casemap] + second)[1..] == second;
    assert used[1..] == UsedLine(c.used, tail);
    assert numbers[4..] == c.bytemap;
  }

  lemma LongNumbers(c: Config)
    requires c.Valid()
    ensures AreLongs([c.tagenb, c.tagmask, c.tagshift, SOF] + c.bytemap)
  {
    var tags := [c.tagenb, c.tagmask, c.tagshift];
    assert tags[0] == c.tagenb && tags[1] == c.tagmask && tags[2] == c.tagshift;
  }

  lemma SkipOne(c: Byte, rest: Bytes)
    requires c != SPACE
    ensures SkipSpaces([SPACE, c] + rest) == [c] + rest
  {
    assert ([SPACE, c] + rest)[1..] == [c] + rest;
  }

  // ---- the stream ---------------------------------------------------------

  const EOF := -1

  /** A stdio stream open for reading and writing. */
  class CFile {
    var data: Bytes
    var pos: nat

    ghost predicate Valid()
      reads this
    {
      pos <= |data|
    }

    /** What is still to be read. */
    ghost function Rest(): Bytes
      requires Valid()
      reads this
    {
      data[pos..]
    }

    constructor (data: Bytes)
      ensures Valid() && this.data == data && pos == 0
    {
      this.data, this.pos := data, 0;
    }

    method Getc() returns (c: int)
      requires Valid()
      modifies `pos
      ensures Valid()
      ensures old(Rest()) == [] ==> c == EOF && Rest() == []
      ensures old(Rest()) != [] ==> c == old(Rest())[0] as int && Rest() == old(Rest())[1..] && pos == old(pos) + 1
    {
      if pos == |data| {
        return EOF;
      }
      c := data[pos] as int;
      pos := pos + 1;
    }

    method Ungetc()
      requires Valid() && pos > 0
      modifies `pos
      ensures Valid() && pos == old(pos) - 1 && Rest() == [data[pos]] + old(Rest())
    {
      pos := pos - 1;
    }

    /** fprintf at the current position, over what is there. */
    method Print(s: Bytes)
      requires Valid()
      modifies this
      ensures Valid() && pos == old(pos) + |s| && data[..pos] == old(data[..pos]) + s
      ensures Rest() == if old(|Rest()|) > |s| then old(Rest())[|s|..] else []
    {
      data := data[..pos] + s + (if |data| - pos > |s| then data[pos + |s|..] else []);
      pos := pos + |s|;
    }
  }

  function Room(all: Bytes, n: nat): Bytes
    requires n <= |all|
  {
    if n < MAXN then all[..n] else all[..MAXN - 1]
  }

  lemma RoomNext(all: Bytes, n: nat)
    requires n < |all|
    ensures Room(all, n + 1) == if |Room(all, n)| < MAXN - 1 then Room(all, n) + [all[n]] else Room(all, n)
  {
  }

  lemma TokenNext(all: Bytes, n: nat)
    requires n < |all|
    ensures TokenLength(all[n..]) ==
            if all[n] == SPACE || all[n] == NL then 0 else 1 + TokenLength(all[n + 1..])
  {
    assert all[n..][1..] == all[n + 1..];
  }

  /** The stream has just given the n-th byte of what it was to read, or its end. */
  ghost predicate Reading(all: Bytes, n: nat, c: int, rest: Bytes) {
    n <= |all| &&
    if n == |all| then c == EOF && rest == [] else c == all[n] as int && rest == all[n + 1..]
  }

  /** The collecting loop of `getno`, after its first character. */
  method GetToken(f: CFile, first: Byte) returns (buf: Bytes, eof: bool)
    requires f.Valid() && f.pos > 0 && first == f.data[f.pos - 1] && first != SPACE && first != NL
    modifies f`pos
    ensures f.Valid()
    ensures var all := [first] + old(f.Rest()); var n := TokenLength(all);
            f.Rest() == all[n..] && buf == Room(all, n) && (eof <==> n == |all|)
  {
    ghost var all := [first] + f.Rest();
    TokenNext(all, 0);
    assert all[0..] == all && all[1..] == f.Rest();
    hide TokenLength;
    buf := [first];
    ghost var n: nat := 1;
    var c := f.Getc();
    while c != EOF && c != NL as int && c != SPACE as int
      invariant f.Valid() && n >= 1 && Reading(all, n, c, f.Rest()) && buf == Room(all, n)
      invariant n < |all| ==> f.pos > 0 && f.data[f.pos - 1] == all[n]
      invariant TokenLength(all) == n + TokenLength(all[n..])
      decreases |all| - n
    {
      TokenNext(all, n);
      RoomNext(all, n);
      if |buf| < MAXN - 1 {
        buf := buf + [c as Byte];
      }
      n := n + 1;
      c := f.Getc();
    }
    eof := c == EOF;
    TokenAt(all, n);
    if c != EOF {
      f.Ungetc();
    }
  }

  lemma TokenAt(all: Bytes, n: nat)
    requires n <= |all| && (n < |all| ==> all[n] == SPACE || all[n] == NL)
    ensures TokenLength(all[n..]) == 0
    ensures n < |all| ==> all[n..] == [all[n]] + all[n + 1..]
  {
  }

  /** getno */
  method GetNo(f: CFile) returns (n: int, ok: bool)
    requires f.Valid()
    modifies f`pos
    ensures f.Valid() && Number(n, f.Rest(), ok) == ParseNumber(old(f.Rest()))
  {
    ghost var s := f.Rest();
    var c := GetPastSpaces(f);
    assert c != EOF ==> [c as Byte] + f.Rest() == SkipSpaces(s);
    if c == EOF || c == NL as int {
      return 0, false;
    }
    var buf, eof := GetToken(f, c as Byte);
    ok := !eof && Numeric(buf);
    n := Atol(buf);
  }

  /** The loop over blanks shared by `getno` and `getconf`. */
  method GetPastSpaces(f: CFile) returns (c: int)
    requires f.Valid()
    modifies f`pos
    ensures f.Valid()
    ensures var t := SkipSpaces(old(f.Rest()));
            if t == [] then c == EOF && f.Rest() == []
            else c == t[0] as int && f.Rest() == t[1..] && f.pos > 0 && f.data[f.pos - 1] == t[0]
  {
    ghost var t := SkipSpaces(f.Rest());
    ghost var s := f.Rest();
    c := f.Getc();
    while c == SPACE as int
      invariant f.Valid() && SkipSpaces(s) == t
      invariant s == [] ==> c == EOF && f.Rest() == []
      invariant s != [] ==> c == s[0] as int && f.Rest() == s[1..] && f.pos > 0 && f.data[f.pos - 1] == s[0]
      decreases |s|
    {
      s := f.Rest();
      c := f.Getc();
    }
  }

  /** The numbers `getconf` reads in a row. */
  method GetNos(f: CFile, k: nat) returns (ns: seq<int>, ok: bool)
    requires f.Valid()
    modifies f`pos
    ensures f.Valid() && Numbers(ns, f.Rest(), ok) == ParseNumbers(old(f.Rest()), k)
  {
    hide ParseNumber;
    ghost var all := ParseNumbers(f.Rest(), k);
    ns, ok := [], true;
    for i := 0 to k
      invariant f.Valid() && |ns| == i
      invariant var more := ParseNumbers(f.Rest(), k - i);
                all == Numbers(ns + more.values, more.rest, ok && more.ok)
    {
      ghost var before := ns;
      var n, good := GetNo(f);
      ns, ok := ns + [n], ok && good;
      ghost var more := ParseNumbers(f.Rest(), k - i - 1);
      assert ns + more.values == before + ([n] + more.values);
    }
  }

  /** getconf on an opened .dir file, and the .pag file if the caller cares about it: an
      empty configuration beside a table that is not empty means the old format. */
  method GetConf(f: CFile, pf: CFile?) returns (r: Option<Config>, olddbz: bool)
    requires f.Valid() && f != pf && (pf != null ==> pf.Valid())
    modifies f`pos, pf
    ensures f.Valid() && r == ParseConf(old(f.Rest()))
    ensures olddbz <==> old(f.Rest() == [] && pf != null && pf.Rest() != [])
    ensures pf != null ==> pf.Valid() && pf.data == old(pf.data)
  {
    hide ParseNumbers, SkipSpaces, AreLongs;
    ghost var s := f.Rest();
    olddbz := false;
    var c := f.Getc();
    if c == EOF {
      if pf != null {
        var k := pf.Getc();
        olddbz := k != EOF;
      }
      return Some(DEFAULT_CONFIG), olddbz;
    }
    f.Ungetc();
    assert f.Rest() == s;
    c := f.Getc();
    if c != DBZ[0] as int {
      return None, false;
    }
    c := f.Getc();
    if c != DBZ[1] as int {
      return None, false;
    }
    c := f.Getc();
    if c != DBZ[2] as int {
      return None, false;
    }
    assert s == DBZ + f.Rest() && s[3..] == f.Rest();
    var n1, ok1 := GetNos(f, 3);
    var casemap := GetPastSpaces(f);
    if casemap == EOF {
      return None, false;
    }
    var n2, ok2 := GetNos(f, 4 + SOF);
    c := f.Getc();
    if c != NL as int {
      return None, false;
    }
    var n3, ok3 := GetNos(f, NUSEDS);
    c := f.Getc();
    if c != NL as int || !(ok1 && ok2 && ok3) || n1[0] != DBZVERSION || n2[3] != SOF {
      return None, false;
    }
    r := Some(Config(n1[1], n1[2], casemap as Byte, n2[0], n2[1], n2[2], n2[4..], n3));
  }

  // ---- writing ------------------------------------------------------------

  lemma {:induction false} SpacedJoin(ns: seq<int>, tail: Bytes, more: Bytes)
    ensures Spaced(ns, tail) + more == Spaced(ns, tail + more)
    decreases |ns|
  {
    if ns != [] {
      SpacedJoin(ns[1..], tail, more);
    }
  }

  lemma {:induction false} UsedJoin(ns: seq<int>, tail: Bytes, more: Bytes)
    ensures UsedLine(ns, tail) + more == UsedLine(ns, tail + more)
    decreases |ns|
  {
    if ns != [] {
      UsedJoin(ns[1..], tail, more);
    }
  }

  /** What is left of an old file after writing n bytes over its beginning. */
  function Beyond(was: Bytes, n: nat): Bytes {
    if |was| > n then was[n..] else []
  }

  lemma {:induction false} SpacedSplit(a: seq<int>, b: seq<int>, tail: Bytes)
    ensures Spaced(a + b, tail) == Spaced(a, Spaced(b, tail))
    decreases |a|
  {
    if a == [] {
      assert a + b == b;
    } else {
      assert (a + b)[1..] == a[1..] + b;
      SpacedSplit(a[1..], b, tail);
    }
  }

  /** The stream has been written over with some bytes from its start. */
  ghost predicate Written(f: CFile, was: Bytes, done: Bytes)
    reads f
  {
    f.Valid() && f.pos == |done| && f.data == done + Beyond(was, |done|)
  }

  method PrintMore(f: CFile, ghost was: Bytes, ghost done: Bytes, s: Bytes)
    requires Written(f, was, done)
    modifies f
    ensures Written(f, was, done + s)
  {
    assert f.data[..f.pos] == done && f.Rest() == Beyond(was, |done|);
    f.Print(s);
    assert f.data == f.data[..f.pos] + f.Rest();
  }

  lemma Assoc(a: Bytes, b: Bytes, c: Bytes, d: Bytes)
    ensures a + (b + (c + d)) == (a + (b + c)) + d
  {
  }

  /** The first fprintf of `putconf`. */
  function HeadText(c: Config): Bytes {
    DBZ + Spaced([DBZVERSION, c.tsize, c.fieldsep], [SPACE, c.casemap] + Spaced([c.tagenb, c.tagmask, c.tagshift, SOF], []))
  }

  lemma HeadThen(c: Config, tail: Bytes)
    ensures HeadText(c) + Spaced(c.bytemap, [NL] + UsedLine(c.used, tail)) == ConfText(c, tail)
  {
    hide Spaced, UsedLine;
    var more := Spaced(c.bytemap, [NL] + UsedLine(c.used, tail));
    var second := Spaced([c.tagenb, c.tagmask, c.tagshift, SOF], []);
    SpacedJoin([DBZVERSION, c.tsize, c.fieldsep], [SPACE, c.casemap] + second, more);
    SpacedJoin([c.tagenb, c.tagmask, c.tagshift, SOF], [], more);
    assert [] + more == more;
    assert [SPACE, c.casemap] + second + more == [SPACE, c.casemap] + (second + more);
    SpacedSplit([c.tagenb, c.tagmask, c.tagshift, SOF], c.bytemap, [NL] + UsedLine(c.used, tail));
    Assoc2(DBZ, Spaced([DBZVERSION, c.tsize, c.fieldsep], [SPACE, c.casemap] + second), more);
  }

  lemma Assoc2(a: Bytes, b: Bytes, c: Bytes)
    ensures (a + b) + c == a + (b + c)
  {
  }

  /** putconf, over whatever the .dir file held before. */
  method PutConf(f: CFile, c: Config)
    modifies f
    ensures f.Valid()
    ensures f.data == ConfText(c, Beyond(old(f.data), |ConfText(c, [])|))
  {
    hide ConfText, Spaced, HeadText, Decimal;
    ghost var was, text := f.data, ConfText(c, []);
    f.pos := 0;
    assert Written(f, was, []);
    ghost var done := HeadText(c);
    HeadThen(c, []);
    PrintMore(f, was, [], HeadText(c));
    assert [] + done == done;
    ghost var x := [NL] + UsedLine(c.used, []);
    for i := 0 to |c.bytemap|
      invariant Written(f, was, done) && done + Spaced(c.bytemap[i..], x) == text
    {
      SpacedStep(done, c.bytemap[i..], x);
      PrintMore(f, was, done, [SPACE] + Decimal(c.bytemap[i]));
      done := done + ([SPACE] + Decimal(c.bytemap[i]));
      assert c.bytemap[i..][1..] == c.bytemap[i + 1..];
    }
    SpacedNone(c.bytemap[|c.bytemap|..], x);
    PrintMore(f, was, done, [NL]);
    Assoc2(done, [NL], UsedLine(c.used, []));
    done := done + [NL];
    for i := 0 to |c.used|
      invariant Written(f, was, done) && done + UsedLine(c.used[i..], []) == text
    {
      UsedStep(done, c.used[i..]);
      PrintMore(f, was, done, Decimal(c.used[i]) + [if i < |c.used| - 1 then SPACE else NL]);
      done := done + (Decimal(c.used[i]) + [if i < |c.used| - 1 then SPACE else NL]);
      assert c.used[i..][1..] == c.used[i + 1..];
    }
    assert done + [] == done;
    ConfTextJoin(c, Beyond(was, |done|));
  }

  lemma SpacedNone(ns: seq<int>, x: Bytes)
    requires ns == []
    ensures Spaced(ns, x) == x
  {
  }

  lemma SpacedStep(done: Bytes, ns: seq<int>, x: Bytes)
    requires ns != []
    ensures done + Spaced(ns, x) == (done + ([SPACE] + Decimal(ns[0]))) + Spaced(ns[1..], x)
  {
    Assoc(done, [SPACE], Decimal(ns[0]), Spaced(ns[1..], x));
  }

  lemma UsedStep(done: Bytes, ns: seq<int>)
    requires ns != []
    ensures done + UsedLine(ns, []) ==
            (done + (Decimal(ns[0]) + [if |ns| > 1 then SPACE else NL])) + UsedLine(ns[1..], [])
  {
    Assoc(done, Decimal(ns[0]), [if |ns| > 1 then SPACE else NL], UsedLine(ns[1..], []));
  }

  lemma ConfTextJoin(c: Config, more: Bytes)
    ensures ConfText(c, []) + more == ConfText(c, more)
  {
    HeadThen(c, []);
    HeadThen(c, more);
    hide ConfText, HeadText, Spaced, UsedLine;
    SpacedJoin(c.bytemap, [NL] + UsedLine(c.used, []), more);
    Assoc2([NL], UsedLine(c.used, []), more);
    UsedJoin(c.used, [], more);
    assert [] + more == more;
    Assoc2(HeadText(c), Spaced(c.bytemap, [NL] + UsedLine(c.used, [])), more);
  }

  /** A configuration written over any old .dir file is read back as it was. */
  method SaveAndLoad(f: CFile, c: Config) returns (r: Option<Config>)
    requires c.Valid()
    modifies f
    ensures r == Some(c)
  {
    PutConf(f, c);
    f.pos := 0;
    ConfRoundTrip(c, Beyond(old(f.data), |ConfText(c, [])|));
    assert f.data[0..] == f.data;
    var olddbz;
    r, olddbz := GetConf(f, null);
  }
}
