/** Base64 encoding and decoding of streams (mmencode.c). */
module Mmencode {
  import opened Arith
  import opened Bits
  import opened Bytes
  import opened Decimals

  const LF: Byte := 10
  const CR: Byte := 13
  const PAD: Byte := 61
  const EOF := -1

  /** basis_64 */
  function Basis(k: nat): (c: Byte)
    requires k < 64
    ensures c != PAD && !IsSpace(c) && Char64(c as int) == k
  {
    if k < 26 then (65 + k) as Byte
    else if k < 52 then (97 + k - 26) as Byte
    else if k < 62 then (48 + k - 52) as Byte
    else if k == 62 then 43
    else 47
  }

  /** char64: the value of a character, -1 for one that is not in the alphabet. */
  function Char64(c: int): (k: int)
    ensures -1 <= k < 64
  {
    if 65 <= c <= 90 then c - 65
    else if 97 <= c <= 122 then c - 97 + 26
    else if 48 <= c <= 57 then c - 48 + 52
    else if c == 43 then 62
    else if c == 47 then 63
    else -1
  }

  // ---- encoding -----------------------------------------------------------

  /** output64chunk: four characters for up to three bytes. The shifts and masks of
      non-negative bytes are written as divisions and remainders. */
  function Chunk(c1: int, c2: int, c3: int, pads: nat): (s: Bytes)
    requires 0 <= c1 < 256 && 0 <= c2 < 256 && 0 <= c3 < 256
    ensures |s| == 4
  {
    [Basis(c1 / 4), Basis(c1 % 4 * 16 + c2 / 16)] +
    (if pads == 2 then [PAD, PAD]
     else if pads == 1 then [Basis(c2 % 16 * 4 + c3 / 64), PAD]
     else [Basis(c2 % 16 * 4 + c3 / 64), Basis(c3 % 64)])
  }

  /** The chunk for the next bytes of some input. */
  function FirstChunk(b: Bytes): (s: Bytes)
    requires b != []
    ensures |s| == 4
  {
    if |b| == 1 then Chunk(b[0] as int, 0, 0, 2)
    else if |b| == 2 then Chunk(b[0] as int, b[1] as int, 0, 1)
    else Chunk(b[0] as int, b[1] as int, b[2] as int, 0)
  }

  function AfterChunk(b: Bytes): Bytes {
    if |b| <= 3 then [] else b[3..]
  }

  /** The encoded text of some bytes, from column ct of a line on. */
  function Encoded(b: Bytes, ct: nat): Bytes
    decreases |b|
  {
    if b == [] then (if ct > 0 then [LF] else [])
    else if ct + 4 > 71 then FirstChunk(b) + ([LF] + Encoded(AfterChunk(b), 0))
    else FirstChunk(b) + Encoded(AfterChunk(b), ct + 4)
  }

  /** Portable newlines: every line feed as a carriage return and a line feed. */
  function Portable(b: Bytes): Bytes {
    if b == [] then []
    else if b[0] == LF then [CR, LF] + Portable(b[1..])
    else [b[0]] + Portable(b[1..])
  }

  function Canonical(b: Bytes, portable: bool): Bytes {
    if portable then Portable(b) else b
  }

  class Encoder {
    const input: Bytes
    const portable: bool
    var pos: nat
    /** The second half of a newline is still to come. */
    var inNewline: bool

    ghost predicate Valid()
      reads this
    {
      pos <= |input| && (inNewline ==> portable)
    }

    /** What the encoder has yet to see. */
    ghost function Rest(): Bytes
      requires Valid()
      reads this
    {
      (if inNewline then [LF] else []) + Canonical(input[pos..], portable)
    }

    constructor (input: Bytes, portable: bool)
      ensures Valid() && Rest() == Canonical(input, portable)
      ensures this.input == input && this.portable == portable && pos == 0
    {
      this.input, this.portable, this.pos, this.inNewline := input, portable, 0, false;
      new;
      assert input[0..] == input;
    }

    /** nextcharin: the next character, with a newline faked into two. */
    method NextCharIn() returns (c: int)
      requires Valid()
      modifies this
      ensures Valid()
      ensures old(Rest()) == [] ==> c == EOF && Rest() == []
      ensures old(Rest()) != [] ==> c == old(Rest())[0] as int && Rest() == old(Rest())[1..]
    {
      if portable && inNewline {
        inNewline := false;
        return LF as int;
      }
      if pos == |input| {
        return EOF;
      }
      assert input[pos..][1..] == input[pos + 1..];
      c := input[pos] as int;
      pos := pos + 1;
      if portable && c == LF as int {
        inNewline := true;
        return CR as int;
      }
    }

    /** to64 */
    method To64() returns (out: Bytes)
      requires Valid()
      modifies this
      ensures out == Encoded(Canonical(old(input[pos..]), portable), 0)
      ensures out == Broken(Base64(Canonical(old(input[pos..]), portable)), 0)
    {
      hide Encoded, Chunk, Portable, Broken, Base64;
      inNewline := false;
      out := [];
      var ct: nat := 0;
      ghost var rest := Rest();
      ghost var all := Encoded(rest, 0);
      assert rest == Canonical(old(input[pos..]), portable);
      var c1 := NextCharIn();
      while c1 != EOF
        invariant Valid() && ct <= 71
        invariant if rest == [] then c1 == EOF && Rest() == [] else c1 == rest[0] as int && Rest() == rest[1..]
        invariant out + Encoded(rest, ct) == all
        decreases |rest|
      {
        var chunk;
        var c2 := NextCharIn();
        if c2 == EOF {
          chunk := Chunk(c1, 0, 0, 2);
        } else {
          var c3 := NextCharIn();
          if c3 == EOF {
            chunk := Chunk(c1, c2, 0, 1);
          } else {
            chunk := Chunk(c1, c2, c3, 0);
          }
        }
        assert chunk == FirstChunk(rest) && Rest() == AfterChunk(rest);
        ghost var before := out;
        out := out + chunk;
        ghost var was := ct;
        ct := ct + 4;
        if ct > 71 {
          out := out + [LF];
          ct := 0;
        }
        ChunkWritten(before, rest, was);
        rest := Rest();
        c1 := NextCharIn();
      }
      EncodedText(Canonical(old(input[pos..]), portable), 0);
      EncodedEnd(ct);
      if ct > 0 {
        out := out + [LF];
      }
    }
  }

  lemma EncodedEnd(ct: nat)
    ensures Encoded([], ct) == if ct > 0 then [LF] else []
  {
  }

  lemma ChunkWritten(out: Bytes, b: Bytes, ct: nat)
    requires b != []
    ensures out + Encoded(b, ct) ==
            if ct + 4 > 71 then out + FirstChunk(b) + [LF] + Encoded(AfterChunk(b), 0)
            else out + FirstChunk(b) + Encoded(AfterChunk(b), ct + 4)
  {
  }

  // ---- lines --------------------------------------------------------------

  /** No line is longer than 72 characters, counting from a column. */
  predicate ShortLines(s: Bytes, col: nat)
    decreases |s|
  {
    col <= 72 && (s == [] || ShortLines(s[1..], if s[0] == LF then 0 else col + 1))
  }

  lemma {:induction false} ShortChunk(chunk: Bytes, s: Bytes, col: nat)
    requires |chunk| == 4 && (forall i :: 0 <= i < 4 ==> chunk[i] != LF) && col <= 68
    ensures ShortLines(chunk + s, col) <==> ShortLines(s, col + 4)
  {
    var t := chunk + s;
    assert t[1..][1..] == t[2..] && t[2..][1..] == t[3..] && t[3..][1..] == t[4..] && t[4..] == s;
    assert ShortLines(t[3..], col + 3) <==> ShortLines(s, col + 4);
    assert ShortLines(t[2..], col + 2) <==> ShortLines(t[3..], col + 3);
    assert ShortLines(t[1..], col + 1) <==> ShortLines(t[2..], col + 2);
  }

  lemma ChunkNoNewline(b: Bytes)
    requires b != []
    ensures forall i :: 0 <= i < 4 ==> FirstChunk(b)[i] != LF && !IsSpace(FirstChunk(b)[i])
  {
  }

  /** Section 6.8 of RFC 2045 allows 76; the encoder breaks lines at 72. */
  lemma {:induction false} LinesAreShort(b: Bytes, ct: nat)
    requires ct % 4 == 0 && ct <= 68
    ensures ShortLines(Encoded(b, ct), ct)
    decreases |b|
  {
    if b == [] {
      if ct > 0 {
        assert [LF][1..] == [];
      }
    } else {
      ChunkNoNewline(b);
      if ct + 4 > 71 {
        LinesAreShort(AfterChunk(b), 0);
        var rest := [LF] + Encoded(AfterChunk(b), 0);
        assert rest[1..] == Encoded(AfterChunk(b), 0);
        ShortChunk(FirstChunk(b), rest, ct);
      } else {
        LinesAreShort(AfterChunk(b), ct + 4);
        ShortChunk(FirstChunk(b), Encoded(AfterChunk(b), ct + 4), ct);
      }
    }
  }

  // ---- decoding -----------------------------------------------------------

  /** The text without white space. */
  function Strip(s: Bytes): (t: Bytes)
    ensures |t| <= |s|
    decreases |s|
  {
    if s == [] then []
    else if IsSpace(s[0]) then Strip(s[1..])
    else [s[0]] + Strip(s[1..])
  }

  /** The bytes a group of four characters stands for, as the integers handed to
      `almostputc`; characters outside the alphabet count as -1. */
  function First(c1: Byte, c2: Byte): int {
    Or(Char64(c1 as int) * 4, And(Char64(c2 as int), 0x30) / 16)
  }

  function Second(c2: Byte, c3: Byte): int {
    Or(And(Char64(c2 as int), 0xF) * 16, And(Char64(c3 as int), 0x3C) / 4)
  }

  function Third(c3: Byte, c4: Byte): int {
    Or(And(Char64(c3 as int), 0x03) * 64, Char64(c4 as int))
  }

  /** What one group stands for: nothing when it starts with padding. */
  function Group(s: Bytes): seq<int>
    requires |s| >= 4
  {
    if s[0] == PAD || s[1] == PAD then []
    else if s[2] == PAD then [First(s[0], s[1])]
    else if s[3] == PAD then [First(s[0], s[1]), Second(s[1], s[2])]
    else [First(s[0], s[1]), Second(s[1], s[2]), Third(s[2], s[3])]
  }

  /** Padding ends the data. */
  predicate LastGroup(s: Bytes)
    requires |s| >= 4
  {
    s[0] == PAD || s[1] == PAD || s[2] == PAD || s[3] == PAD
  }

  /** What the groups of a text without white space stand for; a group cut short by the end
      of the file ends everything. */
  function Groups(s: Bytes): seq<int>
    decreases |s|
  {
    if |s| < 4 then [] else Group(s) + (if LastGroup(s) then [] else Groups(s[4..]))
  }

  /** Whether the text ends with its last group, or with padding before it: if not, the
      decoder gives up in the middle of a group. */
  predicate WholeGroups(s: Bytes)
    decreases |s|
  {
    s == [] || (|s| >= 4 && (LastGroup(s) || WholeGroups(s[4..])))
  }

  /** putc keeps the low eight bits. */
  function LowByte(c: int): Byte {
    (c % 256) as Byte
  }

  /** What almostputc writes for one character, given whether a carriage return is pending. */
  function PutOne(c: int, portable: bool, pending: bool): Bytes {
    if pending then (if c == 10 then [LF] else [CR, LowByte(c)])
    else if portable && c == 13 then []
    else [LowByte(c)]
  }

  /** Whether a carriage return is pending after a character. */
  predicate Pends(c: int, portable: bool, pending: bool) {
    !pending && portable && c == 13
  }

  /** almostputc over a run of characters: what reaches the output file. A carriage return
      still pending at the end does not. */
  function PutAll(cs: seq<int>, portable: bool, pending: bool): Bytes
    decreases |cs|
  {
    if cs == [] then []
    else PutOne(cs[0], portable, pending) + PutAll(cs[1..], portable, Pends(cs[0], portable, pending))
  }

  /** Whether a carriage return is pending after a run of characters. */
  function PendingAfter(cs: seq<int>, portable: bool, pending: bool): bool
    decreases |cs|
  {
    if cs == [] then pending else PendingAfter(cs[1..], portable, Pends(cs[0], portable, pending))
  }

  lemma {:induction false} PutJoin(a: seq<int>, b: seq<int>, portable: bool, pending: bool)
    ensures PutAll(a + b, portable, pending) ==
            PutAll(a, portable, pending) + PutAll(b, portable, PendingAfter(a, portable, pending))
    ensures PendingAfter(a + b, portable, pending) == PendingAfter(b, portable, PendingAfter(a, portable, pending))
    decreases |a|
  {
    hide PutOne, Pends;
    if a == [] {
      assert a + b == b;
    } else {
      assert (a + b)[1..] == a[1..] + b;
      var pending' := Pends(a[0], portable, pending);
      PutJoin(a[1..], b, portable, pending');
      Regroup(PutOne(a[0], portable, pending), PutAll(a[1..], portable, pending'),
              PutAll(b, portable, PendingAfter(a, portable, pending)));
    }
  }

  class Decoder {
    const text: Bytes
    const portable: bool
    var pos: nat
    var crPending: bool
    var out: Bytes
    /** The characters handed to `almostputc` so far. */
    ghost var put: seq<int>

    ghost predicate Valid()
      reads this
    {
      && pos <= |text|
      && out == PutAll(put, portable, false) && crPending == PendingAfter(put, portable, false)
    }

    constructor (text: Bytes, portable: bool)
      ensures Valid() && pos == 0 && put == [] && this.text == text && this.portable == portable
    {
      this.text, this.portable, this.pos, this.crPending, this.out, this.put := text, portable, 0, false, [], [];
    }

    /** almostputc */
    method AlmostPutc(c: int)
      requires Valid()
      modifies `out, `crPending, `put
      ensures Valid() && put == old(put) + [c]
    {
      PutJoin(put, [c], portable, false);
      assert [c][1..] == [];
      put := put + [c];
      if crPending {
        if c == 10 {
          out := out + [LF];
        } else {
          out := out + [CR] + [LowByte(c)];
        }
        crPending := false;
      } else if portable && c == 13 {
        crPending := true;
      } else {
        out := out + [LowByte(c)];
      }
    }

    /** The loop that reads the next character that is not white space. */
    method GetNonSpace() returns (c: int)
      requires Valid()
      modifies `pos
      ensures Valid()
      ensures old(Strip(text[pos..])) == [] ==> c == EOF && Strip(text[pos..]) == []
      ensures old(Strip(text[pos..])) != [] ==>
                c == old(Strip(text[pos..]))[0] as int && Strip(text[pos..]) == old(Strip(text[pos..]))[1..]
      ensures pos >= old(pos) && (c != EOF ==> pos > old(pos))
    {
      ghost var s := Strip(text[pos..]);
      while pos < |text|
        invariant pos <= |text| && Strip(text[pos..]) == s && pos >= old(pos) && Valid()
      {
        assert text[pos..][1..] == text[pos + 1..];
        c := text[pos] as int;
        pos := pos + 1;
        if !IsSpace(c as Byte) {
          return c;
        }
      }
      c := EOF;
    }

    /** The part of `from64` that decodes one group; true when it was the last one. */
    method PutGroup(s: Bytes) returns (done: bool)
      requires Valid() && |s| == 4
      modifies `out, `crPending, `put
      ensures Valid() && put == old(put) + Group(s) && done == LastGroup(s)
    {
      if s[0] == PAD || s[1] == PAD {
        assert put + [] == put;
        return true;
      }
      var k1, k2 := Char64(s[0] as int), Char64(s[1] as int);
      AlmostPutc(Or(k1 * 4, And(k2, 0x30) / 16));
      if s[2] == PAD {
        return true;
      }
      var k3 := Char64(s[2] as int);
      AlmostPutc(Or(And(k2, 0xF) * 16, And(k3, 0x3C) / 4));
      if s[3] == PAD {
        return true;
      }
      var k4 := Char64(s[3] as int);
      AlmostPutc(Or(And(k3, 0x03) * 64, k4));
      done := false;
    }

    /** The three reads that complete a group; EOF when the file ends first. */
    method GetThree() returns (c2: int, c3: int, c4: int)
      requires Valid()
      modifies `pos
      ensures Valid() && pos >= old(pos)
      ensures var s := old(Strip(text[pos..]));
              if |s| < 3 then c2 == EOF || c3 == EOF || c4 == EOF
              else c2 == s[0] as int && c3 == s[1] as int && c4 == s[2] as int && Strip(text[pos..]) == s[3..]
    {
      hide Strip, PutAll, PendingAfter;
      c2 := GetNonSpace();
      c3 := GetNonSpace();
      c4 := GetNonSpace();
    }

    /** from64, without boundaries: the decoded output depends only on the characters that
        are not white space. `stray` is the carriage return left pending at the end, which
        goes to the standard output instead of the output file, or nowhere when the text ends
        in the middle of a group. */
    method From64() returns (stray: bool)
      requires Valid() && pos == 0 && put == []
      modifies this
      ensures out == PutAll(Groups(Strip(text)), portable, false)
      ensures stray <==> PendingAfter(Groups(Strip(text)), portable, false) && WholeGroups(Strip(text))
    {
      hide PutAll, PendingAfter, Group, LastGroup, IsSpace, Strip;
      stray := false;
      var dataDone := false;
      assert text[0..] == text;
      ghost var all := Groups(Strip(text));
      assert all == [] + all;
      while true
        invariant Valid()
        invariant all == put + (if dataDone then [] else Groups(Strip(text[pos..])))
        invariant WholeGroups(Strip(text)) <==> dataDone || WholeGroups(Strip(text[pos..]))
        decreases |text| - pos
      {
        ghost var s, before := Strip(text[pos..]), put;
        var c1 := GetNonSpace();
        if c1 == EOF {
          break;
        }
        if dataDone {
          continue;
        }
        var c2, c3, c4 := GetThree();
        if c2 == EOF || c3 == EOF || c4 == EOF {
          assert put + [] == put;
          return;
        }
        var group := [c1 as Byte, c2 as Byte, c3 as Byte, c4 as Byte];
        assert s[..4] == group && s[1..][3..] == s[4..];
        GroupOfFront(group, s);
        dataDone := PutGroup(group);
        Regroup(before, Group(s), if dataDone then [] else Groups(s[4..]));
      }
      assert put + [] == put;
      stray := crPending;
    }
  }

  lemma GroupOfFront(front: Bytes, s: Bytes)
    requires |front| == 4 && |s| >= 4 && s[..4] == front
    ensures Group(s) == Group(front) && LastGroup(s) == LastGroup(front)
  {
  }

  // ---- the round trip -----------------------------------------------------

  function AsInts(b: Bytes): (r: seq<int>)
    ensures |r| == |b| && forall i :: 0 <= i < |b| ==> r[i] == b[i] as int
  {
    seq(|b|, i requires 0 <= i < |b| => b[i] as int)
  }

  lemma MaskTop(k: int)
    requires k >= 0
    ensures And(k, 0x30) / 16 == k / 16 % 4
  {
    hide And;
    AndHalf(k, 0x30);
    AndHalf(k / 2, 0x18);
    AndHalf(k / 4, 0xC);
    AndHalf(k / 8, 0x6);
    assert And(k, 0x30) / 16 == And(k / 2 / 2 / 2 / 2, 3);
    assert Pow2(2) == 4;
    MaskIsMod(k / 16, 2);
  }

  lemma MaskMiddle(k: int)
    requires k >= 0
    ensures And(k, 0x3C) / 4 == k / 4 % 16
  {
    hide And;
    AndHalf(k, 0x3C);
    AndHalf(k / 2, 0x1E);
    assert And(k, 0x3C) / 4 == And(k / 2 / 2, 15);
    assert Pow2(4) == 16;
    MaskIsMod(k / 4, 4);
  }

  lemma MaskLow(k: int)
    requires k >= 0
    ensures And(k, 0xF) == k % 16
    ensures And(k, 0x03) == k % 4
  {
    hide And;
    assert Pow2(2) == 4 && Pow2(4) == 16;
    MaskIsMod(k, 4);
    MaskIsMod(k, 2);
  }

  lemma FirstBack(c1: int, c2: int, k2: int)
    requires 0 <= c1 < 256 && 0 <= c2 < 256 && k2 == c1 % 4 * 16 + c2 / 16
    ensures First(Basis(c1 / 4), Basis(k2)) == c1
  {
    hide And, Or, Basis, Char64;
    MaskTop(k2);
    assert Pow2(2) == 4;
    OrIsPlus(c1 / 4, c1 % 4, 2);
  }

  lemma SecondBack(c2: int, c3: int, k2: int, k3: int)
    requires 0 <= c2 < 256 && 0 <= c3 < 256 && 0 <= k2 < 64 && k2 % 16 == c2 / 16 && k3 == c2 % 16 * 4 + c3 / 64
    ensures Second(Basis(k2), Basis(k3)) == c2
  {
    hide And, Or, Basis, Char64;
    MaskLow(k2);
    MaskMiddle(k3);
    assert Pow2(4) == 16;
    OrIsPlus(c2 / 16, c2 % 16, 4);
  }

  lemma ThirdBack(c3: int, k3: int)
    requires 0 <= c3 < 256 && 0 <= k3 < 64 && k3 % 4 == c3 / 64
    ensures Third(Basis(k3), Basis(c3 % 64)) == c3
  {
    hide And, Or, Basis, Char64;
    MaskLow(k3);
    assert Pow2(6) == 64;
    OrIsPlus(c3 / 64, c3 % 64, 6);
  }

  /** A chunk decodes to the bytes it was made of, and is padded exactly at the end. */
  lemma ChunkBack(b: Bytes)
    requires b != []
    ensures Group(FirstChunk(b)) == AsInts(b[..|b| - |AfterChunk(b)|])
    ensures LastGroup(FirstChunk(b)) <==> |b| < 3
  {
    hide First, Second, Third, Basis;
    var c1 := b[0] as int;
    var c2 := if |b| > 1 then b[1] as int else 0;
    var c3 := if |b| > 2 then b[2] as int else 0;
    var k2, k3 := c1 % 4 * 16 + c2 / 16, c2 % 16 * 4 + c3 / 64;
    FirstBack(c1, c2, k2);
    SecondBack(c2, c3, k2, k3);
    ThirdBack(c3, k3);
  }

  lemma {:induction false} StripChunk(chunk: Bytes, rest: Bytes)
    requires forall i :: 0 <= i < |chunk| ==> !IsSpace(chunk[i])
    ensures Strip(chunk + rest) == chunk + Strip(rest)
    decreases |chunk|
  {
    if chunk == [] {
      assert chunk + rest == rest;
    } else {
      assert (chunk + rest)[1..] == chunk[1..] + rest;
      StripChunk(chunk[1..], rest);
    }
  }

  lemma StripNewline(rest: Bytes)
    ensures Strip([LF] + rest) == Strip(rest)
  {
    assert ([LF] + rest)[1..] == rest;
  }

  lemma GroupsFront(chunk: Bytes, rest: Bytes)
    requires |chunk| == 4
    ensures Groups(chunk + rest) == Group(chunk) + (if LastGroup(chunk) then [] else Groups(rest))
  {
    hide Group, LastGroup;
    GroupOfFront(chunk, chunk + rest);
    assert (chunk + rest)[4..] == rest;
  }

  /** The groups of an encoded text are the bytes it was made of. */
  lemma {:induction false} GroupsOfEncoded(b: Bytes, ct: nat)
    ensures Groups(Strip(Encoded(b, ct))) == AsInts(b)
    decreases |b|
  {
    hide Group, LastGroup, IsSpace, FirstChunk, Groups, Encoded, Strip, AsInts;
    if b == [] {
      NothingEncoded(ct);
      assert AsInts(b) == [];
    } else {
      var ct' := if ct + 4 > 71 then 0 else ct + 4;
      var rest := Encoded(AfterChunk(b), ct');
      StripEncoded(b, ct);
      ChunkBack(b);
      GroupsFront(FirstChunk(b), Strip(rest));
      GroupsOfEncoded(AfterChunk(b), ct');
      var front := b[..|b| - |AfterChunk(b)|];
      assert b == front + AfterChunk(b);
      IntsJoin(front, AfterChunk(b));
      if |b| < 3 {
        assert AsInts(AfterChunk(b)) == [];
      }
    }
  }

  lemma StripEncoded(b: Bytes, ct: nat)
    requires b != []
    ensures Strip(Encoded(b, ct)) ==
            FirstChunk(b) + Strip(Encoded(AfterChunk(b), if ct + 4 > 71 then 0 else ct + 4))
  {
    hide IsSpace, FirstChunk, Strip;
    var rest := Encoded(AfterChunk(b), if ct + 4 > 71 then 0 else ct + 4);
    ChunkNoNewline(b);
    StripNewline(rest);
    StripChunk(FirstChunk(b), if ct + 4 > 71 then [LF] + rest else rest);
  }

  lemma IntsJoin(a: Bytes, b: Bytes)
    ensures AsInts(a + b) == AsInts(a) + AsInts(b)
  {
  }

  lemma NothingEncoded(ct: nat)
    ensures Groups(Strip(Encoded([], ct))) == []
  {
    assert [LF][1..] == [];
  }

  lemma {:induction false} PutPlain(b: Bytes)
    ensures PutAll(AsInts(b), false, false) == b
    decreases |b|
  {
    if b != [] {
      assert AsInts(b)[1..] == AsInts(b[1..]);
      PutPlain(b[1..]);
    }
  }

  /** With portable newlines off, decoding an encoded stream gives it back. */
  lemma RoundTrip(b: Bytes)
    ensures PutAll(Groups(Strip(Encoded(Canonical(b, false), 0))), false, false) == b
  {
    GroupsOfEncoded(b, 0);
    PutPlain(b);
  }

  /** Every run of carriage returns just before a line feed or the end has even length;
      `odd` tells the run before b. */
  predicate EvenRuns(b: Bytes, odd: bool)
    decreases |b|
  {
    if b == [] then !odd
    else if b[0] == CR then EvenRuns(b[1..], !odd)
    else if b[0] == LF then !odd && EvenRuns(b[1..], false)
    else EvenRuns(b[1..], false)
  }

  lemma {:induction false} CrFreeIsEven(b: Bytes)
    requires CR !in b
    ensures EvenRuns(b, false)
    decreases |b|
  {
    if b != [] {
      CrFreeIsEven(b[1..]);
    }
  }

  lemma {:induction false} PutPortable(b: Bytes, pending: bool)
    ensures PutAll(AsInts(Portable(b)), true, pending) == (if pending then [CR] else []) + b <==> EvenRuns(b, pending)
    decreases |b|
  {
    hide PutAll, Portable, AsInts;
    if b == [] {
      PutNothing(pending);
    } else if b[0] == LF {
      PutNewline(b, pending);
      PutPortable(b[1..], false);
      NewlineSame(b, pending, PutAll(AsInts(Portable(b[1..])), true, false));
    } else {
      PutOther(b, pending);
      PutPortable(b[1..], b[0] == CR && !pending);
      OtherSame(b, PutAll(AsInts(Portable(b[1..])), true, false));
    }
  }

  lemma NewlineSame(b: Bytes, pending: bool, r: Bytes)
    requires b != [] && b[0] == LF
    ensures [LF] + r == [] + b <==> [] + b[1..] == r
    ensures [CR, CR, LF] + r != [CR] + b
  {
    assert b == [LF] + b[1..];
    SameAfter([LF], b[1..], r);
    assert ([CR, CR, LF] + r)[1] != ([CR] + b)[1];
  }

  lemma OtherSame(b: Bytes, r: Bytes)
    requires b != []
    ensures [b[0]] + r == [] + b <==> [] + b[1..] == r
    ensures [CR, b[0]] + r == [CR] + b <==> [] + b[1..] == r
    ensures [b[0]] + b[1..] == [] + b
  {
    assert b == [b[0]] + b[1..];
    SameAfter([b[0]], b[1..], r);
    SameAfter([CR, b[0]], b[1..], r);
    assert [CR] + b == [CR, b[0]] + b[1..];
  }

  lemma SameAfter(a: Bytes, b: Bytes, r: Bytes)
    ensures a + r == a + b <==> r == b
    ensures [] + (a + b) == a + b && [] + r == r
  {
    if a + r == a + b {
      assert r == (a + r)[|a|..] && b == (a + b)[|a|..];
    }
  }

  lemma PutNothing(pending: bool)
    ensures PutAll(AsInts(Portable([])), true, pending) == []
  {
  }

  lemma PutOther(b: Bytes, pending: bool)
    requires b != [] && b[0] != LF
    ensures var rest := AsInts(Portable(b[1..]));
            PutAll(AsInts(Portable(b)), true, pending) ==
            if pending then [CR, b[0]] + PutAll(rest, true, false)
            else if b[0] == CR then PutAll(rest, true, true)
            else [b[0]] + PutAll(rest, true, false)
  {
    hide PutAll, Portable, AsInts;
    var rest := AsInts(Portable(b[1..]));
    PortableOther(b);
    PutNext(b[0] as int, rest, true, pending);
    assert [] + PutAll(rest, true, true) == PutAll(rest, true, true);
  }

  lemma PortableOther(b: Bytes)
    requires b != [] && b[0] != LF
    ensures AsInts(Portable(b)) == [b[0] as int] + AsInts(Portable(b[1..]))
  {
  }

  lemma PortableNewline(b: Bytes)
    requires b != [] && b[0] == LF
    ensures AsInts(Portable(b)) == [13] + ([10] + AsInts(Portable(b[1..])))
  {
  }

  lemma PutNext(c: int, rest: seq<int>, portable: bool, pending: bool)
    ensures PutAll([c] + rest, portable, pending) ==
            PutOne(c, portable, pending) + PutAll(rest, portable, Pends(c, portable, pending))
  {
    assert ([c] + rest)[1..] == rest;
  }

  lemma PutNewline(b: Bytes, pending: bool)
    requires b != [] && b[0] == LF
    ensures var r := PutAll(AsInts(Portable(b[1..])), true, false);
            PutAll(AsInts(Portable(b)), true, pending) ==
            if pending then [CR, CR, LF] + r else [LF] + r
  {
    hide PutAll, Portable, AsInts;
    var rest := AsInts(Portable(b[1..]));
    var r := PutAll(rest, true, false);
    PortableNewline(b);
    PutNext(13, [10] + rest, true, pending);
    PutNext(10, rest, true, !pending);
    if pending {
      Regroup([CR, CR], [LF], r);
      assert [CR, CR] + [LF] == [CR, CR, LF];
    } else {
      assert [] + ([LF] + r) == [LF] + r;
    }
  }
  /** With portable newlines on, decoding gives the stream back exactly when every run of
      carriage returns before a line feed or at the end is even; so always when there are
      no carriage returns. */
  lemma PortableRoundTrip(b: Bytes)
    ensures PutAll(Groups(Strip(Encoded(Canonical(b, true), 0))), true, false) == b <==> EvenRuns(b, false)
    ensures 13 !in b ==> PutAll(Groups(Strip(Encoded(Canonical(b, true), 0))), true, false) == b
  {
    GroupsOfEncoded(Portable(b), 0);
    PutPortable(b, false);
    assert [] + b == b;
    if CR !in b {
      CrFreeIsEven(b);
    }
  }

  /** White space anywhere in the encoded text changes nothing. */
  lemma {:induction false} StripInserted(a: Bytes, spaces: Bytes, c: Bytes)
    requires forall i :: 0 <= i < |spaces| ==> IsSpace(spaces[i])
    ensures Strip(a + spaces + c) == Strip(a + c)
    decreases |a| + |spaces|
  {
    if a != [] {
      assert (a + spaces + c)[1..] == a[1..] + spaces + c && (a + c)[1..] == a[1..] + c;
      StripInserted(a[1..], spaces, c);
    } else if spaces != [] {
      assert (a + spaces + c)[1..] == a + spaces[1..] + c;
      StripInserted(a, spaces[1..], c);
    } else {
      assert a + spaces + c == a + c;
    }
  }

  /** White space inserted at any number of places: the i-th gap goes before the i-th
      character, or behind the last one. */
  function Spaced(text: Bytes, gaps: seq<Bytes>): Bytes
    decreases |gaps|
  {
    if gaps == [] then text
    else if text == [] then gaps[0] + Spaced([], gaps[1..])
    else gaps[0] + ([text[0]] + Spaced(text[1..], gaps[1..]))
  }

  /** Nothing but blanks, tabs, line feeds and the like. */
  predicate Blank(s: Bytes) {
    forall i :: 0 <= i < |s| ==> s[i] == 32 || 9 <= s[i] <= 13
  }

  lemma StripBlank(gap: Bytes, s: Bytes)
    requires Blank(gap)
    ensures Strip(gap + s) == Strip(s)
  {
    assert [] + gap + s == gap + s && [] + s == s;
    StripInserted([], gap, s);
  }

  lemma {:induction false} StripSpaced(text: Bytes, gaps: seq<Bytes>)
    requires forall i :: 0 <= i < |gaps| ==> Blank(gaps[i])
    ensures Strip(Spaced(text, gaps)) == Strip(text)
    decreases |gaps|
  {
    hide IsSpace, Blank;
    if gaps != [] {
      if text == [] {
        StripBlank(gaps[0], Spaced([], gaps[1..]));
        StripSpaced([], gaps[1..]);
      } else {
        StripBlank(gaps[0], [text[0]] + Spaced(text[1..], gaps[1..]));
        StripSpaced(text[1..], gaps[1..]);
        StripHead(text[0], Spaced(text[1..], gaps[1..]), text[1..]);
        assert text == [text[0]] + text[1..];
      }
    }
  }

  lemma StripHead(c: Byte, a: Bytes, b: Bytes)
    requires Strip(a) == Strip(b)
    ensures Strip([c] + a) == Strip([c] + b)
  {
    assert ([c] + a)[1..] == a && ([c] + b)[1..] == b;
  }

  /** What decoding makes of any text that is the encoded one but for white space. */
  lemma DecodedBack(b: Bytes, portable: bool, text: Bytes)
    requires Strip(text) == Strip(Encoded(Canonical(b, portable), 0))
    ensures PutAll(Groups(Strip(text)), portable, false) == b <==> (portable ==> EvenRuns(b, false))
  {
    hide PutAll, Groups, Strip, Encoded, Canonical, EvenRuns, IsSpace;
    RoundTrip(b);
    PortableRoundTrip(b);
  }

  /** Decoding such a text. */
  method DecodeText(b: Bytes, portable: bool, text: Bytes) returns (out: Bytes)
    requires Strip(text) == Strip(Encoded(Canonical(b, portable), 0))
    ensures out == b <==> (portable ==> EvenRuns(b, false))
  {
    hide PutAll, PendingAfter, Groups, Strip, Encoded, Canonical, EvenRuns, WholeGroups;
    var dec := new Decoder(text, portable);
    var stray := dec.From64();
    out := dec.out;
    DecodedBack(b, portable, text);
  }

  /** Encoding a stream, inserting white space anywhere and decoding. */
  method EncodeDecode(b: Bytes, portable: bool, gaps: seq<Bytes>) returns (out: Bytes)
    requires forall i :: 0 <= i < |gaps| ==> Blank(gaps[i])
    ensures out == b <==> (portable ==> EvenRuns(b, false))
  {
    hide Strip, Encoded, Canonical, EvenRuns, Blank, Spaced;
    var enc := new Encoder(b, portable);
    assert enc.input == b && enc.input[enc.pos..] == b;
    var text := enc.To64();
    StripSpaced(text, gaps);
    out := DecodeText(b, portable, Spaced(text, gaps));
  }

  // ---- the text itself ----------------------------------------------------

  const UPPER := "ABCDEFGHIJKLMNOPQRSTUVWXYZ"
  const LOWER := "abcdefghijklmnopqrstuvwxyz"
  const OTHERS := "0123456789+/"
  /** The alphabet of section 6.8 of RFC 2045. */
  const ALPHABET := UPPER + LOWER + OTHERS

  lemma UpperAt(k: nat)
    requires k < 26
    ensures |UPPER| == 26 && UPPER[k] as int == 65 + k
  {
  }

  lemma LowerAt(k: nat)
    requires k < 26
    ensures |LOWER| == 26 && LOWER[k] as int == 97 + k
  {
  }

  lemma OthersAt(k: nat)
    requires k < 12
    ensures |OTHERS| == 12 && OTHERS[k] as int == if k < 10 then 48 + k else if k == 10 then 43 else 47
  {
  }

  lemma AlphabetBasis(k: nat)
    requires k < 64
    ensures |ALPHABET| == 64 && Basis(k) as int == ALPHABET[k] as int
  {
    hide UPPER, LOWER, OTHERS;
    UpperAt(if k < 26 then k else 0);
    LowerAt(if 26 <= k < 52 then k - 26 else 0);
    OthersAt(if k >= 52 then k - 52 else 0);
  }

  /** The character at a place of the alphabet. */
  function Letter(k: nat): (c: Byte)
    requires k < 64
    ensures |ALPHABET| == 64 && c as int == ALPHABET[k] as int
  {
    AlphabetBasis(k);
    ALPHABET[k] as int as Byte
  }

  /** Three bytes are a number of 24 bits, written as four digits of base 64; the last ones
      may be "=" instead. */
  function Quad(c1: Byte, c2: Byte, c3: Byte, pads: nat): Bytes {
    Written64(c1 as int * 65536 + c2 as int * 256 + c3 as int, pads)
  }

  function Written64(v: nat, pads: nat): Bytes
    requires v < 16777216
  {
    [Letter(v / 262144), Letter(v / 4096 % 64),
     if pads >= 2 then 61 else Letter(v / 64 % 64), if pads >= 1 then 61 else Letter(v % 64)]
  }

  /** Base64: one or two bytes at the end are filled up with zero bits, and the digits that
      hold none of their own bits are "=". */
  function Base64(b: Bytes): Bytes {
    if b == [] then []
    else if |b| == 1 then Quad(b[0], 0, 0, 2)
    else if |b| == 2 then Quad(b[0], b[1], 0, 1)
    else Quad(b[0], b[1], b[2], 0) + Base64(b[3..])
  }

  /** Text in lines of 72 characters, each ended by a line feed, when the current line
      already has some characters. */
  function Broken(s: Bytes, col: nat): Bytes
    requires col < 72
    decreases |s|
  {
    if s == [] then (if col > 0 then [10] else [])
    else if |s| <= 72 - col then s + [10]
    else s[..72 - col] + [10] + Broken(s[72 - col..], 0)
  }

  lemma LetterBasis(k: nat)
    requires k < 64
    ensures Basis(k) == Letter(k)
  {
    AlphabetBasis(k);
  }

  /** The digits of the number that three bytes make. */
  lemma Digits64(c1: nat, c2: nat, c3: nat)
    requires c1 < 256 && c2 < 256 && c3 < 256
    ensures var v := c1 * 65536 + c2 * 256 + c3;
            v / 262144 == c1 / 4 && v / 4096 % 64 == c1 % 4 * 16 + c2 / 16 &&
            v / 64 % 64 == c2 % 16 * 4 + c3 / 64 && v % 64 == c3 % 64
  {
    var a, b := c1 * 16 + c2 / 16, c1 * 1024 + c2 * 4 + c3 / 64;
    DivModUnique(c1 * 65536 + c2 * 256 + c3, 262144, c1 / 4, c1 % 4 * 65536 + c2 * 256 + c3);
    DivModUnique(c1 * 65536 + c2 * 256 + c3, 4096, a, c2 % 16 * 256 + c3);
    DivModUnique(c1 * 65536 + c2 * 256 + c3, 64, b, c3 % 64);
    DivModUnique(a, 64, c1 / 4, c1 % 4 * 16 + c2 / 16);
    DivModUnique(b, 64, a, c2 % 16 * 4 + c3 / 64);
  }

  lemma ChunkLetters(c1: Byte, c2: Byte, c3: Byte, pads: nat)
    requires pads <= 2
    ensures Chunk(c1 as int, c2 as int, c3 as int, pads) == Quad(c1, c2, c3, pads)
  {
    hide Written64, Chunk;
    var a, b, c := c1 as int, c2 as int, c3 as int;
    Digits64(a, b, c);
    WrittenIs(a * 65536 + b * 256 + c, a / 4, a % 4 * 16 + b / 16, b % 16 * 4 + c / 64, c % 64, pads);
    ChunkIs(a, b, c, pads);
  }

  lemma WrittenIs(v: nat, d1: nat, d2: nat, d3: nat, d4: nat, pads: nat)
    requires v < 16777216 && d1 < 64 && d2 < 64 && d3 < 64 && d4 < 64
    requires v / 262144 == d1 && v / 4096 % 64 == d2 && v / 64 % 64 == d3 && v % 64 == d4
    ensures Written64(v, pads) ==
            [Letter(d1), Letter(d2), if pads >= 2 then 61 else Letter(d3), if pads >= 1 then 61 else Letter(d4)]
  {
  }

  lemma ChunkIs(a: nat, b: nat, c: nat, pads: nat)
    requires a < 256 && b < 256 && c < 256 && pads <= 2
    ensures Chunk(a, b, c, pads) ==
            [Letter(a / 4), Letter(a % 4 * 16 + b / 16),
             if pads >= 2 then 61 else Letter(b % 16 * 4 + c / 64), if pads >= 1 then 61 else Letter(c % 64)]
  {
    hide Basis, Letter;
    LetterBasis(a / 4);
    LetterBasis(a % 4 * 16 + b / 16);
    LetterBasis(b % 16 * 4 + c / 64);
    LetterBasis(c % 64);
  }

  lemma ChunkText(b: Bytes)
    requires b != []
    ensures Base64(b) == FirstChunk(b) + Base64(AfterChunk(b))
  {
    hide Quad, Chunk;
    ChunkLetters(b[0], if |b| > 1 then b[1] else 0, if |b| > 2 then b[2] else 0,
                 if |b| == 1 then 2 else if |b| == 2 then 1 else 0);
    if |b| <= 3 {
      assert FirstChunk(b) + [] == FirstChunk(b);
      assert |b| == 3 ==> b[3..] == [];
    }
  }

  lemma BrokenIs(s: Bytes, col: nat)
    requires col < 72 && s != []
    ensures |s| <= 72 - col ==> Broken(s, col) == s + [10]
    ensures |s| > 72 - col ==> Broken(s, col) == s[..72 - col] + [10] + Broken(s[72 - col..], 0)
  {
  }

  lemma BrokenNothing(col: nat)
    requires col < 72
    ensures Broken([], col) == if col > 0 then [10] else []
  {
  }

  lemma BrokenChunk(chunk: Bytes, s: Bytes, col: nat)
    requires |chunk| == 4 && col <= 68
    ensures Broken(chunk + s, col) ==
            if col == 68 then chunk + ([10] + Broken(s, 0)) else chunk + Broken(s, col + 4)
  {
    hide Broken;
    BrokenIs(chunk + s, col);
    if |chunk + s| <= 72 - col {
      ChunkInLine(chunk, s, col);
    } else {
      ChunkBeforeLine(chunk, s, 72 - col);
      var rest := Broken(s[68 - col..], 0);
      if col == 68 {
        assert s[0..] == s && s[..0] == [] && chunk + [] == chunk;
        Regroup(chunk, [10], rest);
      } else {
        BrokenIs(s, col + 4);
        Regroup(chunk, s[..68 - col] + [10], rest);
        Regroup(chunk, s[..68 - col], [10]);
      }
    }
  }

  lemma ChunkInLine(chunk: Bytes, s: Bytes, col: nat)
    requires |chunk| == 4 && col <= 68 && |chunk + s| <= 72 - col
    ensures chunk + s + [10] == if col == 68 then chunk + ([10] + Broken(s, 0)) else chunk + Broken(s, col + 4)
  {
    hide Broken;
    Regroup(chunk, s, [10]);
    BrokenNothing(0);
    if s == [] {
      BrokenNothing(if col < 68 then col + 4 else 0);
      assert [10] + [] == [10] && s + [10] == [10];
    } else {
      BrokenIs(s, col + 4);
    }
  }

  lemma ChunkBeforeLine(chunk: Bytes, s: Bytes, room: nat)
    requires |chunk| == 4 && 4 <= room < |chunk + s|
    ensures (chunk + s)[..room] == chunk + s[..room - 4] && (chunk + s)[room..] == s[room - 4..]
  {
  }

  /** What the encoder writes is that text, in those lines. */
  lemma {:induction false} EncodedText(b: Bytes, ct: nat)
    requires ct % 4 == 0 && ct <= 68
    ensures Encoded(b, ct) == Broken(Base64(b), ct)
    decreases |b|
  {
    hide FirstChunk, Broken, Base64;
    if b == [] {
      BrokenEnd(ct);
    } else {
      ChunkText(b);
      BrokenChunk(FirstChunk(b), Base64(AfterChunk(b)), ct);
      EncodedText(AfterChunk(b), if ct == 68 then 0 else ct + 4);
    }
  }

  lemma BrokenEnd(ct: nat)
    requires ct < 72
    ensures Broken(Base64([]), ct) == if ct > 0 then [10] else []
  {
  }

  /** With portable newlines every line feed, and nothing else, becomes two characters. */
  lemma {:induction false} PortableLaw(a: Bytes, b: Bytes)
    requires 10 !in a
    ensures Portable(a) == a
    ensures Portable(a + [10] + b) == a + [13, 10] + Portable(b)
    decreases |a|
  {
    if a == [] {
      assert a + [10] + b == [10] + b && ([10] + b)[1..] == b;
      assert a + [13, 10] == [13, 10];
    } else {
      PortableLaw(a[1..], b);
      assert a == [a[0]] + a[1..];
      assert (a + [10] + b)[1..] == a[1..] + [10] + b;
      assert a + [13, 10] + Portable(b) == [a[0]] + (a[1..] + [13, 10] + Portable(b));
    }
  }

  // ---- what a group of characters says ------------------------------------

  lemma LetterChar(k: nat)
    requires k < 64
    ensures Char64(Letter(k) as int) == k && Letter(k) != PAD
  {
    LetterBasis(k);
  }

  lemma FirstIs(a: Byte, b: Byte, k1: nat, k2: nat)
    requires k1 < 64 && k2 < 64 && Char64(a as int) == k1 && Char64(b as int) == k2
    ensures First(a, b) == k1 * 4 + k2 / 16
  {
    hide And, Or, Char64;
    MaskTop(k2);
    assert Pow2(2) == 4;
    OrIsPlus(k1, k2 / 16, 2);
  }

  lemma SecondIs(a: Byte, b: Byte, k2: nat, k3: nat)
    requires k2 < 64 && k3 < 64 && Char64(a as int) == k2 && Char64(b as int) == k3
    ensures Second(a, b) == k2 % 16 * 16 + k3 / 4
  {
    hide And, Or, Char64;
    MaskLow(k2);
    MaskMiddle(k3);
    assert Pow2(4) == 16;
    OrIsPlus(k2 % 16, k3 / 4, 4);
  }

  lemma ThirdIs(a: Byte, b: Byte, k3: nat, k4: nat)
    requires k3 < 64 && k4 < 64 && Char64(a as int) == k3 && Char64(b as int) == k4
    ensures Third(a, b) == k3 % 4 * 64 + k4
  {
    hide And, Or, Char64;
    MaskLow(k3);
    assert Pow2(6) == 64;
    OrIsPlus(k3 % 4, k4, 6);
  }

  /** The bytes of the number that four digits make. */
  lemma Bytes64(k1: nat, k2: nat, k3: nat, k4: nat)
    requires k1 < 64 && k2 < 64 && k3 < 64 && k4 < 64
    ensures var v := k1 * 262144 + k2 * 4096 + k3 * 64 + k4;
            v / 65536 == k1 * 4 + k2 / 16 && v / 256 % 256 == k2 % 16 * 16 + k3 / 4 && v % 256 == k3 % 4 * 64 + k4
  {
    var a, b := k1 * 4 + k2 / 16, k1 * 1024 + k2 * 16 + k3 / 4;
    DivModUnique(k1 * 262144 + k2 * 4096 + k3 * 64 + k4, 65536, a, k2 % 16 * 4096 + k3 * 64 + k4);
    DivModUnique(k1 * 262144 + k2 * 4096 + k3 * 64 + k4, 256, b, k3 % 4 * 64 + k4);
    DivModUnique(b, 256, a, k2 % 16 * 16 + k3 / 4);
  }

  /** A group of four characters of the alphabet stands for the bytes of the number whose
      digits of base 64 are their places in it; with "=" at its end, for those bytes the
      remaining digits fill; and with "=" before, for nothing. */
  lemma GroupLaw(k1: nat, k2: nat, k3: nat, k4: nat, x: Byte)
    requires k1 < 64 && k2 < 64 && k3 < 64 && k4 < 64
    ensures var v := k1 * 262144 + k2 * 4096 + k3 * 64 + k4;
            Group([Letter(k1), Letter(k2), Letter(k3), Letter(k4)]) == [v / 65536, v / 256 % 256, v % 256] &&
            Group([Letter(k1), Letter(k2), Letter(k3), 61]) == [v / 65536, v / 256 % 256] &&
            Group([Letter(k1), Letter(k2), 61, x]) == [v / 65536] &&
            Group([Letter(k1), 61, x, x]) == [] && Group([61, x, x, x]) == []
    ensures LastGroup([Letter(k1), Letter(k2), Letter(k3), 61]) && LastGroup([Letter(k1), Letter(k2), 61, x])
    ensures !LastGroup([Letter(k1), Letter(k2), Letter(k3), Letter(k4)])
  {
    hide First, Second, Third, Letter;
    Bytes64(k1, k2, k3, k4);
    LetterChar(k1);
    LetterChar(k2);
    LetterChar(k3);
    LetterChar(k4);
    FirstIs(Letter(k1), Letter(k2), k1, k2);
    SecondIs(Letter(k2), Letter(k3), k2, k3);
    ThirdIs(Letter(k3), Letter(k4), k3, k4);
  }

  /** A text that is base64 but for white space decodes to the bytes it was made of. */
  lemma DecodesBase64(b: Bytes, text: Bytes)
    requires Strip(text) == Base64(b)
    ensures Groups(Strip(text)) == AsInts(b)
  {
    hide Groups, Base64, Broken, Strip;
    GroupsOfEncoded(b, 0);
    EncodedText(b, 0);
    StripBase64(b, 0);
  }

  lemma {:induction false} StripBase64(b: Bytes, ct: nat)
    ensures Strip(Encoded(b, ct)) == Base64(b)
    decreases |b|
  {
    hide Encoded, Base64, FirstChunk, Strip;
    if b == [] {
      StripEnd(ct);
    } else {
      StripEncoded(b, ct);
      ChunkText(b);
      StripBase64(AfterChunk(b), if ct + 4 > 71 then 0 else ct + 4);
    }
  }

  lemma StripEnd(ct: nat)
    ensures Strip(Encoded([], ct)) == Base64([])
  {
    assert [LF][1..] == [];
  }

  /** Every other character counts as -1. */
  lemma OutsideLaw(c: Byte)
    ensures Char64(c as int) == -1 || (0 <= Char64(c as int) && Letter(Char64(c as int)) == c)
  {
    if Char64(c as int) >= 0 {
      LetterBasis(Char64(c as int));
    }
  }
}
