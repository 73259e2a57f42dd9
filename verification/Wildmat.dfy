/** Shell-style pattern matching (wildmat.c) against a declarative reading of patterns. */
module Wildmat {
  import opened Bytes

  /** A character of a C string: never NUL, possibly negative. */
  type Text = seq<int>

  const STAR := 42
  const DASH := 45
  const QUESTION := 63
  const LBRACKET := 91
  const BACKSLASH := 92
  const RBRACKET := 93
  const NEGATE := 94

  /** What may stand between the brackets of a character class. */
  datatype Item = One(c: int) | Range(lo: int, hi: int)

  /** One element of a pattern. Nothing matches a backslash that ends the pattern. */
  datatype Token = Lit(c: int) | AnyOne | Stars | Class(negated: bool, items: seq<Item>) | Never

  // ---- reading patterns ---------------------------------------------------

  datatype Items = Items(items: seq<Item>, close: nat)

  /** The items of a class from index i on, up to the closing bracket; `last` is the
      character before i. None when the class is never closed. */
  function ItemsFrom(p: Text, i: nat, last: int): (r: Option<Items>)
    ensures r.Some? ==> i <= r.value.close < |p| && p[r.value.close] == RBRACKET
    decreases |p| - i
  {
    if i >= |p| then None
    else if p[i] == RBRACKET then Some(Items([], i))
    else if p[i] == DASH && (i + 1 >= |p| || p[i + 1] != RBRACKET) then
      if i + 1 >= |p| then None
      else
        match ItemsFrom(p, i + 2, p[i + 1])
        case None => None
        case Some(r) => Some(Items([Range(last, p[i + 1])] + r.items, r.close))
    else
      match ItemsFrom(p, i + 1, p[i])
      case None => None
      case Some(r) => Some(Items([One(p[i])] + r.items, r.close))
  }

  predicate NegatedAt(p: Text, i: nat) {
    i + 1 < |p| && p[i + 1] == NEGATE
  }

  /** The class that opens at index i: a bracket or dash right after the opening stands for
      itself. */
  function ClassAt(p: Text, i: nat): (r: Option<Items>)
    requires i < |p|
    ensures r.Some? ==> i < r.value.close < |p|
  {
    var j := if NegatedAt(p, i) then i + 1 else i;
    if j + 1 < |p| && (p[j + 1] == RBRACKET || p[j + 1] == DASH) then
      match ItemsFrom(p, j + 2, p[j + 1])
      case None => None
      case Some(r) => Some(Items([One(p[j + 1])] + r.items, r.close))
    else
      ItemsFrom(p, j + 1, p[j])
  }

  datatype Read = Read(token: Token, next: nat)

  /** The token at index i and where the next one starts. */
  function TokenAt(p: Text, i: nat): (r: Option<Read>)
    requires i < |p|
    ensures r.Some? ==> i < r.value.next <= |p|
    ensures r.Some? ==> (r.value.token == Stars <==> p[i] == STAR)
  {
    if p[i] == BACKSLASH then
      if i + 1 < |p| then Some(Read(Lit(p[i + 1]), i + 2)) else Some(Read(Never, i + 1))
    else if p[i] == QUESTION then Some(Read(AnyOne, i + 1))
    else if p[i] == STAR then Some(Read(Stars, i + 1))
    else if p[i] == LBRACKET then
      match ClassAt(p, i)
      case None => None
      case Some(r) => Some(Read(Class(NegatedAt(p, i), r.items), r.close + 1))
    else Some(Read(Lit(p[i]), i + 1))
  }

  /** The tokens from index i on; none when a class is not closed. */
  function TokensFrom(p: Text, i: nat): Option<seq<Token>>
    decreases |p| - i
  {
    if i >= |p| then Some([])
    else
      match TokenAt(p, i)
      case None => None
      case Some(r) =>
        match TokensFrom(p, r.next)
        case None => None
        case Some(rest) => Some([r.token] + rest)
  }

  /** Every class of the pattern is closed. */
  predicate WellFormed(p: Text) {
    TokensFrom(p, 0).Some?
  }

  // ---- what patterns mean -------------------------------------------------

  predicate ItemMatches(item: Item, c: int) {
    match item
    case One(d) => c == d
    case Range(lo, hi) => lo <= c <= hi
  }

  predicate SomeItem(items: seq<Item>, c: int) {
    exists i :: 0 <= i < |items| && ItemMatches(items[i], c)
  }

  predicate TokenMatches(t: Token, c: int)
    requires t != Stars
  {
    match t
    case Lit(d) => c == d
    case AnyOne => true
    case Class(negated, items) => SomeItem(items, c) != negated
    case Never => false
  }

  /** The text is what the tokens stand for: a star for any run of characters, every other
      token for exactly one. */
  ghost predicate Glob(ts: seq<Token>, text: Text)
    decreases |ts|
  {
    if ts == [] then text == []
    else if ts[0] == Stars then exists k :: 0 <= k <= |text| && Glob(ts[1..], text[k..])
    else text != [] && TokenMatches(ts[0], text[0]) && Glob(ts[1..], text[1..])
  }

  /** The text is what the pattern stands for. */
  ghost predicate Matches(p: Text, text: Text)
    requires WellFormed(p)
  {
    Glob(TokensFrom(p, 0).value, text)
  }

  /** The meaning of a pattern from an index on, for a text from an index on. */
  ghost predicate Means(p: Text, i: nat, text: Text, d: nat)
    requires TokensFrom(p, i).Some? && d <= |text|
  {
    Glob(TokensFrom(p, i).value, text[d..])
  }

  /** No suffix of the text from d on matches. */
  ghost predicate NoneFrom(p: Text, i: nat, text: Text, d: nat)
    requires TokensFrom(p, i).Some?
  {
    forall e: nat :: d <= e <= |text| ==> !Means(p, i, text, e)
  }

  lemma MeansEnd(p: Text, i: nat, text: Text, d: nat)
    requires i >= |p| && d <= |text|
    ensures TokensFrom(p, i) == Some([])
    ensures Means(p, i, text, d) <==> d == |text|
  {
  }

  lemma MeansOne(p: Text, i: nat, text: Text, d: nat)
    requires i < |p| && TokensFrom(p, i).Some? && d <= |text| && p[i] != STAR
    ensures TokenAt(p, i).Some? && TokensFrom(p, TokenAt(p, i).value.next).Some?
    ensures var r := TokenAt(p, i).value;
            Means(p, i, text, d) <==>
            d < |text| && TokenMatches(r.token, text[d]) && Means(p, r.next, text, d + 1)
  {
    if d < |text| {
      assert text[d..][1..] == text[d + 1..];
    }
  }

  lemma PickFrom(p: Text, i: nat, text: Text, d: nat) returns (e: nat)
    requires TokensFrom(p, i).Some? && !NoneFrom(p, i, text, d)
    ensures d <= e <= |text| && Means(p, i, text, e)
  {
    e :| d <= e <= |text| && Means(p, i, text, e);
  }

  lemma MeansStar(p: Text, i: nat, text: Text, d: nat)
    requires i < |p| && TokensFrom(p, i).Some? && d <= |text| && p[i] == STAR
    ensures TokensFrom(p, i + 1).Some?
    ensures Means(p, i, text, d) <==> !NoneFrom(p, i + 1, text, d)
  {
    var ts := TokensFrom(p, i).value;
    assert ts[1..] == TokensFrom(p, i + 1).value;
    if Means(p, i, text, d) {
      var k :| 0 <= k <= |text[d..]| && Glob(ts[1..], text[d..][k..]);
      assert text[d..][k..] == text[d + k..];
      assert Means(p, i + 1, text, d + k);
    }
    if !NoneFrom(p, i + 1, text, d) {
      var e := PickFrom(p, i + 1, text, d);
      assert text[d..][e - d..] == text[e..];
    }
  }

  // ---- the matcher --------------------------------------------------------

  datatype Result = True | False | Abort

  /** The class loop of `DoMatch`, with `p[i]` the opening bracket: whether the character is
      in the class, and the index of the closing bracket. */
  method MatchClass(p: Text, i: nat, c: int) returns (ok: bool, close: nat)
    requires i < |p| && p[i] == LBRACKET && ClassAt(p, i).Some?
    ensures close == ClassAt(p, i).value.close
    ensures ok <==> SomeItem(ClassAt(p, i).value.items, c) != NegatedAt(p, i)
  {
    hide ItemsFrom, SomeItem, ClassAt;
    ClassStart(p, i, c);
    var j := i;
    var reverse := j + 1 < |p| && p[j + 1] == NEGATE;
    if reverse {
      j := j + 1;
    }
    var matched := false;
    if j + 1 < |p| && (p[j + 1] == RBRACKET || p[j + 1] == DASH) {
      j := j + 1;
      if p[j] == c {
        matched := true;
      }
    }
    var last := p[j];
    j := j + 1;
    while j < |p| && p[j] != RBRACKET
      invariant j <= |p| && ItemsFrom(p, j, last).Some?
      invariant ItemsFrom(p, j, last).value.close == ClassAt(p, i).value.close
      invariant SomeItem(ClassAt(p, i).value.items, c) <==> matched || SomeItem(ItemsFrom(p, j, last).value.items, c)
      decreases |p| - j
    {
      SomeOfMore(p, j, last, c);
      if p[j] == DASH && (j + 1 >= |p| || p[j + 1] != RBRACKET) {
        j := j + 1;
        if c <= p[j] && c >= last {
          matched := true;
        }
      } else if c == p[j] {
        matched := true;
      }
      last := p[j];
      j := j + 1;
    }
    NoMoreItems(p, j, last, c);
    ok := matched != reverse;
    close := j;
  }

  lemma SomeOfFront(item: Item, items: seq<Item>, c: int)
    ensures SomeItem([item] + items, c) <==> ItemMatches(item, c) || SomeItem(items, c)
  {
    if ItemMatches(item, c) {
      assert ItemMatches(([item] + items)[0], c);
    }
    if i :| 0 <= i < |items| && ItemMatches(items[i], c) {
      assert ItemMatches(([item] + items)[i + 1], c);
    }
  }

  /** Where the items of a class start: after a negation, and after a bracket or dash that
      stands for itself. */
  lemma ClassStart(p: Text, i: nat, c: int)
    requires i < |p| && p[i] == LBRACKET && ClassAt(p, i).Some?
    ensures var j := if NegatedAt(p, i) then i + 1 else i;
            if j + 1 < |p| && (p[j + 1] == RBRACKET || p[j + 1] == DASH) then
              ItemsFrom(p, j + 2, p[j + 1]).Some? &&
              ItemsFrom(p, j + 2, p[j + 1]).value.close == ClassAt(p, i).value.close &&
              (SomeItem(ClassAt(p, i).value.items, c) <==>
               p[j + 1] == c || SomeItem(ItemsFrom(p, j + 2, p[j + 1]).value.items, c))
            else
              ItemsFrom(p, j + 1, p[j]) == ClassAt(p, i)
  {
    hide ItemsFrom, SomeItem;
    var j := if NegatedAt(p, i) then i + 1 else i;
    if j + 1 < |p| && (p[j + 1] == RBRACKET || p[j + 1] == DASH) {
      SomeOfFront(One(p[j + 1]), ItemsFrom(p, j + 2, p[j + 1]).value.items, c);
    }
  }

  lemma NoMoreItems(p: Text, j: nat, last: int, c: int)
    requires j <= |p| && ItemsFrom(p, j, last).Some? && (j < |p| ==> p[j] == RBRACKET)
    ensures j < |p| && ItemsFrom(p, j, last).value.close == j && !SomeItem(ItemsFrom(p, j, last).value.items, c)
  {
  }

  lemma SomeOfMore(p: Text, j: nat, last: int, c: int)
    requires j < |p| && p[j] != RBRACKET && ItemsFrom(p, j, last).Some?
    ensures if p[j] == DASH && (j + 1 >= |p| || p[j + 1] != RBRACKET) then
              j + 1 < |p| && ItemsFrom(p, j + 2, p[j + 1]).Some? &&
              ItemsFrom(p, j + 2, p[j + 1]).value.close == ItemsFrom(p, j, last).value.close &&
              (SomeItem(ItemsFrom(p, j, last).value.items, c) <==>
               last <= c <= p[j + 1] || SomeItem(ItemsFrom(p, j + 2, p[j + 1]).value.items, c))
            else
              ItemsFrom(p, j + 1, p[j]).Some? &&
              ItemsFrom(p, j + 1, p[j]).value.close == ItemsFrom(p, j, last).value.close &&
              (SomeItem(ItemsFrom(p, j, last).value.items, c) <==>
               c == p[j] || SomeItem(ItemsFrom(p, j + 1, p[j]).value.items, c))
  {
    if p[j] == DASH && (j + 1 >= |p| || p[j + 1] != RBRACKET) {
      SomeOfFront(Range(last, p[j + 1]), ItemsFrom(p, j + 2, p[j + 1]).value.items, c);
    } else {
      SomeOfFront(One(p[j]), ItemsFrom(p, j + 1, p[j]).value.items, c);
    }
  }

  /** A lone token, then the rest: what holds after it has been matched at ti. */
  lemma StepOver(p: Text, pi: nat, text: Text, ti: nat)
    requires pi < |p| && TokensFrom(p, pi).Some? && p[pi] != STAR && ti < |text|
    ensures TokenAt(p, pi).Some? && TokensFrom(p, TokenAt(p, pi).value.next).Some?
    ensures NoneFrom(p, TokenAt(p, pi).value.next, text, ti + 1) ==> NoneFrom(p, pi, text, ti)
  {
    MeansOne(p, pi, text, ti);
    var next := TokenAt(p, pi).value.next;
    if NoneFrom(p, next, text, ti + 1) {
      forall e: nat | ti <= e <= |text|
        ensures !Means(p, pi, text, e)
      {
        MeansOne(p, pi, text, e);
      }
    }
  }

  /** Nothing matches once the text has run out before a token that needs a character. */
  lemma OutOfText(p: Text, pi: nat, text: Text)
    requires pi < |p| && TokensFrom(p, pi).Some? && p[pi] != STAR
    ensures NoneFrom(p, pi, text, |text|)
  {
    MeansOne(p, pi, text, |text|);
  }

  /** DoMatch: the pattern from pi on against the text from ti on. True and False decide the
      match; Abort says that no suffix of the text matches, so that a star waiting for this
      pattern need not try any later start. `calls` counts activations. */
  method DoMatch(text: Text, ti0: nat, p: Text, pi0: nat) returns (r: Result, ghost calls: nat)
    requires ti0 <= |text| && pi0 <= |p| && TokensFrom(p, pi0).Some?
    ensures r == True <==> Means(p, pi0, text, ti0)
    ensures r == Abort ==> NoneFrom(p, pi0, text, ti0)
    ensures 1 <= calls <= |text| - ti0 + 1
    ensures r == False ==> calls == 1
    ensures pi0 < |p| && p[pi0] != STAR && ti0 < |text| ==> calls <= |text| - ti0
    decreases |p| - pi0
  {
    hide Means, NoneFrom, TokensFrom, Glob, ItemsFrom, SomeItem;
    calls := 1;
    var ti, pi := ti0, pi0;
    while pi < |p|
      invariant pi0 <= pi <= |p| && ti0 <= ti <= |text| && TokensFrom(p, pi).Some?
      invariant Means(p, pi, text, ti) <==> Means(p, pi0, text, ti0)
      invariant NoneFrom(p, pi, text, ti) ==> NoneFrom(p, pi0, text, ti0)
      invariant pi == pi0 <==> ti == ti0
      decreases |p| - pi
    {
      if ti == |text| && p[pi] != STAR {
        OutOfText(p, pi, text);
        return Abort, calls;
      }
      if p[pi] == STAR {
        r, calls := StarLoop(text, ti, p, pi);
        return r, calls;
      }
      StepOver(p, pi, text, ti);
      MeansOne(p, pi, text, ti);
      if p[pi] == BACKSLASH {
        if pi + 1 == |p| {
          return False, calls;
        }
        pi := pi + 1;
        if text[ti] != p[pi] {
          return False, calls;
        }
      } else if p[pi] == QUESTION {
      } else if p[pi] == LBRACKET {
        var ok, close := MatchClass(p, pi, text[ti]);
        if !ok {
          return False, calls;
        }
        pi := close;
      } else if text[ti] != p[pi] {
        return False, calls;
      }
      ti, pi := ti + 1, pi + 1;
    }
    MeansEnd(p, pi, text, ti);
    r := if ti == |text| then True else False;
  }

  /** The star case of `DoMatch`: it never returns False. */
  method StarLoop(text: Text, ti0: nat, p: Text, pi0: nat) returns (r: Result, ghost calls: nat)
    requires ti0 <= |text| && pi0 < |p| && p[pi0] == STAR && TokensFrom(p, pi0).Some?
    ensures r != False
    ensures r == True <==> Means(p, pi0, text, ti0)
    ensures r == Abort ==> NoneFrom(p, pi0, text, ti0)
    ensures 1 <= calls <= |text| - ti0 + 1
    decreases |p| - pi0, 0
  {
    calls := 1;
    var ti, pi := ti0, pi0 + 1;
    MeansStar(p, pi0, text, ti0);
    StarNone(p, pi0, text, ti0);
    while pi < |p| && p[pi] == STAR
      invariant pi0 < pi <= |p| && TokensFrom(p, pi).Some?
      invariant Means(p, pi0, text, ti0) <==> !NoneFrom(p, pi, text, ti0)
      invariant NoneFrom(p, pi, text, ti0) ==> NoneFrom(p, pi0, text, ti0)
    {
      StarNone(p, pi, text, ti0);
      pi := pi + 1;
    }
    if pi == |p| {
      MeansEnd(p, pi, text, |text|);
      return True, calls;
    }
    while ti < |text|
      invariant ti0 <= ti <= |text| && calls == 1 + ti - ti0
      invariant forall e: nat :: ti0 <= e < ti ==> !Means(p, pi, text, e)
    {
      var matched, more := DoMatch(text, ti, p, pi);
      ti := ti + 1;
      calls := calls + more;
      if matched != False {
        return matched, calls;
      }
    }
    OutOfText(p, pi, text);
    r := Abort;
  }

  /** A star before a pattern adds no new start: if no suffix matches without it, none does
      with it, and the other way round. */
  lemma StarNone(p: Text, i: nat, text: Text, d: nat)
    requires i < |p| && p[i] == STAR && TokensFrom(p, i).Some? && d <= |text|
    ensures TokensFrom(p, i + 1).Some?
    ensures NoneFrom(p, i, text, d) <==> NoneFrom(p, i + 1, text, d)
  {
    MeansStar(p, i, text, d);
    forall e: nat | d <= e <= |text|
      ensures NoneFrom(p, i + 1, text, d) ==> !Means(p, i, text, e)
    {
      MeansStar(p, i, text, e);
    }
  }

  /** wildmat: exactly the texts the pattern stands for, with at most one activation of
      DoMatch for each character of the text and one more, however many stars there are. */
  method WildMatch(text: Text, p: Text) returns (r: bool, ghost calls: nat)
    requires WellFormed(p)
    ensures r <==> Matches(p, text)
    ensures calls <= |text| + 1
  {
    assert text[0..] == text;
    if |p| == 1 && p[0] == STAR {
      MeansStar(p, 0, text, 0);
      MeansEnd(p, 1, text, |text|);
      return true, 0;
    }
    var m;
    m, calls := DoMatch(text, 0, p, 0);
    r := m == True;
  }

  // ---- what patterns say, character by character --------------------------

  function Moved(r: Option<Items>, n: nat): Option<Items> {
    match r
    case None => None
    case Some(x) => Some(Items(x.items, x.close + n))
  }

  lemma {:induction false} ItemsMoved(a: Text, s: Text, i: nat, last: int)
    ensures ItemsFrom(a + s, |a| + i, last) == Moved(ItemsFrom(s, i, last), |a|)
    decreases |s| - i
  {
    var t := a + s;
    if i < |s| {
      assert t[|a| + i] == s[i];
      if i + 1 < |s| {
        assert t[|a| + i + 1] == s[i + 1];
        if s[i] == DASH && s[i + 1] != RBRACKET {
          ItemsMoved(a, s, i + 2, s[i + 1]);
        } else if s[i] != RBRACKET {
          ItemsMoved(a, s, i + 1, s[i]);
        }
      } else if s[i] != DASH && s[i] != RBRACKET {
        ItemsMoved(a, s, i + 1, s[i]);
      }
    }
  }

  lemma ClassMoved(a: Text, s: Text, i: nat)
    requires i < |s|
    ensures ClassAt(a + s, |a| + i) == Moved(ClassAt(s, i), |a|)
    ensures NegatedAt(a + s, |a| + i) <==> NegatedAt(s, i)
  {
    hide ItemsFrom;
    var t := a + s;
    assert forall k :: 0 <= k < |s| ==> t[|a| + k] == s[k];
    var j := if NegatedAt(s, i) then i + 1 else i;
    if j + 1 < |s| && (s[j + 1] == RBRACKET || s[j + 1] == DASH) {
      ItemsMoved(a, s, j + 2, s[j + 1]);
    } else {
      ItemsMoved(a, s, j + 1, s[j]);
    }
  }

  lemma TokenMoved(a: Text, s: Text, i: nat)
    requires i < |s|
    ensures TokenAt(a + s, |a| + i) ==
            match TokenAt(s, i)
            case None => None
            case Some(r) => Some(Read(r.token, r.next + |a|))
  {
    hide ClassAt, NegatedAt;
    assert (a + s)[|a| + i] == s[i];
    if i + 1 < |s| {
      assert (a + s)[|a| + i + 1] == s[i + 1];
    }
    ClassMoved(a, s, i);
  }

  /** What comes before an index has no part in the meaning from there on. */
  lemma {:induction false} TokensMoved(a: Text, s: Text, i: nat)
    ensures TokensFrom(a + s, |a| + i) == TokensFrom(s, i)
    decreases |s| - i
  {
    hide TokenAt;
    if i < |s| {
      TokenMoved(a, s, i);
      if TokenAt(s, i).Some? {
        TokensMoved(a, s, TokenAt(s, i).value.next);
      }
    }
  }

  /** A token of some characters, and then the rest of the pattern. */
  lemma FirstToken(a: Text, p: Text, token: Token)
    requires a != [] && TokenAt(a + p, 0) == Some(Read(token, |a|))
    ensures WellFormed(a + p) <==> WellFormed(p)
    ensures WellFormed(p) ==> TokensFrom(a + p, 0).value == [token] + TokensFrom(p, 0).value
  {
    TokensMoved(a, p, 0);
  }

  lemma OneToken(a: Text, p: Text, token: Token, text: Text)
    requires a != [] && token != Stars && TokenAt(a + p, 0) == Some(Read(token, |a|))
    ensures WellFormed(a + p) <==> WellFormed(p)
    ensures WellFormed(p) ==>
              (Matches(a + p, text) <==> text != [] && TokenMatches(token, text[0]) && Matches(p, text[1..]))
  {
    FirstToken(a, p, token);
    if WellFormed(p) {
      assert ([token] + TokensFrom(p, 0).value)[1..] == TokensFrom(p, 0).value;
    }
  }

  /** The empty pattern stands for the empty text. */
  lemma EmptyLaw(text: Text)
    ensures WellFormed([]) && (Matches([], text) <==> text == [])
  {
  }

  /** "*" stands for any run of characters. */
  lemma StarLaw(p: Text, text: Text)
    ensures WellFormed([42] + p) <==> WellFormed(p)
    ensures WellFormed(p) ==>
              (Matches([42] + p, text) <==> exists k :: 0 <= k <= |text| && Matches(p, text[k..]))
  {
    FirstToken([42], p, Stars);
    if WellFormed(p) {
      assert ([Stars] + TokensFrom(p, 0).value)[1..] == TokensFrom(p, 0).value;
    }
  }

  /** "?" stands for any one character. */
  lemma QuestionLaw(p: Text, text: Text)
    ensures WellFormed([63] + p) <==> WellFormed(p)
    ensures WellFormed(p) ==> (Matches([63] + p, text) <==> text != [] && Matches(p, text[1..]))
  {
    OneToken([63], p, AnyOne, text);
  }

  /** A backslash takes away the meaning of the next character, and stands for nothing at the
      end of a pattern. */
  lemma BackslashLaw(c: int, p: Text, text: Text)
    ensures WellFormed([92, c] + p) <==> WellFormed(p)
    ensures WellFormed(p) ==>
              (Matches([92, c] + p, text) <==> text != [] && text[0] == c && Matches(p, text[1..]))
    ensures WellFormed([92]) && !Matches([92], text)
  {
    OneToken([92, c], p, Lit(c), text);
    OneToken([92], [], Never, text);
    assert [92] + [] == [92];
    EmptyLaw(text);
  }

  /** Every other character but "[" stands for itself. */
  lemma PlainLaw(c: int, p: Text, text: Text)
    requires c != 42 && c != 63 && c != 91 && c != 92
    ensures WellFormed([c] + p) <==> WellFormed(p)
    ensures WellFormed(p) ==>
              (Matches([c] + p, text) <==> text != [] && text[0] == c && Matches(p, text[1..]))
  {
    OneToken([c], p, Lit(c), text);
  }

  /** What is written between the brackets of a class: a character, or a range. */
  datatype Piece = Char(c: int) | Span(lo: int, hi: int)

  function Spelled(ps: seq<Piece>): Text {
    if ps == [] then []
    else (match ps[0] case Char(c) => [c] case Span(lo, hi) => [lo, 45, hi]) + Spelled(ps[1..])
  }

  /** No piece holds a character that means something else there. */
  predicate Plain(ps: seq<Piece>) {
    forall i :: 0 <= i < |ps| ==>
      match ps[i]
      case Char(c) => c != 45 && c != 93
      case Span(lo, hi) => lo != 45 && lo != 93 && hi != 93
  }

  predicate InPiece(q: Piece, c: int) {
    match q
    case Char(d) => c == d
    case Span(lo, hi) => c == lo || lo <= c <= hi
  }

  predicate InPieces(ps: seq<Piece>, c: int) {
    exists i :: 0 <= i < |ps| && InPiece(ps[i], c)
  }

  function ItemsIn(ps: seq<Piece>): seq<Item> {
    if ps == [] then []
    else (match ps[0] case Char(c) => [One(c)] case Span(lo, hi) => [One(lo), Range(lo, hi)]) + ItemsIn(ps[1..])
  }

  function Before(items: seq<Item>, n: nat, r: Option<Items>): Option<Items> {
    match r
    case None => None
    case Some(x) => Some(Items(items + x.items, x.close + n))
  }

  lemma CharRead(c: int, rest: Text, last: int)
    requires c != 45 && c != 93
    ensures ItemsFrom([c] + rest, 0, last) == Before([One(c)], 1, ItemsFrom(rest, 0, c))
  {
    ItemsMoved([c], rest, 0, c);
  }

  lemma SpanRead(lo: int, hi: int, rest: Text, last: int)
    requires lo != 45 && lo != 93 && hi != 93
    ensures ItemsFrom([lo, 45, hi] + rest, 0, last) == Before([One(lo), Range(lo, hi)], 3, ItemsFrom(rest, 0, hi))
  {
    var s := [lo, 45, hi] + rest;
    ItemsMoved([lo, 45, hi], rest, 0, hi);
    assert ItemsFrom(s, 1, lo) == Before([Range(lo, hi)], 3, ItemsFrom(rest, 0, hi));
    if ItemsFrom(rest, 0, hi).Some? {
      Regroup([One(lo)], [Range(lo, hi)], ItemsFrom(rest, 0, hi).value.items);
      assert [One(lo)] + [Range(lo, hi)] == [One(lo), Range(lo, hi)];
    }
  }

  lemma {:induction false} ItemsSpelled(ps: seq<Piece>, p: Text, last: int)
    requires Plain(ps)
    ensures ItemsFrom(Spelled(ps) + [93] + p, 0, last) == Some(Items(ItemsIn(ps), |Spelled(ps)|))
    decreases |ps|
  {
    var s := Spelled(ps) + [93] + p;
    if ps == [] {
      assert s[0] == 93;
    } else {
      hide ItemsFrom;
      var rest := Spelled(ps[1..]) + [93] + p;
      match ps[0]
      case Char(c) =>
        assert s == [c] + rest;
        ItemsSpelled(ps[1..], p, c);
        CharRead(c, rest, last);
      case Span(lo, hi) =>
        assert s == [lo, 45, hi] + rest;
        ItemsSpelled(ps[1..], p, hi);
        SpanRead(lo, hi, rest, last);
    }
  }

  lemma {:induction false} SomeSpelled(ps: seq<Piece>, c: int)
    ensures SomeItem(ItemsIn(ps), c) <==> InPieces(ps, c)
    decreases |ps|
  {
    hide SomeItem;
    if ps == [] {
      NoItem(c);
    } else {
      SomeSpelled(ps[1..], c);
      var rest := ItemsIn(ps[1..]);
      PiecesFront(ps, c);
      match ps[0]
      case Char(d) =>
        SomeOfFront(One(d), rest, c);
      case Span(lo, hi) =>
        SomeOfFront(Range(lo, hi), rest, c);
        SomeOfFront(One(lo), [Range(lo, hi)] + rest, c);
        assert [One(lo)] + ([Range(lo, hi)] + rest) == ItemsIn(ps);
    }
  }

  lemma NoItem(c: int)
    ensures !SomeItem([], c)
  {
  }

  lemma PiecesFront(ps: seq<Piece>, c: int)
    requires ps != []
    ensures InPieces(ps, c) <==> InPiece(ps[0], c) || InPieces(ps[1..], c)
  {
    if i :| 0 <= i < |ps| && InPiece(ps[i], c) {
      assert i > 0 ==> InPiece(ps[1..][i - 1], c);
    }
    if i :| 0 <= i < |ps[1..]| && InPiece(ps[1..][i], c) {
      assert InPiece(ps[i + 1], c);
    }
  }

  /** The text of a class: "^" negates it, and a bracket or dash right behind that stands for
      itself. */
  function ClassText(negated: bool, lead: Text, ps: seq<Piece>): Text {
    [91] + (if negated then [94] else []) + lead + Spelled(ps) + [93]
  }

  predicate ClassOk(negated: bool, lead: Text, ps: seq<Piece>) {
    && (lead == [] || lead == [93] || lead == [45]) && Plain(ps)
    && lead + Spelled(ps) != []
    && (!negated && lead == [] ==> Spelled(ps)[0] != 94)
  }

  lemma {:induction false} FirstSpelled(ps: seq<Piece>)
    requires ps != [] && Plain(ps)
    ensures Spelled(ps) != [] && Spelled(ps)[0] != 45 && Spelled(ps)[0] != 93
  {
  }

  lemma ClassRead(negated: bool, lead: Text, ps: seq<Piece>, p: Text)
    requires ClassOk(negated, lead, ps)
    ensures var q := ClassText(negated, lead, ps);
            TokenAt(q + p, 0) ==
            Some(Read(Class(negated, (if lead == [] then [] else [One(lead[0])]) + ItemsIn(ps)), |q|))
  {
    hide ItemsFrom, Spelled, ItemsIn, Plain;
    var head := [91] + (if negated then [94] else []);
    var body := Spelled(ps) + [93] + p;
    var s := head + lead + body;
    assert ClassText(negated, lead, ps) + p == s;
    if lead == [] {
      SpelledNothing();
      FirstSpelled(ps);
      assert s == head + body;
      assert s[|head|] == body[0] == Spelled(ps)[0];
      ItemsSpelled(ps, p, head[|head| - 1]);
      ItemsMoved(head, body, 0, head[|head| - 1]);
      assert [] + ItemsIn(ps) == ItemsIn(ps);
    } else {
      var front := head + lead;
      assert s[|head|] == lead[0] && |front| == |head| + 1;
      ItemsSpelled(ps, p, lead[0]);
      ItemsMoved(front, body, 0, lead[0]);
    }
    assert NegatedAt(s, 0) <==> negated;
  }

  lemma SpelledNothing()
    ensures Spelled([]) == []
  {
  }

  /** "[...]" stands for one character, in the class or, negated, not in it. */
  lemma ClassLaw(negated: bool, lead: Text, ps: seq<Piece>, p: Text, text: Text)
    requires ClassOk(negated, lead, ps)
    ensures var q := ClassText(negated, lead, ps);
            (WellFormed(q + p) <==> WellFormed(p)) &&
            (WellFormed(p) ==>
               (Matches(q + p, text) <==>
                text != [] && ((text[0] in lead || InPieces(ps, text[0])) != negated) && Matches(p, text[1..])))
  {
    hide ItemsIn, Spelled, SomeItem, InPieces, TokenAt, TokensFrom, Glob;
    var q, items := ClassText(negated, lead, ps), (if lead == [] then [] else [One(lead[0])]) + ItemsIn(ps);
    ClassRead(negated, lead, ps, p);
    OneToken(q, p, Class(negated, items), text);
    if text != [] {
      SomeSpelled(ps, text[0]);
      if lead == [] {
        assert items == ItemsIn(ps);
      } else {
        SomeOfFront(One(lead[0]), ItemsIn(ps), text[0]);
      }
    }
  }
}
