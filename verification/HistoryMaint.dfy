/** Rebuilding the history while expiring old lines (his.c, HISmaint). */
module HistoryMaint {
  import opened Bits
  import opened Bytes
  import opened Decimals
  import opened DbzTag
  import opened DbzHash
  import opened DbzCase
  import opened DbzTable
  import opened TableSize
  import opened Dbz
  import opened History

  const DEFAULT_HIST_SIZE := 100000
  /** sizeof(maintbuff) */
  const MAINTBUFF: nat := 4096

  /** The date of a line, as `atol` reads it. */
  function DateOf(l: Line): int {
    Atol(l.rest + [NL])
  }

  predicate Expired(l: Line, days: nat, now: int) {
    DateOf(l) + 99600 * days < now
  }

  /** The lines a rebuild is to keep, in order. */
  function Unexpired(ls: seq<Line>, days: nat, now: int): seq<Line> {
    if ls == [] then []
    else
      Unexpired(ls[..|ls| - 1], days, now) +
      (if Expired(ls[|ls| - 1], days, now) then [] else [ls[|ls| - 1]])
  }

  /** One line per indexed message-ID, the first; lines too long to be indexed all stay. */
  function FirstOnly(ls: seq<Line>): seq<Line> {
    if ls == [] then []
    else
      var before, last := ls[..|ls| - 1], ls[|ls| - 1];
      FirstOnly(before) + (if last.Indexed() && FirstLine(before, last.mid) < |before| then [] else [last])
  }

  function Rebuilt(ls: seq<Line>, days: nat, now: int): seq<Line> {
    FirstOnly(Unexpired(ls, days, now))
  }

  /** What the rebuild does with one line, given the lines kept so far. */
  function AddLine(kept: seq<Line>, l: Line, days: nat, now: int): seq<Line> {
    if Expired(l, days, now) then kept
    else if l.Indexed() && FirstLine(kept, l.mid) < |kept| then kept
    else kept + [l]
  }

  /** Dropping repeats keeps every message-ID, with its first line. */
  lemma {:induction false} FirstOnlyKeeps(ls: seq<Line>, mid: Bytes)
    requires |mid| < DBZMAXKEY
    ensures FirstLine(FirstOnly(ls), mid) < |FirstOnly(ls)| <==> FirstLine(ls, mid) < |ls|
    ensures LineScan(FirstOnly(ls), mid) == LineScan(ls, mid)
    decreases |ls|
  {
    hide FirstLine, LineScan;
    if ls != [] {
      var before, last := ls[..|ls| - 1], ls[|ls| - 1];
      assert ls == before + [last];
      FirstOnlyKeeps(before, mid);
      LineScanAppend(before, last, mid);
      LineScanAppend(FirstOnly(before), last, mid);
      assert FirstOnly(before) + [] == FirstOnly(before);
    } else {
      assert FirstOnly(ls) == ls;
    }
  }

  lemma LineScanAppend(ls: seq<Line>, l: Line, mid: Bytes)
    ensures FirstLine(ls + [l], mid) < |ls + [l]| <==> FirstLine(ls, mid) < |ls| || l.mid == mid
    ensures LineScan(ls + [l], mid) ==
            if FirstLine(ls, mid) < |ls| || l.mid != mid then LineScan(ls, mid) else Some(l.rest)
  {
    FirstLineAppend(ls, l, mid);
  }

  /** Taking the lines one at a time keeps exactly the first unexpired line of each. */
  lemma RebuiltNext(ls: seq<Line>, l: Line, days: nat, now: int)
    ensures Rebuilt(ls + [l], days, now) == AddLine(Rebuilt(ls, days, now), l, days, now)
  {
    assert (ls + [l])[..|ls|] == ls;
    var u := Unexpired(ls, days, now);
    assert u + [] == u;
    if !Expired(l, days, now) {
      assert Unexpired(ls + [l], days, now) == u + [l];
      assert (u + [l])[..|u|] == u;
      if l.Indexed() {
        FirstOnlyKeeps(u, l.mid);
      }
    }
  }

  /** No indexed message-ID has two lines, as with logs written by `storeDB` alone. */
  ghost predicate DistinctMids(ls: seq<Line>) {
    forall i, k :: 0 <= i < k < |ls| && ls[k].Indexed() ==> ls[i].mid != ls[k].mid
  }

  /** Without repeats nothing but expired lines is dropped. */
  lemma {:induction false} FirstOnlyOfDistinct(ls: seq<Line>)
    requires DistinctMids(ls)
    ensures FirstOnly(ls) == ls
    decreases |ls|
  {
    if ls != [] {
      var before, last := ls[..|ls| - 1], ls[|ls| - 1];
      FirstOnlyOfDistinct(before);
      assert forall k :: 0 <= k < |before| ==> before[k].mid == ls[k].mid;
      assert last.Indexed() ==> FirstLine(before, last.mid) == |before|;
      assert ls == before + [last];
    }
  }

  /** The line `HISmaint` reads to decide on a rebuild is never a line to keep: whenever it
      triggers one it is itself expired, so passing over it loses nothing. */
  lemma {:induction false} FirstLineExpired(ls: seq<Line>, days: nat, now: int)
    requires ls != [] && Due(ls[0], days, now)
    ensures Expired(ls[0], days, now)
    ensures Unexpired(ls[1..], days, now) == Unexpired(ls, days, now)
    decreases |ls|
  {
    if |ls| > 1 {
      var before := ls[..|ls| - 1];
      FirstLineExpired(before, days, now);
      assert ls[1..][..|ls| - 2] == before[1..];
    } else {
      assert ls[1..] == [] && ls[..0] == [];
    }
  }

  /** No message-ID of the log extends another. */
  predicate NoneExtends(ls: seq<Line>) {
    forall i :: 0 <= i < |ls| ==> NotExtended(ls, ls[i].mid)
  }

  // ---- the rebuild --------------------------------------------------------

  /** fgets: up to and including the next newline, as far as the buffer goes. */
  function FGets(s: Bytes): Bytes {
    var n := IndexOf(s, NL);
    var k := if n < |s| then n + 1 else n;
    if k < MAINTBUFF then s[..k] else s[..MAINTBUFF - 1]
  }

  lemma FGetsLine(l: Line, more: Bytes)
    requires l.Clean()
    ensures FGets(l.Text() + more) == l.mid + [TAB] + (l.rest + [NL])
    ensures (l.Text() + more)[|l.Text()|..] == more
    ensures var line := FGets(l.Text() + more);
            IndexOf(line, TAB) == |l.mid| < |line| && line[..|l.mid|] == l.mid && line[|l.mid| + 1..] == l.rest + [NL]
  {
    FirstLineText(l, more);
    assert (l.Text() + more)[..|l.Text()|] == l.Text();
    var line := l.mid + [TAB] + (l.rest + [NL]);
    assert l.Text() == line;
    assert line[..|l.mid|] == l.mid;
    IndexOfUnique(line, TAB, |l.mid|);
  }

  lemma HistoryTags(tsize: nat)
    requires tsize >= 1
    ensures HistoryConf(Conf(tsize, TAB, CASE_NONE, Tags(0, 0, 0)))
  {
    forall k: nat
      ensures !Bit(0, k)
    {
      ZeroBits(k);
    }
  }

  /** makedbz: an empty history file with a fresh index of the default size. */
  method MakeHistory(incore: bool) returns (f: Files)
    ensures fresh(f) && f.Valid() && f.lines == [] && f.log.bytes == []
    ensures GoodSize(f.db.conf.tsize) && f.db.conf.tsize >= 150000 && NoneGood(150000, f.db.conf.tsize)
    ensures f.db.conf == Conf(f.db.conf.tsize, 9, 48, Tags(0, 0, 0))
    ensures fresh(f.log) && fresh(f.db) && (f.db.corepag != null ==> fresh(f.db.corepag))
  {
    var size := DbzSize(DEFAULT_HIST_SIZE);
    HistoryTags(size);
    f := new Files(Conf(size, TAB, CASE_NONE, Tags(0, 0, 0)), incore);
  }

  lemma {:induction false} TextSplit(ls: seq<Line>, i: nat)
    requires i < |ls|
    ensures LogText(ls[i..]) == ls[i].Text() + LogText(ls[i + 1..])
  {
    LogTextFront(ls[i..]);
    assert ls[i..][1..] == ls[i + 1..];
  }

  lemma {:induction false} UnexpiredFrom(ls: seq<Line>, days: nat, now: int)
    ensures forall l :: l in Unexpired(ls, days, now) ==> l in ls
    decreases |ls|
  {
    if ls != [] {
      UnexpiredFrom(ls[..|ls| - 1], days, now);
    }
  }

  lemma {:induction false} FirstOnlyFrom(ls: seq<Line>)
    ensures forall l :: l in FirstOnly(ls) ==> l in ls
    decreases |ls|
  {
    if ls != [] {
      FirstOnlyFrom(ls[..|ls| - 1]);
    }
  }

  lemma KeptNotExtended(ls: seq<Line>, i: nat, days: nat, now: int)
    requires NoneExtends(ls) && i < |ls|
    ensures NotExtended(Rebuilt(ls[..i], days, now), ls[i].mid)
  {
    var kept := Rebuilt(ls[..i], days, now);
    UnexpiredFrom(ls[..i], days, now);
    FirstOnlyFrom(Unexpired(ls[..i], days, now));
    forall k | 0 <= k < |kept| && kept[k].Indexed() && |kept[k].mid| > |ls[i].mid|
      ensures kept[k].mid[..|ls[i].mid|] != ls[i].mid
    {
      assert kept[k] in ls[..i];
      var m :| 0 <= m < i && ls[m] == kept[k];
      assert NotExtended(ls, ls[i].mid);
    }
  }

  /** What `fgets` and `strchr` make of the i-th line. */
  lemma NextLine(log: Bytes, pos: nat, ls: seq<Line>, i: nat)
    requires AllClean(ls) && i < |ls| && pos <= |log| && log[pos..] == LogText(ls[i..])
    ensures var line := FGets(log[pos..]); var t := IndexOf(line, TAB);
            pos + |line| <= |log| && log[pos + |line|..] == LogText(ls[i + 1..]) && |line| == |ls[i].Text()| &&
            t < |line| && line[..t] == ls[i].mid && line[t + 1..] == ls[i].rest + [NL]
  {
    TextSplit(ls, i);
    FGetsLine(ls[i], LogText(ls[i + 1..]));
    assert log[pos + |ls[i].Text()|..] == log[pos..][|ls[i].Text()|..];
  }

  /** One turn of the loop of `HISmaint`: the line goes to the new history if it is to stay. */
  method CopyLine(f: Files, line: Bytes, ghost l: Line, days: nat, now: int)
    requires f.Valid() && l.Clean() && NotExtended(f.lines, l.mid) && |f.log.bytes| <= LONG_MAX
    requires var t := IndexOf(line, TAB); t < |line| && line[..t] == l.mid && line[t + 1..] == l.rest + [NL]
    modifies f, f.log, f.db, f.db.corepag
    ensures f.Valid() && f.lines == AddLine(old(f.lines), l, days, now)
    ensures f.log == old(f.log) && f.db == old(f.db) && f.db.corepag == old(f.db.corepag)
    ensures |f.log.bytes| <= old(|f.log.bytes|) + |l.Text()|
  {
    hide Represents, LogText, EntriesOf;
    var t := IndexOf(line, TAB);
    if t == |line| {
      return;
    }
    var date := Atol(line[t + 1..]);
    if date + 99600 * days < now {
      return;
    }
    ghost var kept := f.lines;
    LogAppend(kept, l);
    var ok := f.MyHisWrite(line[..t], line[t + 1..], l.rest);
    assert Line(l.mid, l.rest) == l;
  }

  /** The loop of `HISmaint` over the lines still to be read. */
  method CopyLines(f: Files, log: Bytes, from: nat, ghost ls: seq<Line>, days: nat, now: int)
    requires f.Valid() && f.lines == [] && f.log.bytes == []
    requires AllClean(ls) && NoneExtends(ls)
    requires from <= |log| <= LONG_MAX && log[from..] == LogText(ls)
    modifies f, f.log, f.db, f.db.corepag
    ensures f.Valid() && f.lines == Rebuilt(ls, days, now)
    ensures f.log == old(f.log) && f.db == old(f.db) && f.db.corepag == old(f.db.corepag)
  {
    hide FGets, Rebuilt, AddLine, LogText, NotExtended, Files.Valid;
    var pos := from;
    ghost var i := 0;
    assert ls[0..] == ls && ls[..0] == [];
    NothingYet(days, now);
    while pos < |log|
      invariant from <= pos <= |log| && 0 <= i <= |ls| && log[pos..] == LogText(ls[i..])
      invariant f.Valid() && f.log == old(f.log) && f.db == old(f.db) && f.db.corepag == old(f.db.corepag)
      invariant f.lines == Rebuilt(ls[..i], days, now) && |f.log.bytes| <= pos
      decreases |log| - pos
    {
      MoreLines(ls, i);
      NextLine(log, pos, ls, i);
      KeptNotExtended(ls, i, days, now);
      RebuiltNext(ls[..i], ls[i], days, now);
      assert ls[..i] + [ls[i]] == ls[..i + 1];
      var line := FGets(log[pos..]);
      pos := pos + |line|;
      CopyLine(f, line, ls[i], days, now);
      i := i + 1;
    }
    AllRead(ls, i);
  }

  lemma NothingYet(days: nat, now: int)
    ensures Rebuilt([], days, now) == []
  {
  }

  lemma MoreLines(ls: seq<Line>, i: nat)
    requires i <= |ls| && LogText(ls[i..]) != []
    ensures i < |ls|
  {
  }

  lemma AllRead(ls: seq<Line>, i: nat)
    requires i <= |ls| && LogText(ls[i..]) == []
    ensures ls[..i] == ls
  {
    if i < |ls| {
      TextSplit(ls, i);
    }
  }

  /** The new log and index, closed and opened again. */
  method Rebuild(log: Bytes, from: nat, ghost ls: seq<Line>, days: nat, now: int, incore: bool) returns (g: Files)
    requires AllClean(ls) && NoneExtends(ls)
    requires from <= |log| <= LONG_MAX && log[from..] == LogText(ls)
    ensures fresh(g) && g.Valid() && g.lines == Rebuilt(ls, days, now)
    ensures fresh(g.log) && fresh(g.db) && (g.db.corepag != null ==> fresh(g.db.corepag))
  {
    hide Rebuilt, LogText, NotExtended, Represents, EntriesOf;
    g := MakeHistory(incore);
    CopyLines(g, log, from, ls, days, now);
    g.db := Reopen(g.db, incore, true);
  }

  /** Whether a log whose first line is this one is due for a rebuild. */
  predicate Due(first: Line, days: nat, now: int) {
    DateOf(first) + 86400 * days * 2 < now
  }

  /** The look of `HISmaint` at the first line. */
  method LookAtFirst(log: Bytes, ghost ls: seq<Line>, days: nat, now: int) returns (due: bool, from: nat)
    requires AllClean(ls) && ls != [] && log == LogText(ls)
    ensures due <==> Due(ls[0], days, now)
    ensures from <= |log| && log[from..] == LogText(ls[1..])
  {
    hide FGets, LogText, AllClean, Line.Text, Atol;
    assert ls[0..] == ls && log[0..] == log;
    NextLine(log, 0, ls, 0);
    var first := FGets(log);
    var t := IndexOf(first, TAB);
    from := |first|;
    if t == |first| {
      return false, from;
    }
    due := Atol(first[t + 1..]) + 86400 * days * 2 < now;
  }

  /** HISmaint: when the first line is old enough, rebuild the log and the index without the
      expired lines, and go on with the new ones. */
  method HisMaint(f: Files, days: nat, now: int, incore: bool)
    requires f.Valid() && f.lines != [] && NoneExtends(f.lines) && |f.log.bytes| <= LONG_MAX
    modifies f, f.db`pag
    ensures f.Valid()
    ensures f.lines == if Due(old(f.lines)[0], days, now) then Rebuilt(old(f.lines), days, now) else old(f.lines)
    ensures !Due(old(f.lines)[0], days, now) ==> unchanged(f) && unchanged(f.db)
    ensures Due(old(f.lines)[0], days, now) ==>
              fresh(f.log) && fresh(f.db) && (f.db.corepag != null ==> fresh(f.db.corepag))
  {
    hide LogText, NotExtended, EntriesOf, HistoryConf, Rebuilt, NoneExtends, Due, Unexpired, Expired;
    hide Database.Valid, SameAt, AllClean;
    ghost var ls := f.lines;
    var log := f.log.bytes;
    var due, from := LookAtFirst(log, ls, days, now);
    if due {
      FirstLineExpired(ls, days, now);
      TailNoneExtends(ls);
      TailClean(ls);
      RebuiltTail(ls, days, now);
      var oldFile := f.db.Close();
      var g := Rebuild(log, from, ls[1..], days, now, incore);
      f.log, f.db, f.lines := g.log, g.db, g.lines;
    }
  }

  lemma RebuiltTail(ls: seq<Line>, days: nat, now: int)
    requires ls != [] && Unexpired(ls[1..], days, now) == Unexpired(ls, days, now)
    ensures Rebuilt(ls[1..], days, now) == Rebuilt(ls, days, now)
  {
  }

  lemma TailClean(ls: seq<Line>)
    requires ls != [] && AllClean(ls)
    ensures AllClean(ls[1..])
  {
  }

  lemma TailNoneExtends(ls: seq<Line>)
    requires ls != [] && NoneExtends(ls)
    ensures NoneExtends(ls[1..])
  {
    forall i | 0 <= i < |ls[1..]|
      ensures NotExtended(ls[1..], ls[1..][i].mid)
    {
      assert NotExtended(ls, ls[i + 1].mid);
    }
  }
}
