/** What expiry means in numbers: logs whose lines carry the dates that `HISwrite` prints. */
module HistoryDates {
  import opened Bits
  import opened Bytes
  import opened Decimals
  import opened DbzTable
  import opened Dbz
  import opened History
  import opened HistoryMaint
  import opened HistoryRuns

  /** Each line's date is a printed number, with a tab and the paths behind it. */
  predicate Dated(ls: seq<Line>, ts: seq<int>, paths: seq<Bytes>) {
    |ls| == |ts| == |paths| &&
    forall i :: 0 <= i < |ls| ==> ls[i].rest == Decimal(ts[i]) + [9] + paths[i]
  }

  /** The lines with dates from a limit on, in order. */
  function Survivors(ls: seq<Line>, ts: seq<int>, limit: int): (r: seq<Line>)
    requires |ls| == |ts|
    ensures |r| <= |ls|
  {
    if ls == [] then []
    else
      Survivors(ls[..|ls| - 1], ts[..|ls| - 1], limit) +
      (if ts[|ls| - 1] >= limit then [ls[|ls| - 1]] else [])
  }

  lemma DateRead(l: Line, t: int, paths: Bytes)
    requires l.rest == Decimal(t) + [9] + paths
    ensures DateOf(l) == t
  {
    AtolDecimal(t, [9] + paths + [NL]);
    assert l.rest + [NL] == Decimal(t) + ([9] + paths + [NL]);
  }

  lemma {:induction false} UnexpiredSurvive(ls: seq<Line>, ts: seq<int>, paths: seq<Bytes>, days: nat, now: int)
    requires Dated(ls, ts, paths)
    ensures Unexpired(ls, days, now) == Survivors(ls, ts, now - 99600 * days)
    decreases |ls|
  {
    hide Decimal;
    if ls != [] {
      var n := |ls| - 1;
      UnexpiredSurvive(ls[..n], ts[..n], paths[..n], days, now);
      DateRead(ls[n], ts[n], paths[n]);
    }
  }

  /** A message-ID is among the survivors exactly when its own date is. */
  lemma {:induction false} SurvivorScan(ls: seq<Line>, ts: seq<int>, limit: int, mid: Bytes)
    requires |ls| == |ts| && DistinctMids(ls) && |mid| < 255
    ensures var i := FirstLine(ls, mid);
            LineScan(Survivors(ls, ts, limit), mid) ==
            if i < |ls| && ts[i] >= limit then Some(ls[i].rest) else None
    decreases |ls|
  {
    if ls != [] {
      var n := |ls| - 1;
      var before, kept := ls[..n], Survivors(ls[..n], ts[..n], limit);
      assert ls == before + [ls[n]];
      SurvivorScan(before, ts[..n], limit, mid);
      FirstLineAppend(before, ls[n], mid);
      FirstLineAppend(kept, ls[n], mid);
      assert kept + [] == kept;
    }
  }

  lemma {:induction false} SurvivorsFrom(ls: seq<Line>, ts: seq<int>, limit: int)
    requires |ls| == |ts|
    ensures forall l :: l in Survivors(ls, ts, limit) ==> l in ls
    ensures ls != [] && ts[0] < limit ==> |Survivors(ls, ts, limit)| < |ls|
    decreases |ls|
  {
    if ls != [] {
      SurvivorsFrom(ls[..|ls| - 1], ts[..|ls| - 1], limit);
    }
  }

  lemma DueByDate(l: Line, t: int, paths: Bytes, days: nat, now: int)
    requires l.rest == Decimal(t) + [9] + paths
    ensures Due(l, days, now) <==> t + 172800 * days < now
  {
    DateRead(l, t, paths);
  }

  /** HISmaint in numbers: the log is rebuilt when its first line is twice as many days old
      as articles are kept; then exactly the lines stay whose dates, with 99600 seconds for
      each day, have not passed. Nothing else ever changes the lines. */
  method MaintByDates(f: Files, ghost ts: seq<int>, ghost paths: seq<Bytes>, days: nat, now: int, incore: bool)
    requires f.Valid() && f.lines != [] && NoneExtends(f.lines) && |f.log.bytes| <= LONG_MAX
    requires Dated(f.lines, ts, paths) && DistinctMids(f.lines)
    modifies f, f.db`pag
    ensures f.Valid()
    ensures f.lines == if ts[0] + 172800 * days < now then Survivors(old(f.lines), ts, now - 99600 * days) else old(f.lines)
    ensures f.db == old(f.db) || fresh(f.db)
    ensures f.lines == old(f.lines) <==> ts[0] + 172800 * days >= now
  {
    hide Database.Valid, LogText, EntriesOf, Due, DistinctMids, NoneExtends, SameAt, Rebuilt, Unexpired, Decimal;
    hide Survivors, AllClean, HistoryConf;
    ghost var ls := f.lines;
    DueByDate(ls[0], ts[0], paths[0], days, now);
    UnexpiredSurvive(ls, ts, paths, days, now);
    SurvivorsFrom(ls, ts, now - 99600 * days);
    RebuiltDistinct(ls, days, now);
    HisMaint(f, days, now, incore);
  }

  lemma RebuiltDistinct(ls: seq<Line>, days: nat, now: int)
    requires DistinctMids(ls)
    ensures Rebuilt(ls, days, now) == Unexpired(ls, days, now)
  {
    UnexpiredDistinct(ls, days, now);
    FirstOnlyOfDistinct(Unexpired(ls, days, now));
  }

  lemma SurvivorsNotExtended(ls: seq<Line>, ts: seq<int>, limit: int, i: nat)
    requires |ls| == |ts| && NoneExtends(ls) && i < |ls|
    ensures NotExtended(Survivors(ls, ts, limit), ls[i].mid)
  {
    var kept := Survivors(ls, ts, limit);
    SurvivorsFrom(ls, ts, limit);
    assert NotExtended(ls, ls[i].mid);
    forall k | 0 <= k < |kept| && kept[k].Indexed() && |kept[k].mid| > |ls[i].mid|
      ensures kept[k].mid[..|ls[i].mid|] != ls[i].mid
    {
      assert kept[k] in ls;
    }
  }

  /** What a fetch says after maintenance of an article that was in the log before: all that
      was stored with it, if and only if the log was not due or its own date had not passed. */
  method FetchAfterMaint(f: Files, ghost ts: seq<int>, ghost paths: seq<Bytes>, mid: Bytes, ghost i: nat,
                         days: nat, now: int, incore: bool)
    returns (r: Option<Bytes>)
    requires f.Valid() && f.lines != [] && NoneExtends(f.lines) && |f.log.bytes| <= LONG_MAX
    requires Dated(f.lines, ts, paths) && DistinctMids(f.lines)
    requires i < |f.lines| && f.lines[i].mid == mid && |mid| < 255
    modifies f, f.db
    ensures r == if ts[0] + 172800 * days >= now || ts[i] + 99600 * days >= now
                 then Some(Decimal(ts[i]) + [9] + paths[i]) else None
  {
    hide Database.Valid, LogText, EntriesOf, SameAt, Decimal, LogScan, NotExtended, Survivors, DistinctMids;
    ghost var ls := f.lines;
    assert AllClean(ls) && ls[i].Clean();
    MaintByDates(f, ts, paths, days, now, incore);
    SurvivorScan(ls, ts, now - 99600 * days, mid);
    SurvivorsNotExtended(ls, ts, now - 99600 * days, i);
    OnlyLine(ls, i);
    assert NotExtended(ls, ls[i].mid);
    ScanLines(f.lines, mid);
    r := f.DbFetch(mid);
  }

  lemma OnlyLine(ls: seq<Line>, i: nat)
    requires DistinctMids(ls) && i < |ls| && ls[i].Indexed()
    ensures FirstLine(ls, ls[i].mid) == i
  {
    var k := FirstLine(ls, ls[i].mid);
    assert k <= i;
  }
}
