/** Whole runs over the history: whatever articles are stored, looked up and expired, the
    answers are those of the list of log lines. */
module HistoryRuns {
  import opened Bits
  import opened Bytes
  import opened Decimals
  import opened DbzTable
  import opened Dbz
  import opened History
  import opened HistoryMaint

  datatype Op =
    | StoreOp(mid: Bytes, paths: Bytes, time: int)
    | FetchOp(mid: Bytes)
    | MaintOp(days: nat, now: int)

  datatype Answer = Stored(code: int) | Fetched(r: Option<Bytes>) | Done

  function LineFor(mid: Bytes, paths: Bytes, time: int): Line {
    Line(Kept(mid), Decimal(time) + [TAB] + paths)
  }

  predicate Known(ls: seq<Line>, mid: Bytes) {
    |mid| < DBZMAXKEY && FirstLine(ls, mid) < |ls|
  }

  /** The log lines after an operation. */
  function LinesAfter(ls: seq<Line>, op: Op): seq<Line> {
    match op
    case StoreOp(mid, paths, time) => if Known(ls, mid) then ls else ls + [LineFor(mid, paths, time)]
    case FetchOp(_) => ls
    case MaintOp(days, now) => if ls != [] && Due(ls[0], days, now) then Rebuilt(ls, days, now) else ls
  }

  function AnswerOf(ls: seq<Line>, op: Op): Answer {
    match op
    case StoreOp(mid, _, _) => Stored(if |mid| < DBZMAXKEY then 0 else -1)
    case FetchOp(mid) => Fetched(if |mid| < DBZMAXKEY then LineScan(ls, mid) else None)
    case MaintOp(_, _) => Done
  }

  function Answers(ls: seq<Line>, ops: seq<Op>): seq<Answer>
    decreases |ops|
  {
    if ops == [] then [] else [AnswerOf(ls, ops[0])] + Answers(LinesAfter(ls, ops[0]), ops[1..])
  }

  /** What the code assumes of one operation: clean message-IDs, none extending another, and
      lines that fit. */
  ghost predicate OpOk(ls: seq<Line>, op: Op) {
    && |LogText(ls)| <= LONG_MAX
    && match op
       case StoreOp(mid, paths, time) => CleanMid(mid) && NotExtended(ls, mid) && LineFor(mid, paths, time).Clean()
       case FetchOp(mid) => CleanMid(mid) && NotExtended(ls, mid)
       case MaintOp(_, _) => ls != [] && NoneExtends(ls)
  }

  ghost predicate RunOk(ls: seq<Line>, ops: seq<Op>)
    decreases |ops|
  {
    ops == [] || (OpOk(ls, ops[0]) && RunOk(LinesAfter(ls, ops[0]), ops[1..]))
  }

  // ---- what the list keeps ------------------------------------------------

  /** Stores and rebuilds never leave two lines for one indexed message-ID. */
  lemma StaysDistinct(ls: seq<Line>, op: Op)
    requires DistinctMids(ls)
    ensures DistinctMids(LinesAfter(ls, op))
  {
    match op
    case StoreOp(mid, paths, time) =>
    case FetchOp(_) =>
    case MaintOp(days, now) =>
      UnexpiredDistinct(ls, days, now);
      FirstOnlyOfDistinct(Unexpired(ls, days, now));
  }

  lemma {:induction false} UnexpiredDistinct(ls: seq<Line>, days: nat, now: int)
    requires DistinctMids(ls)
    ensures DistinctMids(Unexpired(ls, days, now))
    decreases |ls|
  {
    if ls != [] {
      var before, last := ls[..|ls| - 1], ls[|ls| - 1];
      UnexpiredDistinct(before, days, now);
      UnexpiredFrom(before, days, now);
      var kept := Unexpired(before, days, now);
      forall i | 0 <= i < |kept| && last.Indexed()
        ensures kept[i].mid != last.mid
      {
        assert kept[i] in before;
      }
    }
  }

  /** A rebuild loses exactly what has expired: a message-ID is found afterwards, with the
      same paths, if and only if it was there and its line had not expired. */
  lemma {:induction false} MaintKeepsUnexpired(ls: seq<Line>, days: nat, now: int, mid: Bytes)
    requires DistinctMids(ls) && |mid| < DBZMAXKEY
    ensures var i := FirstLine(ls, mid);
            LineScan(Rebuilt(ls, days, now), mid) ==
            if i < |ls| && !Expired(ls[i], days, now) then Some(ls[i].rest) else None
    decreases |ls|
  {
    UnexpiredDistinct(ls, days, now);
    FirstOnlyOfDistinct(Unexpired(ls, days, now));
    if ls != [] {
      var before, last := ls[..|ls| - 1], ls[|ls| - 1];
      assert ls == before + [last];
      MaintKeepsUnexpired(before, days, now, mid);
      UnexpiredDistinct(before, days, now);
      FirstOnlyOfDistinct(Unexpired(before, days, now));
      FirstLineAppend(before, last, mid);
      FirstLineAppend(Unexpired(before, days, now), last, mid);
      assert Unexpired(before, days, now) + [] == Unexpired(before, days, now);
    }
  }

  // ---- the code -----------------------------------------------------------

  /** One operation on the open history. */
  method Step(f: Files, op: Op, incore: bool) returns (answer: Answer)
    requires f.Valid() && OpOk(f.lines, op)
    modifies f, f.log, f.db, f.db.corepag
    ensures f.Valid() && f.lines == LinesAfter(old(f.lines), op)
    ensures answer == AnswerOf(old(f.lines), op)
    ensures f.log == old(f.log) || fresh(f.log)
    ensures f.db == old(f.db) || fresh(f.db)
    ensures f.db.corepag == null || f.db.corepag == old(f.db.corepag) || fresh(f.db.corepag)
  {
    hide LogText, EntriesOf, HistoryConf, Rebuilt, NoneExtends, LogScan, NotExtended;
    match op
    case StoreOp(mid, paths, time) =>
      ScanLines(f.lines, mid);
      var code := f.StoreDb(mid, paths, time);
      answer := Stored(code);
    case FetchOp(mid) =>
      ScanLines(f.lines, mid);
      var r := f.DbFetch(mid);
      answer := Fetched(r);
    case MaintOp(days, now) =>
      HisMaint(f, days, now, incore);
      answer := Done;
  }

  /** Every run from an empty history answers as the list of log lines does. */
  method Run(conf: Conf, incore: bool, ops: seq<Op>) returns (answers: seq<Answer>)
    requires HistoryConf(conf) && RunOk([], ops)
    ensures answers == Answers([], ops)
  {
    hide HistoryConf, OpOk, LinesAfter, AnswerOf;
    var f := new Files(conf, incore);
    answers := [];
    for i := 0 to |ops|
      invariant f.Valid() && fresh(f) && fresh(f.log) && fresh(f.db) && (f.db.corepag != null ==> fresh(f.db.corepag))
      invariant RunOk(f.lines, ops[i..])
      invariant answers + Answers(f.lines, ops[i..]) == Answers([], ops)
    {
      assert ops[i..][0] == ops[i] && ops[i..][1..] == ops[i + 1..];
      var answer := Step(f, ops[i], incore);
      answers := answers + [answer];
    }
  }
}
