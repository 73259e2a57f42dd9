/** Whole runs of a database against the plain list of stored pairs. */
module DbzRuns {
  import opened Bits
  import opened Bytes
  import opened DbzCase
  import opened DbzHash
  import opened DbzTable
  import opened DbzKeys
  import opened Dbz

  /** What a caller may do to a database, and to the base file beside it. */
  datatype Op =
    | StoreOp(raw: Bytes, value: int)
    | FetchOp(raw: Bytes)
    | AppendOp(text: Bytes)
    | SyncOp
    | WriteThroughOp(on: bool)
    | ReopenOp(incore: bool)

  datatype Answer = Stored(ok: bool) | Fetched(r: Option<int>) | Was(on: bool) | Done

  /** What a run amounts to: the list of stored pairs, the text of the base file, the modes,
      and whether pairs were stored in core that the file does not hold yet. */
  datatype State = State(entries: seq<Entry>, base: Bytes, incore: bool, writethrough: bool, unsynced: bool) {
    /** Those pairs would not survive a restart: with write-through on nothing pushes them. */
    predicate Losing() {
      unsynced && writethrough
    }
  }

  /** A fetch key as it is compared. */
  function FetchKey(conf: Conf, raw: Bytes): Bytes {
    MapCase(conf.casemap, Database.Cut(raw))
  }

  predicate Accepts(conf: Conf, raw: Bytes, value: int) {
    |raw| < DBZMAXKEY && conf.tags.Okay(value)
  }

  function EntryOf(conf: Conf, raw: Bytes, value: int): Entry {
    Entry(MapCase(conf.casemap, raw), value)
  }

  /** Whether a pair would go to the in-core table alone. */
  predicate InCoreAlone(conf: Conf, st: State, e: Entry)
    requires conf.tsize >= 1
  {
    st.incore && !st.writethrough && DepthAfter(conf, st.entries, e) < MAXRUN
  }

  function After(conf: Conf, st: State, op: Op): State
    requires conf.tsize >= 1
  {
    match op
    case StoreOp(raw, value) =>
      var e := EntryOf(conf, raw, value);
      if Accepts(conf, raw, value) then
        st.(entries := st.entries + [e], unsynced := st.unsynced || InCoreAlone(conf, st, e))
      else st
    case FetchOp(_) => st
    case AppendOp(text) => st.(base := st.base + text)
    case SyncOp => st.(unsynced := st.Losing())
    case WriteThroughOp(on) => st.(writethrough := on)
    case ReopenOp(incore) => st.(incore := incore, unsynced := false)
  }

  /** What the list answers: a fetch scans it from its oldest pair. */
  function AnswerOf(conf: Conf, st: State, op: Op): Answer {
    match op
    case StoreOp(raw, value) => Stored(Accepts(conf, raw, value))
    case FetchOp(raw) => Fetched(Scan(st.entries, FetchKey(conf, raw)))
    case WriteThroughOp(_) => Was(st.writethrough)
    case _ => Done
  }

  function ListRun(conf: Conf, st: State, ops: seq<Op>): seq<Answer>
    requires conf.tsize >= 1
    decreases |ops|
  {
    if ops == [] then [] else [AnswerOf(conf, st, ops[0])] + ListRun(conf, After(conf, st, ops[0]), ops[1..])
  }

  /** Where a run leads. */
  function Final(conf: Conf, st: State, ops: seq<Op>): State
    requires conf.tsize >= 1
    decreases |ops|
  {
    if ops == [] then st else Final(conf, After(conf, st, ops[0]), ops[1..])
  }

  /** What the code assumes of one operation: values are offsets, keys are not empty, when a
      key is fetched the base file tells it apart and every older pair's offset can be read,
      and nothing is restarted while it would lose pairs. */
  ghost predicate OpOk(conf: Conf, st: State, op: Op) {
    match op
    case StoreOp(_, value) => 0 <= value <= LONG_MAX
    case FetchOp(raw) =>
      raw != [] &&
      var key := FetchKey(conf, raw);
      Tells(conf, st.base, st.entries, key) &&
      forall i :: 0 <= i < FirstIndex(st.entries, key) < |st.entries| ==> Readable(st.base, key, st.entries[i].value)
    case ReopenOp(_) => !st.Losing()
    case _ => true
  }

  ghost predicate RunOk(conf: Conf, st: State, ops: seq<Op>)
    requires conf.tsize >= 1
    decreases |ops|
  {
    ops == [] || (OpOk(conf, st, ops[0]) && RunOk(conf, After(conf, st, ops[0]), ops[1..]))
  }

  /** The database is where the run is: the same pairs and modes, and its file lags behind
      exactly when pairs are unsynced. */
  ghost predicate Agrees(db: Database, st: State)
    reads db, db.corepag, db.basef
  {
    && db.Valid() && db.entries == st.entries && db.basef.bytes == st.base
    && (db.corepag != null <==> st.incore) && db.writethrough == st.writethrough
    && (db.FileCurrent() <==> !st.unsynced)
    && (st.unsynced ==> st.incore && db.written)
  }

  lemma CutMapped(conf: Conf, raw: Bytes)
    ensures Database.Cut(FetchKey(conf, raw)) == FetchKey(conf, raw)
  {
  }

  /** A fetch on an open database. */
  method FetchStep(db: Database, ghost st: State, raw: Bytes) returns (r: Option<int>)
    requires Agrees(db, st) && OpOk(db.conf, st, FetchOp(raw))
    modifies db`srch, db`probe, db`fpos, db`pagpos, db`prevp
    ensures Agrees(db, st) && r == Scan(st.entries, FetchKey(db.conf, raw))
  {
    hide Lookup, HashOf, MapCase, Represents, Probe, LagsBehind, SameAt;
    ghost var key := FetchKey(db.conf, raw);
    FetchIsScanOfReadable(db.Slots(), db.conf, db.basef.bytes, db.entries, db.depths, key);
    CutMapped(db.conf, raw);
    assert db.Outcome(key) == FetchOutcome(db.Slots(), db.conf, db.basef.bytes, key);
    r := db.DbzFetch(raw);
  }

  /** One operation on an open database. */
  method Step(db: Database, ghost st: State, op: Op) returns (after: Database, answer: Answer)
    requires Agrees(db, st) && OpOk(db.conf, st, op)
    modifies db, db.corepag, db.basef
    ensures Agrees(after, After(db.conf, st, op)) && after.conf == db.conf && after.basef == db.basef
    ensures (after == db && after.corepag == old(db.corepag)) || (fresh(after) && (after.corepag != null ==> fresh(after.corepag)))
    ensures answer == AnswerOf(db.conf, st, op)
  {
    hide Lookup, HashOf, MapCase, Represents, Probe, Tells, Scan, LagsBehind, SameAt, DepthAfter;
    after := db;
    match op
    case StoreOp(raw, value) =>
      var ok := db.DbzStore(raw, value);
      answer := Stored(ok);
    case FetchOp(raw) =>
      var r := FetchStep(db, st, raw);
      answer := Fetched(r);
    case AppendOp(text) =>
      db.basef.bytes := db.basef.bytes + text;
      answer := Done;
    case SyncOp =>
      db.Sync();
      answer := Done;
    case WriteThroughOp(on) =>
      var was := db.SetWriteThrough(on);
      answer := Was(was);
    case ReopenOp(incore) =>
      after := Reopen(db, incore, db.writethrough);
      answer := Done;
  }

  /** Every run from an empty table, in core or not, with write-through switched on and off,
      with a growing base file, closed and reopened at any point, answers exactly as the list
      of stored pairs does. The file it leaves when it is closed in the end holds the table
      of those pairs if and only if none of them is unsynced while write-through is on. */
  method Run(conf: Conf, basef: TextFile, incore: bool, writethrough: bool, ops: seq<Op>)
    returns (answers: seq<Answer>, file: seq<int>)
    requires conf.Valid() && RunOk(conf, State([], basef.bytes, incore, writethrough, false), ops)
    modifies basef
    ensures var st := State([], old(basef.bytes), incore, writethrough, false);
            answers == ListRun(conf, st, ops) &&
            (SameAt(file, Laid(conf, Final(conf, st, ops).entries)) <==> !Final(conf, st, ops).Losing())
  {
    hide Lookup, HashOf, MapCase, Represents, Probe, Tells, Scan, OpOk, After, AnswerOf, LagsBehind, SameAt, Laid;
    hide RunOk, ListRun, Final;
    EmptyRepresents(conf);
    var db := new Database(conf, basef, 0, [], incore, writethrough, [], []);
    answers := [];
    ghost var start := State([], basef.bytes, incore, writethrough, false);
    ghost var st := start;
    for i := 0 to |ops|
      invariant Agrees(db, st) && db.conf == conf && db.basef == basef
      invariant fresh(db) && (db.corepag != null ==> fresh(db.corepag))
      invariant RunOk(conf, st, ops[i..])
      invariant answers + ListRun(conf, st, ops[i..]) == ListRun(conf, start, ops)
      invariant Final(conf, st, ops[i..]) == Final(conf, start, ops)
    {
      RunNext(conf, st, ops, i);
      var answer: Answer;
      db, answer := Step(db, st, ops[i]);
      Regroup(answers, [answer], ListRun(conf, After(conf, st, ops[i]), ops[i + 1..]));
      answers := answers + [answer];
      st := After(conf, st, ops[i]);
    }
    RunEnd(conf, st, ops);
    assert answers + [] == answers;
    file := CloseRun(db, st);
  }

  lemma RunNext(conf: Conf, st: State, ops: seq<Op>, i: nat)
    requires conf.tsize >= 1 && i < |ops|
    ensures RunOk(conf, st, ops[i..]) <==> OpOk(conf, st, ops[i]) && RunOk(conf, After(conf, st, ops[i]), ops[i + 1..])
    ensures ListRun(conf, st, ops[i..]) == [AnswerOf(conf, st, ops[i])] + ListRun(conf, After(conf, st, ops[i]), ops[i + 1..])
    ensures Final(conf, st, ops[i..]) == Final(conf, After(conf, st, ops[i]), ops[i + 1..])
  {
    assert ops[i..][0] == ops[i] && ops[i..][1..] == ops[i + 1..];
  }

  lemma RunEnd(conf: Conf, st: State, ops: seq<Op>)
    requires conf.tsize >= 1
    ensures ListRun(conf, st, ops[|ops|..]) == [] && Final(conf, st, ops[|ops|..]) == st
  {
  }

  /** The file a database leaves, against the table of its pairs. */
  method CloseRun(db: Database, ghost st: State) returns (file: seq<int>)
    requires Agrees(db, st)
    modifies db`pag
    ensures SameAt(file, Laid(db.conf, st.entries)) <==> !st.Losing()
  {
    hide Represents, LagsBehind, Laid, DepthsOf, OkayEntry;
    ghost var slots := db.Slots();
    OkayOf(slots, db.conf, db.entries, db.depths);
    LaidRepresents(db.conf, db.entries);
    SameTable(slots, Laid(db.conf, db.entries), db.conf, db.entries, db.depths, DepthsOf(db.conf, db.entries));
    file := db.Close();
  }

  /** Losing pairs takes no more than this: store one in core, switch write-through on and
      close. The synchronization in between writes nothing. */
  method LosesPair(conf: Conf, basef: TextFile, raw: Bytes, value: int) returns (file: seq<int>)
    requires conf.Valid() && 0 <= value <= LONG_MAX && Accepts(conf, raw, value)
    modifies basef
    ensures !exists ds :: Represents(file, conf, [EntryOf(conf, raw, value)], ds)
  {
    hide SameAt, Laid, Represents, MapCase;
    var ops := [StoreOp(raw, value), WriteThroughOp(true), SyncOp];
    ghost var st := State([], basef.bytes, true, false, false);
    LosingRun(conf, st, raw, value);
    var answers;
    answers, file := Run(conf, basef, true, false, ops);
    StandsFor(file, conf, [EntryOf(conf, raw, value)]);
  }

  lemma LosingRun(conf: Conf, st: State, raw: Bytes, value: int)
    requires conf.Valid() && 0 <= value <= LONG_MAX && Accepts(conf, raw, value)
    requires st.entries == [] && st.incore && !st.writethrough
    ensures var ops := [StoreOp(raw, value), WriteThroughOp(true), SyncOp];
            RunOk(conf, st, ops) && Final(conf, st, ops).Losing() &&
            Final(conf, st, ops).entries == [EntryOf(conf, raw, value)]
  {
    hide HashOf, MapCase;
    var ops := [StoreOp(raw, value), WriteThroughOp(true), SyncOp];
    assert DepthAfter(conf, [], EntryOf(conf, raw, value)) == 0;
    var st1 := After(conf, st, ops[0]);
    var st2 := After(conf, st1, ops[1]);
    assert st1.unsynced && st2.Losing();
    assert ops[1..] == [ops[1], ops[2]] && [ops[1], ops[2]][1..] == [ops[2]] && [ops[2]][1..] == [];
    assert RunOk(conf, st2, [ops[2]]) && Final(conf, st2, [ops[2]]) == st2;
    assert RunOk(conf, st1, ops[1..]) && Final(conf, st1, ops[1..]) == st2;
  }

  // ---- runs over raw keys -------------------------------------------------

  /** What a caller has to see to, for keys without NUL (`end` empty) or with one: each key
      is a plain text with the ending, its text stands in the base file at the offset stored
      with it, offsets are stored in the order of the file, and without a NUL no longer key
      stored earlier begins with a fetched one. */
  ghost predicate KeyedOk(conf: Conf, st: State, raws: seq<Bytes>, end: Bytes, op: Op) {
    match op
    case StoreOp(raw, value) =>
      exists text ::
        raw == text + end && PlainKey(conf, text) && TextAt(conf, st.base, text, value) && value <= LONG_MAX &&
        forall i :: 0 <= i < |st.entries| ==> st.entries[i].value <= value
    case FetchOp(raw) =>
      exists text ::
        raw == text + end && PlainKey(conf, text) && |raw| <= DBZMAXKEY &&
        (end == [] ==> NoneExtends(conf.casemap, raws, text))
    case ReopenOp(_) => !st.Losing()
    case _ => true
  }

  function RawsAfter(conf: Conf, raws: seq<Bytes>, end: Bytes, op: Op): seq<Bytes> {
    match op
    case StoreOp(raw, value) =>
      if Accepts(conf, raw, value) && |raw| >= |end| then raws + [raw[..|raw| - |end|]] else raws
    case _ => raws
  }

  ghost predicate KeyedRunOk(conf: Conf, st: State, raws: seq<Bytes>, end: Bytes, ops: seq<Op>)
    requires conf.tsize >= 1
    decreases |ops|
  {
    ops == [] ||
    (KeyedOk(conf, st, raws, end, ops[0]) &&
     KeyedRunOk(conf, After(conf, st, ops[0]), RawsAfter(conf, raws, end, ops[0]), end, ops[1..]))
  }

  /** What such runs keep. */
  ghost predicate Keyed(conf: Conf, st: State, raws: seq<Bytes>, end: Bytes) {
    && KeyedBy(conf, st.base, st.entries, raws, end)
    && (forall i :: 0 <= i < |raws| ==> PlainKey(conf, raws[i]))
    && forall i, k :: 0 <= i <= k < |st.entries| ==> st.entries[i].value <= st.entries[k].value
  }

  lemma TextStays(conf: Conf, base: Bytes, more: Bytes, raw: Bytes, off: int)
    requires TextAt(conf, base, raw, off)
    ensures TextAt(conf, base + more, raw, off)
  {
    assert (base + more)[off..off + |raw|] == base[off..off + |raw|];
  }

  lemma StaysKeyed(conf: Conf, st: State, raws: seq<Bytes>, end: Bytes, op: Op)
    requires conf.tsize >= 1 && Keyed(conf, st, raws, end) && KeyedOk(conf, st, raws, end, op)
    ensures Keyed(conf, After(conf, st, op), RawsAfter(conf, raws, end, op), end)
  {
    hide MapCase, TextAt, PlainKey, DepthAfter;
    match op
    case StoreOp(raw, value) =>
      var text :| raw == text + end && PlainKey(conf, text) && TextAt(conf, st.base, text, value) && value <= LONG_MAX;
      assert raw[..|raw| - |end|] == text;
      PlainNotEmpty(conf, text);
    case AppendOp(more) =>
      forall i | 0 <= i < |st.entries|
        ensures TextAt(conf, st.base + more, raws[i], st.entries[i].value)
      {
        TextStays(conf, st.base, more, raws[i], st.entries[i].value);
      }
    case _ =>
  }

  lemma PlainNotEmpty(conf: Conf, raw: Bytes)
    requires PlainKey(conf, raw)
    ensures raw != []
  {
  }

  /** They meet every condition of `Run`. */
  lemma KeyedIsOk(conf: Conf, st: State, raws: seq<Bytes>, end: Bytes, op: Op)
    requires end == [] || end == [NUL]
    requires Keyed(conf, st, raws, end) && KeyedOk(conf, st, raws, end, op)
    ensures OpOk(conf, st, op)
  {
    hide MapCase, Confirm, NoneExtends, DepthAfter;
    match op
    case StoreOp(raw, value) =>
    case FetchOp(raw) =>
      var text :| raw == text + end && PlainKey(conf, text) && |raw| <= DBZMAXKEY &&
                  (end == [] ==> NoneExtends(conf.casemap, raws, text));
      assert Database.Cut(raw) == raw;
      if end == [] {
        assert raw == text;
        TellsUnterminated(conf, st.base, st.entries, raws, text);
      } else {
        TellsTerminated(conf, st.base, st.entries, raws, text);
      }
      OlderRoom(conf, st, raws, end, raw);
    case _ =>
  }

  lemma OlderRoom(conf: Conf, st: State, raws: seq<Bytes>, end: Bytes, raw: Bytes)
    requires |end| <= 1 && Keyed(conf, st, raws, end)
    ensures var key := MapCase(conf.casemap, raw);
            forall i :: 0 <= i < FirstIndex(st.entries, key) < |st.entries| ==> Readable(st.base, key, st.entries[i].value)
  {
    hide MapCase;
    var key := MapCase(conf.casemap, raw);
    var n := FirstIndex(st.entries, key);
    if n < |st.entries| {
      assert |raws[n] + end| == |raw|;
      forall i | 0 <= i < n
        ensures Readable(st.base, key, st.entries[i].value)
      {
        assert st.entries[i].value <= st.entries[n].value;
      }
    }
  }

  lemma {:induction false} KeyedRunIsOk(conf: Conf, st: State, raws: seq<Bytes>, end: Bytes, ops: seq<Op>)
    requires conf.tsize >= 1 && (end == [] || end == [NUL])
    requires Keyed(conf, st, raws, end) && KeyedRunOk(conf, st, raws, end, ops)
    ensures RunOk(conf, st, ops)
    decreases |ops|
  {
    hide Keyed, KeyedOk, OpOk, After, RawsAfter;
    if ops != [] {
      KeyedIsOk(conf, st, raws, end, ops[0]);
      StaysKeyed(conf, st, raws, end, ops[0]);
      KeyedRunIsOk(conf, After(conf, st, ops[0]), RawsAfter(conf, raws, end, ops[0]), end, ops[1..]);
    }
  }

  /** Every run over plain keys that keeps to those conditions answers as the list does. */
  method KeyedRun(conf: Conf, basef: TextFile, incore: bool, writethrough: bool, end: Bytes, ops: seq<Op>)
    returns (answers: seq<Answer>, file: seq<int>)
    requires conf.Valid() && (end == [] || end == [NUL])
    requires KeyedRunOk(conf, State([], basef.bytes, incore, writethrough, false), [], end, ops)
    modifies basef
    ensures answers == ListRun(conf, State([], old(basef.bytes), incore, writethrough, false), ops)
  {
    KeyedRunIsOk(conf, State([], basef.bytes, incore, writethrough, false), [], end, ops);
    hide RunOk, KeyedRunOk, ListRun, Final, SameAt, Laid;
    answers, file := Run(conf, basef, incore, writethrough, ops);
  }
}
