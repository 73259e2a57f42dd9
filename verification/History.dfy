/** The news history (his.c, dbztool.c): an append-only log, one line an article, indexed
    by dbz. */
module History {
  import opened Bits
  import opened Bytes
  import opened Decimals
  import opened DbzTag
  import opened DbzHash
  import opened DbzCase
  import opened DbzTable
  import opened DbzKeys
  import opened Dbz

  /** The block `HISfilesfor` reads at an offset: LEN - 1 bytes. */
  const BLOCK: nat := 1023
  /** How much of a message-ID `DBfetch` and `DBstore` keep. */
  const KEYROOM: nat := 510

  /** A log line: the message-ID, a tab, the date, a tab, and the paths. */
  datatype Line = Line(mid: Bytes, rest: Bytes) {
    function Text(): Bytes {
      mid + [TAB] + rest + [NL]
    }

    /** No field contains a separator or NUL, and the line can be read in one block. */
    predicate Clean() {
      mid != [] && TAB !in mid && NL !in mid && NUL !in mid && NL !in rest && NUL !in rest && |Text()| <= BLOCK
    }

    /** Longer keys are refused by the index, and their lines stay unindexed. */
    predicate Indexed() {
      |mid| < DBZMAXKEY
    }
  }

  function LogText(lines: seq<Line>): Bytes {
    if lines == [] then [] else LogText(lines[..|lines| - 1]) + lines[|lines| - 1].Text()
  }

  /** The pairs the index should hold: each indexed message-ID at the start of its line. */
  function EntriesOf(lines: seq<Line>): seq<Entry> {
    if lines == [] then []
    else
      var before, last := lines[..|lines| - 1], lines[|lines| - 1];
      EntriesOf(before) + (if last.Indexed() then [Entry(last.mid, |LogText(before)|)] else [])
  }

  /** What the log says of a message-ID, by plain scanning: whatever follows the first tab
      in the first line whose first field it is. */
  function LogScan(log: Bytes, mid: Bytes): Option<Bytes>
    decreases |log|
  {
    var n := IndexOf(log, NL);
    if n == |log| then None
    else
      var line := log[..n];
      var t := IndexOf(line, TAB);
      if t < n && line[..t] == mid then Some(line[t + 1..]) else LogScan(log[n + 1..], mid)
  }

  // ---- lines and offsets --------------------------------------------------

  lemma LogAppend(lines: seq<Line>, l: Line)
    ensures LogText(lines + [l]) == LogText(lines) + l.Text()
    ensures EntriesOf(lines + [l]) ==
            EntriesOf(lines) + (if l.Indexed() then [Entry(l.mid, |LogText(lines)|)] else [])
  {
    assert (lines + [l])[..|lines|] == lines;
  }

  /** A line starts where the text of the earlier ones ends. */
  lemma {:induction false} LineAt(lines: seq<Line>, i: nat)
    requires i < |lines|
    ensures |LogText(lines[..i])| + |lines[i].Text()| <= |LogText(lines)|
    ensures LogText(lines)[|LogText(lines[..i])|..][..|lines[i].Text()|] == lines[i].Text()
    decreases |lines|
  {
    var before := lines[..|lines| - 1];
    if i == |lines| - 1 {
    } else {
      assert before[..i] == lines[..i];
      LineAt(before, i);
      var off := |LogText(lines[..i])|;
      assert LogText(lines)[off..][..|lines[i].Text()|] == LogText(before)[off..][..|lines[i].Text()|];
    }
  }

  /** Which line an index entry stands for. */
  lemma {:induction false} EntryLine(lines: seq<Line>, k: nat) returns (i: nat)
    requires k < |EntriesOf(lines)|
    ensures i < |lines| && lines[i].Indexed()
    ensures EntriesOf(lines)[k] == Entry(lines[i].mid, |LogText(lines[..i])|)
    decreases |lines|
  {
    var before := lines[..|lines| - 1];
    if k < |EntriesOf(before)| {
      i := EntryLine(before, k);
      assert before[..i] == lines[..i];
    } else {
      i := |lines| - 1;
    }
  }

  /** The first line with a message-ID, by index. */
  function FirstLine(lines: seq<Line>, mid: Bytes): (i: nat)
    ensures i <= |lines|
    ensures i < |lines| ==> lines[i].mid == mid
    ensures forall k :: 0 <= k < i ==> lines[k].mid != mid
  {
    if lines == [] then 0 else if lines[0].mid == mid then 0 else 1 + FirstLine(lines[1..], mid)
  }

  /** What the lines say of a message-ID. */
  function LineScan(lines: seq<Line>, mid: Bytes): Option<Bytes> {
    var i := FirstLine(lines, mid);
    if i < |lines| then Some(lines[i].rest) else None
  }

  predicate AllClean(lines: seq<Line>) {
    forall i :: 0 <= i < |lines| ==> lines[i].Clean()
  }

  lemma {:induction false} LogTextFront(lines: seq<Line>)
    requires lines != []
    ensures LogText(lines) == lines[0].Text() + LogText(lines[1..])
    decreases |lines|
  {
    if |lines| == 1 {
      assert lines[..0] == [] && lines[1..] == [];
    } else {
      var before, last := lines[..|lines| - 1], lines[|lines| - 1];
      LogTextFront(before);
      assert lines[1..] == before[1..] + [last] && lines[0] == before[0];
      LogAppend(before[1..], last);
      Assoc(lines[0].Text(), LogText(before[1..]), last.Text());
    }
  }

  lemma Assoc(a: Bytes, b: Bytes, c: Bytes)
    ensures (a + b) + c == a + (b + c)
  {
  }

  /** The first line of a log text, as its scanner sees it. */
  lemma FirstLineText(l: Line, more: Bytes)
    requires l.Clean()
    ensures var log := l.Text() + more; var n := |l.mid| + 1 + |l.rest|;
            IndexOf(log, NL) == n && log[..n] == l.mid + [TAB] + l.rest && log[n + 1..] == more
    ensures IndexOf(l.mid + [TAB] + l.rest, TAB) == |l.mid|
    ensures (l.mid + [TAB] + l.rest)[..|l.mid|] == l.mid && (l.mid + [TAB] + l.rest)[|l.mid| + 1..] == l.rest
  {
    var log := l.Text() + more;
    var n := |l.mid| + 1 + |l.rest|;
    var line := l.mid + [TAB] + l.rest;
    assert log[..n] == line;
    assert NL !in line;
    IndexOfUnique(log, NL, n);
    IndexOfUnique(line, TAB, |l.mid|);
  }

  lemma LogScanStep(l: Line, more: Bytes, mid: Bytes)
    requires l.Clean()
    ensures LogScan(l.Text() + more, mid) == if l.mid == mid then Some(l.rest) else LogScan(more, mid)
  {
    FirstLineText(l, more);
  }

  /** A log of one more line in front, character by character. */
  lemma LogScanLaw(first: Bytes, rest: Bytes, more: Bytes, mid: Bytes)
    requires Line(first, rest).Clean()
    ensures LogScan(first + [9] + rest + [10] + more, mid) ==
            if first == mid then Some(rest) else LogScan(more, mid)
    ensures LogScan([], mid) == None
  {
    LogScanStep(Line(first, rest), more, mid);
  }

  lemma LineScanStep(lines: seq<Line>, mid: Bytes)
    requires lines != []
    ensures LineScan(lines, mid) == if lines[0].mid == mid then Some(lines[0].rest) else LineScan(lines[1..], mid)
  {
  }

  /** Scanning the text of the log and scanning its lines come to the same. */
  lemma {:induction false} ScanLines(lines: seq<Line>, mid: Bytes)
    requires AllClean(lines)
    ensures LogScan(LogText(lines), mid) == LineScan(lines, mid)
    decreases |lines|
  {
    hide LogScan, LineScan;
    if lines == [] {
      EmptyScans(mid);
    } else {
      LogTextFront(lines);
      LogScanStep(lines[0], LogText(lines[1..]), mid);
      LineScanStep(lines, mid);
      ScanLines(lines[1..], mid);
    }
  }

  lemma EmptyScans(mid: Bytes)
    ensures LogScan([], mid) == None && LineScan([], mid) == None
  {
  }

  // ---- the index over the log ---------------------------------------------

  /** How `makedbz` sets a history table up: tabs, no case mapping, no tags. */
  ghost predicate HistoryConf(conf: Conf) {
    conf.Valid() && conf.fieldsep == TAB && conf.casemap == CASE_NONE && conf.tags == Tags(0, 0, 0)
  }

  lemma {:induction false} EntryBound(lines: seq<Line>, k: nat)
    requires k < |EntriesOf(lines)|
    ensures 0 <= EntriesOf(lines)[k].value <= |LogText(lines)|
    decreases |lines|
  {
    var before := lines[..|lines| - 1];
    if k < |EntriesOf(before)| {
      EntryBound(before, k);
    }
  }

  lemma FirstIndexAppend(es: seq<Entry>, more: seq<Entry>, key: Bytes)
    ensures FirstIndex(es, key) < |es| ==> FirstIndex(es + more, key) == FirstIndex(es, key)
    ensures FirstIndex(es, key) == |es| ==> FirstIndex(es + more, key) == |es| + FirstIndex(more, key)
  {
    var i, j, m := FirstIndex(es, key), FirstIndex(es + more, key), FirstIndex(more, key);
    assert forall k :: 0 <= k < |es| ==> (es + more)[k] == es[k];
    assert forall k :: 0 <= k < |more| ==> (es + more)[|es| + k] == more[k];
  }

  lemma FirstIndexOne(es: seq<Entry>, key: Bytes)
    requires |es| <= 1
    ensures FirstIndex(es, key) == if |es| == 1 && es[0].key != key then 1 else 0
  {
  }

  lemma FirstLineAppend(lines: seq<Line>, l: Line, mid: Bytes)
    ensures FirstLine(lines + [l], mid) ==
            if FirstLine(lines, mid) < |lines| then FirstLine(lines, mid)
            else if l.mid == mid then |lines| else |lines| + 1
  {
    var i, j := FirstLine(lines, mid), FirstLine(lines + [l], mid);
    assert forall k :: 0 <= k < |lines| ==> (lines + [l])[k] == lines[k];
    assert (lines + [l])[|lines|] == l;
  }

  /** The index of a message-ID short enough to be indexed is the start of its first line. */
  lemma {:induction false} IndexScan(lines: seq<Line>, mid: Bytes)
    requires |mid| < DBZMAXKEY
    ensures var i := FirstLine(lines, mid);
            Scan(EntriesOf(lines), mid) == if i < |lines| then Some(|LogText(lines[..i])|) else None
    decreases |lines|
  {
    hide FirstLine, FirstIndex, LogText;
    if lines != [] {
      var before, last := lines[..|lines| - 1], lines[|lines| - 1];
      assert lines == before + [last];
      IndexScan(before, mid);
      FirstLineAppend(before, last, mid);
      var more := if last.Indexed() then [Entry(last.mid, |LogText(before)|)] else [];
      FirstIndexAppend(EntriesOf(before), more, mid);
      FirstIndexOne(more, mid);
      var i := FirstLine(before, mid);
      if i < |before| {
        assert before[..i] == lines[..i];
      }
    }
  }

  /** Every index entry older than a message-ID's own leaves room to read as many bytes. */
  lemma {:induction false} OlderOffsets(lines: seq<Line>, mid: Bytes, k: nat)
    requires k < FirstIndex(EntriesOf(lines), mid) < |EntriesOf(lines)|
    ensures Readable(LogText(lines), mid, EntriesOf(lines)[k].value)
    decreases |lines|
  {
    var before, last := lines[..|lines| - 1], lines[|lines| - 1];
    var more := if last.Indexed() then [Entry(last.mid, |LogText(before)|)] else [];
    FirstIndexAppend(EntriesOf(before), more, mid);
    if FirstIndex(EntriesOf(before), mid) < |EntriesOf(before)| {
      OlderOffsets(before, mid, k);
    } else {
      EntryBound(before, k);
    }
  }

  function MidsOf(es: seq<Entry>): (raws: seq<Bytes>)
    ensures |raws| == |es| && forall i :: 0 <= i < |es| ==> raws[i] == es[i].key
  {
    seq(|es|, i requires 0 <= i < |es| => es[i].key)
  }

  /** The log holds each indexed message-ID, and a tab after it, at its entry's offset. */
  lemma LogKeyed(lines: seq<Line>, conf: Conf)
    requires AllClean(lines) && HistoryConf(conf)
    ensures KeyedBy(conf, LogText(lines), EntriesOf(lines), MidsOf(EntriesOf(lines)), [])
  {
    hide LogText, EntriesOf, MapCase, Line.Text, TextAt;
    var log, es := LogText(lines), EntriesOf(lines);
    forall k | 0 <= k < |es|
      ensures es[k].key != [] && TextAt(conf, log, es[k].key, es[k].value)
      ensures es[k].key == MapCase(conf.casemap, es[k].key + [])
    {
      var i := EntryLine(lines, k);
      LineAt(lines, i);
      var l, off := lines[i], es[k].value;
      assert l.Clean();
      assert log[off..off + |l.Text()|] == l.Text();
      TextInLine(log, l, off);
      LineTextAt(conf, log, l, off);
      assert es[k].key + [] == es[k].key;
      Unmapped(conf, es[k].key);
    }
  }

  lemma LineTextAt(conf: Conf, log: Bytes, l: Line, off: nat)
    requires HistoryConf(conf) && off + |l.Text()| <= |log| && log[off..off + |l.Text()|] == l.Text()
    ensures TextAt(conf, log, l.mid, off)
  {
    TextInLine(log, l, off);
  }

  lemma TextInLine(log: Bytes, l: Line, off: nat)
    requires off + |l.Text()| <= |log| && log[off..off + |l.Text()|] == l.Text()
    ensures log[off..off + |l.mid|] == l.mid && log[off + |l.mid|] == TAB
  {
    var text := log[off..off + |l.Text()|];
    assert text[..|l.mid|] == l.mid && text[|l.mid|] == TAB;
  }

  /** No indexed message-ID properly extends this one. Message-IDs end in their only '>',
      so none extends another. */
  predicate NotExtended(lines: seq<Line>, mid: Bytes) {
    forall i :: 0 <= i < |lines| && lines[i].Indexed() && |lines[i].mid| > |mid| ==> lines[i].mid[..|mid|] != mid
  }

  /** A message-ID as the caller may give it: a C string that fits one field. */
  predicate CleanMid(mid: Bytes) {
    mid != [] && TAB !in mid && NL !in mid && NUL !in mid
  }

  /** The log tells the message-ID apart from all indexed ones. */
  lemma LogTells(lines: seq<Line>, conf: Conf, mid: Bytes)
    requires AllClean(lines) && HistoryConf(conf) && CleanMid(mid) && NotExtended(lines, mid)
    ensures Tells(conf, LogText(lines), EntriesOf(lines), mid)
  {
    hide MapCase, KeyedBy, Tells, LogText, EntriesOf, NoLongerKey, NotExtended;
    var raws := MidsOf(EntriesOf(lines));
    LogKeyed(lines, conf);
    Unmapped(conf, mid);
    TellsUnterminated(conf, LogText(lines), EntriesOf(lines), raws, mid);
    forall k | 0 <= k < |raws|
      ensures NoLongerKey(conf.casemap, mid, raws[k])
    {
      var i := EntryLine(lines, k);
      LineNotLonger(lines, conf, mid, i);
    }
  }

  lemma LineNotLonger(lines: seq<Line>, conf: Conf, mid: Bytes, i: nat)
    requires HistoryConf(conf) && NotExtended(lines, mid) && i < |lines| && lines[i].Indexed()
    ensures NoLongerKey(conf.casemap, mid, lines[i].mid)
  {
    hide MapCase;
    var other := lines[i].mid;
    if |other| > |mid| {
      Unmapped(conf, other[..|mid|]);
      Unmapped(conf, mid);
    }
  }

  lemma Unmapped(conf: Conf, mid: Bytes)
    requires conf.casemap == CASE_NONE
    ensures MapCase(conf.casemap, mid) == mid
  {
  }

  /** Fetching an indexable message-ID gives the start of its first line. */
  lemma FetchLine(s: seq<int>, conf: Conf, lines: seq<Line>, ds: seq<nat>, mid: Bytes)
    requires AllClean(lines) && HistoryConf(conf) && CleanMid(mid) && NotExtended(lines, mid) && |mid| < DBZMAXKEY
    requires Represents(s, conf, EntriesOf(lines), ds)
    ensures var r := FetchOutcome(s, conf, LogText(lines), mid); var i := FirstLine(lines, mid);
            if i < |lines| then r == Found(|LogText(lines[..i])|) else !r.Found?
  {
    hide Represents, Tells, FetchOutcome, HashOf;
    LogTells(lines, conf, mid);
    forall k | 0 <= k < FirstIndex(EntriesOf(lines), mid) < |EntriesOf(lines)|
      ensures Readable(LogText(lines), mid, EntriesOf(lines)[k].value)
    {
      OlderOffsets(lines, mid, k);
    }
    FetchIsScanOfReadable(s, conf, LogText(lines), EntriesOf(lines), ds, mid);
    IndexScan(lines, mid);
  }

  /** A key longer than any indexed one is never found. */
  lemma FetchLongKey(s: seq<int>, conf: Conf, lines: seq<Line>, ds: seq<nat>, key: Bytes)
    requires AllClean(lines) && HistoryConf(conf) && CleanMid(key) && |key| == DBZMAXKEY
    requires Represents(s, conf, EntriesOf(lines), ds)
    ensures !FetchOutcome(s, conf, LogText(lines), key).Found?
  {
    LogTells(lines, conf, key);
    forall k | 0 <= k < |EntriesOf(lines)|
      ensures EntriesOf(lines)[k].key != key
    {
      var i := EntryLine(lines, k);
    }
    hide Represents, Tells, FetchOutcome, HashOf;
    FetchIsScan(s, conf, LogText(lines), EntriesOf(lines), ds, key);
  }

  lemma CutClean(key: Bytes)
    requires CleanMid(key)
    ensures CleanMid(Database.Cut(key))
  {
    var cut := Database.Cut(key);
    assert forall c :: c in cut ==> c in key;
  }

  /** The block read at a line's start begins with the whole line. */
  lemma BlockAtLine(lines: seq<Line>, i: nat)
    requires AllClean(lines) && i < |lines|
    ensures var log := LogText(lines); var off := |LogText(lines[..i])|; var l := lines[i];
            off + |l.Text()| <= |log| &&
            var block := log[off..if off + BLOCK < |log| then off + BLOCK else |log|];
            block == l.Text() + block[|l.Text()|..]
  {
    LineAt(lines, i);
    var log, off, l := LogText(lines), |LogText(lines[..i])|, lines[i];
    assert l.Clean();
    var block := log[off..if off + BLOCK < |log| then off + BLOCK else |log|];
    assert block[..|l.Text()|] == log[off..][..|l.Text()|];
  }

  /** The open history: the log, and the index over it. */
  class Files {
    var log: TextFile
    var db: Database
    /** The lines of the log. */
    ghost var lines: seq<Line>

    ghost predicate Valid()
      reads this, log, db, db.corepag
    {
      && db.Valid() && db.basef == log && HistoryConf(db.conf)
      && db.writethrough && db.FileCurrent()
      && AllClean(lines) && log.bytes == LogText(lines) && db.entries == EntriesOf(lines)
    }

    /** A new history: an empty log and a fresh index. */
    constructor (conf: Conf, incore: bool)
      requires HistoryConf(conf)
      ensures Valid() && lines == [] && fresh(log) && fresh(db) && (db.corepag != null ==> fresh(db.corepag))
      ensures db.conf == conf
    {
      EmptyRepresents(conf);
      var empty := new TextFile();
      log := empty;
      db := new Database(conf, empty, 0, [], incore, true, [], []);
      lines := [];
    }

    /** HISfilesfor: what follows the first tab of the line an index entry points at. */
    method HisFilesFor(key: Bytes) returns (r: Option<Bytes>)
      requires Valid() && CleanMid(key)
      modifies db`srch, db`probe, db`fpos, db`pagpos, db`prevp
      ensures Valid()
      ensures |key| >= DBZMAXKEY ==> r == None
      ensures |key| < DBZMAXKEY && NotExtended(lines, key) ==> r == LineScan(lines, key)
    {
      var offset := FetchOffset(key);
      if offset == None {
        return None;
      }
      ghost var i := FirstLine(lines, key);
      if |key| >= DBZMAXKEY || !NotExtended(lines, key) {
        i :| 0 <= i < |lines| && offset.value == |LogText(lines[..i])|;
      }
      r := ReadLine(offset.value, i);
    }

    /** The read inside `HISfilesfor`. */
    method ReadLine(offset: int, ghost i: nat) returns (r: Option<Bytes>)
      requires log.bytes == LogText(lines) && AllClean(lines)
      requires i < |lines| && offset == |LogText(lines[..i])|
      ensures r == Some(lines[i].rest)
    {
      BlockAtLine(lines, i);
      var end := if offset + BLOCK < |log.bytes| then offset + BLOCK else |log.bytes|;
      var block := log.bytes[offset..end];
      FirstLineText(lines[i], block[|lines[i].Text()|..]);
      var n := IndexOf(block, NL);
      var line := block[..n];
      var t := IndexOf(line, TAB);
      if t == |line| {
        return None;
      }
      r := Some(line[t + 1..]);
    }

    /** The index lookup of `HISfilesfor` and `myHISwrite`. */
    method FetchOffset(key: Bytes) returns (r: Option<int>)
      requires Valid() && CleanMid(key)
      modifies db`srch, db`probe, db`fpos, db`pagpos, db`prevp
      ensures Valid()
      ensures |key| >= DBZMAXKEY ==> r == None
      ensures |key| < DBZMAXKEY && NotExtended(lines, key) ==>
                var i := FirstLine(lines, key);
                r == if i < |lines| then Some(|LogText(lines[..i])|) else None
      ensures r.Some? ==> exists i :: 0 <= i < |lines| && r.value == |LogText(lines[..i])|
    {
      hide Represents, Lookup, HashOf, MapCase;
      ghost var s, cut := db.Slots(), Database.Cut(key);
      Unmapped(db.conf, cut);
      CutClean(key);
      assert Database.Cut(cut) == cut;
      assert db.Outcome(cut) == FetchOutcome(s, db.conf, log.bytes, cut);
      if |key| >= DBZMAXKEY {
        FetchLongKey(s, db.conf, lines, db.depths, cut);
      } else if NotExtended(lines, key) {
        FetchLine(s, db.conf, lines, db.depths, key);
      }
      if db.Outcome(cut).Found? {
        var k := FoundIsEntry(s, db.conf, log.bytes, db.entries, db.depths, cut, HashOf(cut), 0);
        var i := EntryLine(lines, k);
      }
      r := db.DbzFetch(key);
    }

    /** What `HISwrite` and `myHISwrite` both do with a line that is already made up: append
        it, and index it if its key is short enough; otherwise the line stays an orphan. */
    method Append(key: Bytes, text: Bytes, ghost l: Line) returns (ok: bool)
      requires Valid() && l.Clean() && key == l.mid && text == l.Text()
      requires |log.bytes| <= LONG_MAX
      modifies log, db, db.corepag
      ensures Appended(l) && db.corepag == old(db.corepag) && db.conf == old(db.conf)
      ensures ok <==> l.Indexed()
      ensures log.bytes == old(log.bytes) + text
    {
      hide Represents, Lookup, HashOf, MapCase, Database.Valid, LogText, EntriesOf, DepthAfter, LagsBehind;
      var offset := |log.bytes|;
      LogAppend(lines, l);
      ZeroAnd(offset);
      Unmapped(db.conf, key);
      log.bytes := log.bytes + text;
      ok := db.DbzStore(key, offset);
      if ok {
        db.Sync();
      }
    }

    /** The state after appending a line, before the ghost list of lines follows. */
    ghost predicate Appended(l: Line)
      reads this, log, db, db.corepag
    {
      && db.Valid() && db.basef == log && HistoryConf(db.conf)
      && db.writethrough && db.FileCurrent()
      && AllClean(lines + [l]) && log.bytes == LogText(lines + [l]) && db.entries == EntriesOf(lines + [l])
    }

    /** HISwrite: a new line for an article, whether or not there is one already. */
    method HisWrite(key: Bytes, date: int, paths: Bytes) returns (ok: bool)
      requires Valid() && Line(key, Decimal(date) + [TAB] + paths).Clean()
      requires |log.bytes| <= LONG_MAX
      modifies this, log, db, db.corepag
      ensures Valid() && log == old(log) && db == old(db) && db.corepag == old(db.corepag) && db.conf == old(db.conf)
      ensures lines == old(lines) + [Line(key, Decimal(date) + [TAB] + paths)]
      ensures log.bytes == old(log.bytes) + (key + [9] + Decimal(date) + [9] + paths + [10])
      ensures ok <==> |key| < 255
    {
      hide Database.Valid, LogText, EntriesOf, AllClean, SameAt, HistoryConf, Decimal, Line.Clean, Line.Text;
      ghost var l := Line(key, Decimal(date) + [TAB] + paths);
      var text := key + [TAB] + Decimal(date) + [TAB] + paths + [NL];
      LineWritten(key, Decimal(date), paths);
      ok := Append(key, text, l);
      lines := lines + [l];
    }

    /** myHISwrite: a line carried over from an older log, unless its key is indexed. */
    method MyHisWrite(key: Bytes, remain: Bytes, ghost rest: Bytes) returns (ok: bool)
      requires Valid() && Line(key, rest).Clean() && remain == rest + [NL] && NotExtended(lines, key)
      requires |log.bytes| <= LONG_MAX
      modifies this, log, db, db.corepag
      ensures Valid() && log == old(log) && db == old(db) && db.corepag == old(db.corepag) && db.conf == old(db.conf)
      ensures ok <==> |key| < DBZMAXKEY && FirstLine(old(lines), key) == |old(lines)|
      ensures lines == if |key| < DBZMAXKEY && !ok then old(lines) else old(lines) + [Line(key, rest)]
      ensures log.bytes == if |key| < 255 && !ok then old(log.bytes) else old(log.bytes) + (key + [9] + remain)
    {
      hide Database.Valid, LogText, EntriesOf, AllClean, SameAt, HistoryConf, FirstLine, NotExtended;
      var offset := FetchOffset(key);
      if offset.Some? {
        return false;
      }
      var text := key + [TAB] + remain;
      ghost var l := Line(key, rest);
      assert text == l.Text();
      ok := Append(key, text, l);
      lines := lines + [l];
    }

    /** DBfetch: only so much of the message-ID is used. */
    method DbFetch(mid: Bytes) returns (r: Option<Bytes>)
      requires Valid() && CleanMid(mid)
      modifies db`srch, db`probe, db`fpos, db`pagpos, db`prevp
      ensures Valid()
      ensures |mid| >= DBZMAXKEY ==> r == None
      ensures |mid| < DBZMAXKEY && NotExtended(lines, mid) ==> r == LogScan(log.bytes, mid)
    {
      KeptClean(mid);
      ScanLines(lines, mid);
      r := HisFilesFor(Kept(mid));
    }

    /** DBstore: 0 when the line was indexed, -1 otherwise. */
    method DbStore(mid: Bytes, paths: Bytes, now: int) returns (r: int)
      requires Valid() && Line(Kept(mid), Decimal(now) + [TAB] + paths).Clean()
      requires |log.bytes| <= LONG_MAX
      modifies this, log, db, db.corepag
      ensures Valid() && log == old(log) && db == old(db) && db.corepag == old(db.corepag) && db.conf == old(db.conf)
      ensures lines == old(lines) + [Line(Kept(mid), Decimal(now) + [TAB] + paths)]
      ensures var key := if |mid| > 510 then mid[..510] else mid;
              log.bytes == old(log.bytes) + (key + [9] + Decimal(now) + [9] + paths + [10])
      ensures r == if |mid| < 255 then 0 else -1
    {
      var ok := HisWrite(Kept(mid), now, paths);
      r := if ok then 0 else -1;
    }

    /** storeDB: store unless already there. A message-ID the log knows changes nothing; any
        other gets the next line, and one too long for the index gets a line every time. */
    method StoreDb(mid: Bytes, paths: Bytes, now: int) returns (r: int)
      requires Valid() && CleanMid(mid) && Line(Kept(mid), Decimal(now) + [TAB] + paths).Clean()
      requires |log.bytes| <= LONG_MAX && NotExtended(lines, mid)
      modifies this, log, db, db.corepag
      ensures Valid() && log == old(log) && db == old(db) && db.corepag == old(db.corepag) && db.conf == old(db.conf)
      ensures var known := |mid| < DBZMAXKEY && LogScan(old(log.bytes), mid).Some?;
              if known then
                r == 0 && lines == old(lines) && log.bytes == old(log.bytes) &&
                db.entries == old(db.entries) && db.pag == old(db.pag) && db.Slots() == old(db.Slots())
              else
                lines == old(lines) + [Line(Kept(mid), Decimal(now) + [TAB] + paths)] &&
                r == (if |mid| < 255 then 0 else -1) &&
                var key := if |mid| > 510 then mid[..510] else mid;
                log.bytes == old(log.bytes) + (key + [9] + Decimal(now) + [9] + paths + [10])
    {
      var found := DbFetch(mid);
      if found.Some? {
        return 0;
      }
      r := DbStore(mid, paths, now);
    }
  }

  /** What the fprintf of `HISwrite` prints is a line. */
  lemma LineWritten(key: Bytes, date: Bytes, paths: Bytes)
    ensures key + [TAB] + date + [TAB] + paths + [NL] == Line(key, date + [TAB] + paths).Text()
  {
  }

  /** "%.510s" */
  function Kept(mid: Bytes): Bytes {
    if |mid| > KEYROOM then mid[..KEYROOM] else mid
  }

  lemma KeptClean(mid: Bytes)
    requires CleanMid(mid)
    ensures CleanMid(Kept(mid))
  {
    assert forall c :: c in Kept(mid) ==> c in mid;
  }
}
