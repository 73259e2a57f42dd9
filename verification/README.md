# Firebird BBS: news index, history, patterns and stream codecs

This project models the parts of the Firebird bulletin board system whose behaviour is
hardest to see from the code, and proves what they promise.

- **The dbz index** (`dbz.c`): a hash table of file offsets. Probing is linear in runs of
  100 and spills into an unbounded series of overflow tables; slots carry a biased offset and
  sometimes extra hash bits; the first table may live in core; seeks believed unnecessary are
  skipped; a failed fetch leaves a search that the next store resumes; the keys are not
  stored but read back from a text file. All of it is proved to be invisible: every run of
  stores, fetches, syncs and restarts, with write-through switched on and off and the base file
  growing, answers as a scan of the list of stored pairs does.
- **The history log** (`his.c`, `dbztool.c`): an append-only text log indexed by dbz, and its
  rebuild with expiry. Every run of stores, look-ups and rebuilds answers as the list of log
  lines does.
- **Patterns** (`wildmat.c`): equal to a declarative reading of globs, with the soundness of
  the abort result and the linear bound on activations.
- **Streams** (`mmencode.c`, `jis.c`, `hztty/io.c`, `hztty/b2g.c`): base64, Shift-JIS to 7-bit
  JIS and EUC and back, and the two-byte converters that work chunk by chunk. The round trips
  and the independence of chunking are proved, with the exact inputs for which they hold.
- **Threads** (`thread.c`): the two-level linked list that sorts a board's posts.

Objects that the code updates in place are classes (`Dbz.Database`, `DbzCase.CaseMap`,
`DbzConf.CFile`, `History.Files`, `Mmencode.Encoder` and `Decoder`, `Jis.Converter`,
`HzStream.Stream`, `Thread.Board`); what their methods do is stated by functions, and the
promises are proved of those. What the functions read and write is then tied down in plain
numbers and characters (`DbzFormats`, `HistoryDates`, `JisText`, and the laws at the end of
`Wildmat`, `Mmencode`, `HzStream` and `Thread`). A `long` is an integer in the 64-bit range with its bit
operations written out (module `Bits`). `Arith`, `Bits`, `Bytes` and
`Decimals` are helpers.

Hypotheses the code needs, stated in the contracts and not assumed away:

- A fetch can tell its key from the ones stored before it (`DbzTable.Tells`). `DbzKeys` says
  exactly when that is so: always for NUL-terminated keys, and for others exactly when no longer
  key stored earlier begins with the key. `DbzRuns.KeyedRun` states the theorem about runs in
  terms of the keys themselves.
- A short read of a candidate ends a fetch. A stored key is found exactly when every candidate
  on its probe path can be read; it is enough that the pairs stored before it can be, which
  holds of every base file that only grows, the history among them.
- Stored values are offsets, 0 to the largest `long`. Keys are not empty.

Where the code does not do what it is said to do:

- `dbzfresh` looks at a tag mask through `(int)`. For base files above 2^31 bytes the mask from
  `dbztagmask` becomes 0 there, the default mask comes back, and the offset 2^31 is refused
  (`DbzTag.FreshTagsForSize`). `dbzagain` is not affected (`DbzTag.AgainTags`).
- `isprime(1)` holds, so `dbzsize(1)` is 1 (`TableSize.IsPrime`, `TableSize.DbzSize`).
- `dbzsync` writes nothing when write-through is on; pairs that had gone to the in-core table
  alone are then lost at a restart. For every run, the file left at the end holds the table of
  all stored pairs if and only if no such pair is unsynced while write-through is on
  (`DbzRuns.Run`); storing one pair, switching and closing is enough (`DbzRuns.LosesPair`).
- `fetch` without NUL-terminated keys can find a longer key in place of the one asked for. It
  never does, in a table of any size and with any tags, if and only if no longer key that begins
  with it was stored before it (`DbzKeys.FetchWrongExactly`); in a one-slot table every beginning
  of a lone longer key is found (`DbzKeys.PrefixIsFound`).
- `fetch` stops at a candidate whose offset leaves too little to read. It finds a stored key
  exactly when there is none on its probe path (`DbzTable.FetchIsScan`); in a one-slot table such
  a pair hides every pair stored after it (`DbzKeys.ShortReadHides`).
- A message-ID of 255 bytes or more never enters the index, so `storeDB` appends another
  orphaned line for it every time (`History.Files.StoreDb`).
- `from64` sends a carriage return left pending to the standard output. With portable newlines
  the base64 round trip therefore holds exactly when every run of carriage returns before a
  newline or the end has even length (`Mmencode.PortableRoundTrip`).
- `shift2euc` also prints the first byte of every character to the standard output, a leftover.
  With an output file of its own the round trip through EUC is as promised; when the output is
  the standard output, a stream comes back unchanged if and only if it is made of NUL alone,
  and then only because of those strays (`Jis.MixedIsSame`).
- Shift-JIS trail byte 127 shares its 7-bit form with 128, so it comes back as 128
  (`Jis.ThereAndBack`).

## Model

| member | source | states |
|---|---|---|
| DbzTag.WithTagReadBack | bbssrc/util/innbbsd/dbz.c:108-146 | a tagged word gives back its tag, its enable bit and its offset, whenever the offset shares no bit with either mask |
| DbzTag.EncodeDecode | bbssrc/util/innbbsd/dbz.c:1475-1495 | what a store writes is never vacant, reads back as the same offset under the same tag, and is skipped under another tag exactly when it was tagged |
| DbzTag.SizeBits | bbssrc/util/innbbsd/dbz.c:1117-1118 | the doubling loop finds the least power of two not below the size |
| DbzTag.DbzTagMask | bbssrc/util/innbbsd/dbz.c:1107-1126 | no mask up to 2^23 bytes, otherwise 2^63 - 2^i for the least 2^i not below the size |
| DbzTag.SplitMask | bbssrc/util/innbbsd/dbz.c:437-443 | the mask is an odd number times a power of two |
| DbzTag.FreshTags | bbssrc/util/innbbsd/dbz.c:428-446 | what each mask means to `dbzfresh`, with its truncation to `int` |
| DbzTag.HighTagsClear | bbssrc/util/innbbsd/dbz.c:428-446 | masks at the high bits overlap no offset below the size |
| DbzTag.FreshTagsForSize | bbssrc/util/innbbsd/dbz.c:381-446 | for every size from 1 to 2^62 the masks are well formed; they overlap no offset below the size if and only if it is at most 2^31, and above that the offset 2^31 is refused |
| DbzTag.AgainTags | bbssrc/util/innbbsd/dbz.c:572-583 | the masks `dbzagain` builds overlap no offset below the old size, for every size to 2^62 |
| DbzHash.CrcInit | bbssrc/util/innbbsd/dbz.c:1604-1636 | fills the table whose entries are folded into a key |
| DbzHash.Hash | bbssrc/util/innbbsd/dbz.c:1638-1670 | the hash is a function of the key alone and lies in 0 to 2^31 - 1 |
| DbzCase.CaseMap.MapPrime | bbssrc/util/innbbsd/dbz.c:1674-1701 | the map sends every signed character to its lower-case form |
| DbzCase.CaseMap.CaseNCmp | bbssrc/util/innbbsd/dbz.c:1702-1737 | negative, zero or positive as the strings sort, with the terminating NUL before every other character; zero exactly when both agree ignoring case |
| DbzCase.CaseMap.CaseEqual | bbssrc/util/innbbsd/dbz.c:1670-1673 | the comparison macro is exact even before the map is primed |
| DbzCase.CaseMap.CiPoint | bbssrc/util/innbbsd/dbz.c:1780-1808 | finds the place from which a key is case-insensitive |
| DbzCase.CaseMap.Map | bbssrc/util/innbbsd/dbz.c:1738-1779 | lower-cases a key from that place on |
| DbzCase.MapIdempotent | bbssrc/util/innbbsd/dbz.c:1738-1808 | mapping twice is mapping once, for every case map |
| DbzCase.MapKeepsAt | bbssrc/util/innbbsd/dbz.c:1780-1808 | mapping does not move the first @ |
| DbzCase.MapParts | bbssrc/util/innbbsd/dbz.c:1780-1808 | the mapped form of a message-ID, part by part |
| DbzCase.MapEqual | bbssrc/util/innbbsd/dbz.c:1672-1808 | section 3.4.7 of RFC 822: two message-IDs map alike if and only if their domains agree ignoring case and their local parts agree or are both postmaster |
| DbzConf.ParsePrinted | bbssrc/util/innbbsd/dbz.c:1208-1244 | a printed number is read back and reading stops at what follows |
| DbzConf.GetToken | bbssrc/util/innbbsd/dbz.c:1208-1244 | the collecting loop takes the characters up to a space, a newline or the end |
| DbzConf.GetNo | bbssrc/util/innbbsd/dbz.c:1208-1244 | reads one number, or fails |
| DbzConf.GetNos | bbssrc/util/innbbsd/dbz.c:1176-1198 | reads a row of numbers |
| DbzConf.GetConf | bbssrc/util/innbbsd/dbz.c:1130-1207 | the configuration a file's text stands for, and the old format recognised by an empty configuration beside a table that is not |
| DbzConf.PutConf | bbssrc/util/innbbsd/dbz.c:1248-1274 | writes the configuration's text over the old file, whose tail stays |
| DbzConf.ConfRoundTrip | bbssrc/util/innbbsd/dbz.c:1130-1274 | every valid configuration is read back from its text, whatever follows it |
| DbzConf.SaveAndLoad | bbssrc/util/innbbsd/dbz.c:1130-1274 | `putconf` over any old file, rewound and read by `getconf`, gives the same configuration |
| DbzTable.ProbeTable | bbssrc/util/innbbsd/dbz.c:1380-1404 | the j-th probe lies in overflow table j / 100 |
| DbzTable.OccupiedBound | bbssrc/util/innbbsd/dbz.c:1380-1456 | only finitely many probes meet an occupied slot |
| DbzTable.FirstVacant | bbssrc/util/innbbsd/dbz.c:1070-1074 | the first vacant probe exists and is where a store stops |
| DbzTable.FirstVacantResumed | bbssrc/util/innbbsd/dbz.c:1070-1074 | a search resumed after occupied probes ends where a fresh one does |
| DbzTable.InsertRepresents | bbssrc/util/innbbsd/dbz.c:1036-1079 | storing at the first vacant probe keeps the slots standing for the list of stored pairs, now one longer |
| DbzTable.LookupStored | bbssrc/util/innbbsd/dbz.c:914-981 | from any probe before it, a stored key is found at its earliest pair if and only if the candidates on the way can be read |
| DbzTable.LookupAbsent | bbssrc/util/innbbsd/dbz.c:914-981 | a key that is not stored is never found |
| DbzTable.FetchIsScan | bbssrc/util/innbbsd/dbz.c:914-981 | a fetch is a scan of the stored pairs, exactly unless a candidate on the probe path runs past the end of the base file |
| DbzTable.LaidRepresents | bbssrc/util/innbbsd/dbz.c:1036-1079 | every list of acceptable pairs has a table, the one that storing them in order leaves |
| DbzTable.SameTable | bbssrc/util/innbbsd/dbz.c:1353-1529 | and no other: the list alone determines every slot and every depth |
| DbzTable.StandsFor | bbssrc/util/innbbsd/dbz.c:1353-1529 | a file stands for a list of pairs if and only if it holds that table |
| DbzTable.FirstTable | bbssrc/util/innbbsd/dbz.c:1388-1403 | the first 100 probes, and no others, lie in the first table |
| DbzTable.StoreLags | bbssrc/util/innbbsd/dbz.c:1497-1529 | a store makes the file lag behind the slots if and only if it went to core alone or the file lagged before |
| DbzTable.OlderReadable | bbssrc/util/innbbsd/dbz.c:955-961 | it is enough that the pairs older than the key's own can be read |
| DbzTable.FetchIsScanOfReadable | bbssrc/util/innbbsd/dbz.c:914-981 | then fetch and scan agree in both directions |
| DbzTable.FoundIsEntry | bbssrc/util/innbbsd/dbz.c:914-981 | whatever is found is the offset of a stored pair, with no condition on keys |
| DbzKeys.TellsUnterminated | bbssrc/util/innbbsd/dbz.c:943-948 | keys without NUL are told apart if and only if no longer key that was stored before the key begins with it |
| DbzKeys.TellsTerminated | bbssrc/util/innbbsd/dbz.c:943-970 | NUL-terminated keys are always told apart |
| DbzKeys.PrefixIsFound | bbssrc/util/innbbsd/dbz.c:943-948 | in a one-slot table a key never stored is found whenever the one stored key is longer and begins with it |
| DbzKeys.WrongAnswer | bbssrc/util/innbbsd/dbz.c:943-970 | whenever an older longer key begins with the key, there is a table and a base file in which the fetch answers wrongly |
| DbzKeys.FetchWrongExactly | bbssrc/util/innbbsd/dbz.c:914-981 | in every table and over every base file a fetch answers as the scan does, if and only if no longer key stored before the key begins with it |
| DbzKeys.ShortReadHides | bbssrc/util/innbbsd/dbz.c:958-961 | in a one-slot table of two pairs, a first pair whose offset cannot be read hides the second, whatever its key (the general condition is in DbzTable.FetchIsScan) |
| DbzKeys.TinyTable | bbssrc/util/innbbsd/dbz.c:1036-1079 | for all keys there are a base file and a one-slot table that hold them, with every text readable |
| Dbz.ProbeNext | bbssrc/util/innbbsd/dbz.c:1388-1403 | one step of a search leads from each probe to the next |
| Dbz.Database.GetCore | bbssrc/util/innbbsd/dbz.c:1278-1330 | the in-core table holds the file's first slots, holes as vacant |
| Dbz.Database.constructor | bbssrc/util/innbbsd/dbz.c:750-769 | opening restores the slots of the file, in core or not |
| Dbz.Database.Start | bbssrc/util/innbbsd/dbz.c:1353-1375 | a search starts at the hash, or resumes the remembered one of the same hash with only occupied slots behind it |
| Dbz.Database.ReadSlot | bbssrc/util/innbbsd/dbz.c:1406-1434 | the value read is the slot's, although seeks are skipped and the position advances past the end of the file |
| Dbz.Database.Search | bbssrc/util/innbbsd/dbz.c:1379-1456 | stops at the next probe that is vacant or carries the tag, all before it being mismatches; it terminates |
| Dbz.Database.Advance | bbssrc/util/innbbsd/dbz.c:1388-1403 | moves from the j-th probe to the next one |
| Dbz.Database.Set | bbssrc/util/innbbsd/dbz.c:1475-1529 | changes exactly one slot of the abstract map, and the file too unless the slot is in core and write-through is off |
| Dbz.Database.Matches | bbssrc/util/innbbsd/dbz.c:958-970 | compares the text at an offset with the key |
| Dbz.Database.Fetch | bbssrc/util/innbbsd/dbz.c:914-981 | the outcome of the abstract lookup; only a fetch that met a vacant slot leaves its search behind |
| Dbz.Database.FindPlace | bbssrc/util/innbbsd/dbz.c:1066-1074 | resumed or fresh, the search of a store ends at the first vacant probe of the key's hash |
| Dbz.Database.Insert | bbssrc/util/innbbsd/dbz.c:1066-1079 | the new pair joins the list of stored pairs; the file stays current if and only if it was and the pair did not go to core alone |
| Dbz.Database.Store | bbssrc/util/innbbsd/dbz.c:1036-1079 | accepted exactly for short keys and values clear of the enable bit; otherwise nothing changes |
| Dbz.Database.DbzFetch | bbssrc/util/innbbsd/dbz.c:886-906 | cuts and maps the key, then fetches |
| Dbz.Database.DbzStore | bbssrc/util/innbbsd/dbz.c:1011-1031 | maps the key, then stores |
| Dbz.Database.Sync | bbssrc/util/innbbsd/dbz.c:841-866 | keeps the slots; the file becomes all of them when something was stored in core with write-through off, and is untouched otherwise |
| Dbz.Database.SetWriteThrough | bbssrc/util/innbbsd/dbz.c:1096-1103 | changes the mode and nothing else, and returns the old one |
| Dbz.Database.Close | bbssrc/util/innbbsd/dbz.c:792-837 | what the file left behind holds, and when that is every slot |
| Dbz.Reopen | bbssrc/util/innbbsd/dbz.c:750-837 | closing and opening again gives back every slot and every stored pair |
| DbzFiles.DbmInit | bbssrc/util/innbbsd/dbz.c:641-770 | opening takes the configuration, field by field, and the count of entries from the .dir file, and shifts the tag masks into place |
| DbzFiles.Restart | bbssrc/util/innbbsd/dbz.c:641-866 | closing and opening through both files gives back the slots, the pairs, the configuration and the latest count |
| DbzRuns.FetchStep | bbssrc/util/innbbsd/dbz.c:886-981 | a fetch on any reachable database is the earliest stored offset of its key, or none |
| DbzRuns.Step | bbssrc/util/innbbsd/dbz.c:792-1079 | every operation answers as the list does and leaves the next list |
| DbzRuns.Run | bbssrc/util/innbbsd/dbz.c:792-1103 | every run of stores, fetches, syncs, restarts and changes of write-through from an empty table, over a growing base file, answers as the list of stored pairs does; the file left at the end holds their table if and only if no pair is unsynced while write-through is on |
| DbzRuns.CloseRun | bbssrc/util/innbbsd/dbz.c:792-866 | the file a database leaves, under that condition |
| DbzRuns.LosesPair | bbssrc/util/innbbsd/dbz.c:849-858 | for every acceptable pair: stored in core, then write-through on, then closed, it is gone from the file |
| DbzRuns.StaysKeyed | bbssrc/util/innbbsd/dbz.c:1011-1079 | storing keys at the offsets of their texts, in order, keeps every stored text readable and in order, also while the base file grows |
| DbzRuns.KeyedIsOk | bbssrc/util/innbbsd/dbz.c:943-970 | such keys meet every condition of a fetch: with a NUL always, without one when no older longer key begins with the key |
| DbzRuns.KeyedRun | bbssrc/util/innbbsd/dbz.c:792-1103 | the theorem about runs in terms of the keys and their texts alone |
| DbzFormats.ProbeLaw | bbssrc/util/innbbsd/dbz.c:1380-1404 | the j-th probe is at (h + j) % tsize + j / 100 * tsize |
| DbzFormats.UntaggedWord | bbssrc/util/innbbsd/dbz.c:1475-1495 | an untagged table keeps every offset plus one |
| DbzFormats.TaggedWord | bbssrc/util/innbbsd/dbz.c:1475-1495 | with the default tags a small offset is kept plus one, plus seven bits of the hash quotient at bit 24, plus 2^31 |
| DbzFormats.UntaggedAccepts | bbssrc/util/innbbsd/dbz.c:1058-1068 | an untagged table accepts exactly keys of up to 254 bytes, with every offset |
| DbzFormats.DefaultAccepts | bbssrc/util/innbbsd/dbz.c:1058-1068 | a table with the default tags accepts such keys exactly when bit 31 of the offset is clear |
| DbzFormats.FetchCut | bbssrc/util/innbbsd/dbz.c:886-906 | only the first 255 bytes of a fetched key count |
| DbzFormats.ConfirmLaw | bbssrc/util/innbbsd/dbz.c:943-970 | what confirms a key, in bytes: its text, and for a NUL-terminated one the separator or a NUL behind it |
| DbzFormats.CrcLaw | bbssrc/util/innbbsd/dbz.c:1618-1636 | each table entry, by the bits of its index and the seven shifted polynomials |
| DbzFormats.HashLaw | bbssrc/util/innbbsd/dbz.c:1638-1670 | the hash of the empty key, and of a key with one more byte |
| DbzFormats.CaseLaw | bbssrc/util/innbbsd/dbz.c:1738-1808 | the three case maps on keys and on "<local@domain>", letter by letter |
| DbzFormats.FirstLineLaw | bbssrc/util/innbbsd/dbz.c:1255-1264 | the first line of the .dir file, field by field |
| DbzFormats.UsedLaw | bbssrc/util/innbbsd/dbz.c:1265-1266 | its second line, count by count |
| DbzFormats.EmptyLaw | bbssrc/util/innbbsd/dbz.c:1138-1160 | what an empty .dir file means, in numbers |
| Decimals.DecimalLaw | bbssrc/util/innbbsd/dbz.c:1255-1266 | how numbers are printed, digit by digit |
| TableSize.HalvedRoot | bbssrc/util/innbbsd/dbz.c:523-526 | the halving loop ends between half the square root and the square root |
| TableSize.OddTrial | bbssrc/util/innbbsd/dbz.c:528-533 | the odd trial divisions decide primality |
| TableSize.IsPrime | bbssrc/util/innbbsd/dbz.c:508-534 | exact for x >= 2: prime and greater than 37; and it accepts 1 |
| TableSize.PrimeAbove | bbssrc/util/innbbsd/dbz.c:497-498 | there is a prime above every number, so the search for a size ends |
| TableSize.NextGood | bbssrc/util/innbbsd/dbz.c:497-498 | the loop stops at the first acceptable size |
| TableSize.DbzSize | bbssrc/util/innbbsd/dbz.c:484-502 | for two entries or more, the first prime above 37 from 3 * (contents / 2) up; 1 for one entry; the default for none |
| History.LineAt | bbssrc/util/innbbsd/his.c:436-439 | a line stands in the log where the text of the earlier ones ends |
| History.ScanLines | bbssrc/util/innbbsd/his.c:311-332 | scanning the log's text and scanning its lines agree |
| History.LogScanLaw | bbssrc/util/innbbsd/his.c:311-332 | how the log is read, by its tabs and line feeds |
| History.IndexScan | bbssrc/util/innbbsd/his.c:436-450 | the oldest index entry of a message-ID is the start of its first line |
| History.OlderOffsets | bbssrc/util/innbbsd/his.c:436-450 | in a log that only grows no short read can hide a message-ID |
| History.LogTells | bbssrc/util/innbbsd/his.c:436-450 | the log tells a message-ID from all indexed ones that do not extend it |
| History.FetchLine | bbssrc/util/innbbsd/his.c:293-298 | the index finds exactly the start of the first line of a message-ID |
| History.FetchLongKey | bbssrc/util/innbbsd/his.c:293-298 | a key too long for the index is never found |
| History.Files.FetchOffset | bbssrc/util/innbbsd/his.c:293-310 | every offset fetched is the start of a line; for an indexable key it is its first |
| History.Files.ReadLine | bbssrc/util/innbbsd/his.c:311-332 | reading at a line's start gives what follows its first tab |
| History.Files.HisFilesFor | bbssrc/util/innbbsd/his.c:282-338 | what the first line of the message-ID says, or none |
| History.Files.Append | bbssrc/util/innbbsd/his.c:435-459 | log and index grow together; a line too long to be indexed stays an orphan |
| History.Files.HisWrite | bbssrc/util/innbbsd/his.c:425-460 | the log grows by the key, a tab, the date in decimal, a tab, the paths and a line feed; keys below 255 bytes are indexed |
| History.Files.MyHisWrite | bbssrc/util/innbbsd/his.c:383-419 | appends a line unless its message-ID is indexed |
| History.Files.DbFetch | bbssrc/util/innbbsd/dbztool.c:15-32 | exactly what follows the first tab in the first log line whose first field is the message-ID |
| History.Files.DbStore | bbssrc/util/innbbsd/dbztool.c:33-51 | the same line for the first 510 bytes of the message-ID, and whether it was indexed |
| History.Files.StoreDb | bbssrc/util/innbbsd/dbztool.c:53-66 | a known message-ID changes neither log nor index; any other adds one line |
| HistoryMaint.FirstOnlyKeeps | bbssrc/util/innbbsd/his.c:391-394 | dropping repeats keeps every message-ID with its first line |
| HistoryMaint.RebuiltNext | bbssrc/util/innbbsd/his.c:138-153 | one turn of the rebuild extends the result for the lines so far |
| HistoryMaint.FirstOnlyOfDistinct | bbssrc/util/innbbsd/his.c:391-394 | without repeats nothing but expired lines is dropped |
| HistoryMaint.FirstLineExpired | bbssrc/util/innbbsd/his.c:120-149 | the first line, which the rebuild passes over, is itself expired whenever it triggers one |
| HistoryMaint.MakeHistory | bbssrc/util/innbbsd/his.c:29-37 | an empty history over a fresh untagged index without case mapping, whose size is the first acceptable one from 150000 up |
| HistoryMaint.CopyLine | bbssrc/util/innbbsd/his.c:138-152 | one line is copied, dropped as expired or dropped as known |
| HistoryMaint.CopyLines | bbssrc/util/innbbsd/his.c:138-153 | the loop leaves exactly the first unexpired line of each message-ID, in order |
| HistoryMaint.Rebuild | bbssrc/util/innbbsd/his.c:130-159 | the new log and index, closed and opened again |
| HistoryMaint.LookAtFirst | bbssrc/util/innbbsd/his.c:120-126 | when a rebuild is due, and where reading goes on |
| HistoryMaint.HisMaint | bbssrc/util/innbbsd/his.c:106-163 | the new log is exactly the unexpired lines, one per message-ID, and the index agrees with it; or nothing changes |
| HistoryDates.MaintByDates | bbssrc/util/innbbsd/his.c:120-153 | with printed dates: the log changes if and only if the first date plus 172800 seconds a day has passed, and then exactly the lines stay whose date plus 99600 seconds a day has not |
| HistoryDates.SurvivorScan | bbssrc/util/innbbsd/his.c:138-153 | a message-ID is among those lines if and only if its own date qualifies |
| HistoryDates.FetchAfterMaint | bbssrc/util/innbbsd/his.c:120-153 | what a fetch answers after maintenance: the date and paths stored, if and only if by those numbers the log was not due or the line had not expired |
| HistoryRuns.StaysDistinct | bbssrc/util/innbbsd/dbztool.c:53-66 | stores and rebuilds never leave two lines for one indexed message-ID |
| HistoryRuns.MaintKeepsUnexpired | bbssrc/util/innbbsd/his.c:138-153 | after a rebuild a message-ID is found, with the same paths, if and only if its line had not expired |
| HistoryRuns.Step | bbssrc/util/innbbsd/dbztool.c:15-66 | every operation on an open history answers as its list of lines does |
| HistoryRuns.Run | bbssrc/util/innbbsd/dbztool.c:15-66 | every run of stores, look-ups and rebuilds from an empty history answers as the list of log lines does |
| Wildmat.MatchClass | bbssrc/util/innbbsd/wildmat.c:89-105 | the class loop decides membership in the class as read, and stops at its closing bracket |
| Wildmat.DoMatch | bbssrc/util/innbbsd/wildmat.c:55-114 | TRUE if and only if the rest of the pattern stands for the rest of the text; ABORT only if it stands for no suffix of it; activations are bounded by the text |
| Wildmat.StarLoop | bbssrc/util/innbbsd/wildmat.c:78-88 | an activation in the star loop returns TRUE or ABORT only |
| Wildmat.StarNone | bbssrc/util/innbbsd/wildmat.c:78-88 | a pattern matches no suffix with a star before it if and only if it does not without |
| Wildmat.WildMatch | bbssrc/util/innbbsd/wildmat.c:116-130 | equals the declarative meaning of the pattern, with at most one activation more than the text has characters |
| Wildmat.EmptyLaw | bbssrc/util/innbbsd/wildmat.c:63-113 | the empty pattern matches the empty text only |
| Wildmat.StarLaw | bbssrc/util/innbbsd/wildmat.c:78-88 | "*" before a pattern matches if and only if the pattern matches some suffix |
| Wildmat.QuestionLaw | bbssrc/util/innbbsd/wildmat.c:75-77 | "?" takes exactly one character, whichever it is |
| Wildmat.BackslashLaw | bbssrc/util/innbbsd/wildmat.c:67-74 | a backslash makes the next character stand for itself; at the end of a pattern it matches nothing |
| Wildmat.PlainLaw | bbssrc/util/innbbsd/wildmat.c:71-74 | any other character but "[" stands for itself |
| Wildmat.ClassLaw | bbssrc/util/innbbsd/wildmat.c:89-105 | "[...]" takes one character that is among the written characters and ranges, or with "^" is not; a leading "]" or "-" stands for itself |
| Mmencode.Encoder.constructor | bbssrc/util/express/mmencode.c:72-77 | an encoder at the start of its input |
| Mmencode.Encoder.NextCharIn | bbssrc/util/express/mmencode.c:53-70 | gives the input with newlines made canonical, one character at a time |
| Mmencode.Encoder.To64 | bbssrc/util/express/mmencode.c:72-98 | writes the base64 of the canonical input in lines of 72 characters, whatever state an earlier run left |
| Mmencode.LinesAreShort | bbssrc/util/express/mmencode.c:90-96 | no line exceeds 72 characters (section 6.8 of RFC 2045 allows 76) |
| Mmencode.EncodedText | bbssrc/util/express/mmencode.c:72-115 | every three bytes are a 24-bit number written as four digits in the 64-letter alphabet, padded with "="; a line feed after every 72 characters and at the end |
| Mmencode.PortableLaw | bbssrc/util/express/mmencode.c:53-70 | with portable newlines every byte 10, and nothing else, becomes 13, 10 |
| Mmencode.Decoder.AlmostPutc | bbssrc/util/express/mmencode.c:141-161 | keeps what has been written a function of the characters handed over |
| Mmencode.Decoder.GetNonSpace | bbssrc/util/express/mmencode.c:199-207 | the next character that is not white space |
| Mmencode.Decoder.GetThree | bbssrc/util/express/mmencode.c:199-208 | completes a group, or meets the end of the file |
| Mmencode.Decoder.PutGroup | bbssrc/util/express/mmencode.c:212-230 | hands over the characters of one group and tells whether it was the last |
| Mmencode.Decoder.From64 | bbssrc/util/express/mmencode.c:163-233 | the output depends only on the characters that are not white space; a stray carriage return is reported exactly when one is pending and the text does not end inside a group |
| Mmencode.GroupLaw | bbssrc/util/express/mmencode.c:212-230 | four letters stand for the three bytes of the number whose digits are their places in the alphabet; with "=" at the end, for the first two or one |
| Mmencode.OutsideLaw | bbssrc/util/express/mmencode.c:37-48 | every character outside the alphabet counts as -1 |
| Mmencode.DecodesBase64 | bbssrc/util/express/mmencode.c:163-233 | text that is base64 but for white space decodes to the bytes it was made of |
| Mmencode.ChunkBack | bbssrc/util/express/mmencode.c:100-115 | a chunk decodes to the bytes it was made of, and is padded exactly at the end |
| Mmencode.GroupsOfEncoded | bbssrc/util/express/mmencode.c:72-115 | the groups of an encoded stream are its bytes |
| Mmencode.RoundTrip | bbssrc/util/express/mmencode.c:72-233 | decoding an encoded stream gives it back, for all streams |
| Mmencode.PortableRoundTrip | bbssrc/util/express/mmencode.c:141-233 | with portable newlines, if and only if runs of carriage returns before a newline or the end are even; so for all streams without any |
| Mmencode.StripInserted | bbssrc/util/express/mmencode.c:175-207 | white space inserted anywhere changes nothing |
| Mmencode.StripSpaced | bbssrc/util/express/mmencode.c:175-207 | white space inserted at any number of places changes nothing |
| Mmencode.DecodeText | bbssrc/util/express/mmencode.c:163-233 | decoding any text that is an encoded stream but for white space |
| Mmencode.EncodeDecode | bbssrc/util/express/mmencode.c:72-233 | the encoder and decoder together, with white space inserted anywhere between them |
| Jis.Sjis2Jis | bbssrc/util/innbbsd/convert/jis/jis.c:351-361 | the arithmetic gives the row and cell of a Shift-JIS character |
| Jis.Jis2Sjis | bbssrc/util/innbbsd/convert/jis/jis.c:363-372 | of a 7-bit pair it makes the Shift-JIS character whose code that is, never with trail byte 127; any other bytes, also at the end of the file, are placed by the same rows and cells |
| Jis.ThereAndBack | bbssrc/util/innbbsd/convert/jis/jis.c:351-372 | every Shift-JIS pair comes back, with trail byte 127 as 128 |
| Jis.BackAndThere | bbssrc/util/innbbsd/convert/jis/jis.c:351-372 | every pair of printing 7-bit bytes is the code of exactly one Shift-JIS pair |
| Jis.Converter.SkipEscSeq | bbssrc/util/innbbsd/convert/jis/jis.c:311-319 | how much of an escape sequence is skipped, and the state it selects |
| Jis.Converter.SevenStep | bbssrc/util/innbbsd/convert/jis/jis.c:387-430 | one turn of the loop of `shift2seven` |
| Jis.Converter.Shift2Seven | bbssrc/util/innbbsd/convert/jis/jis.c:382-433 | the 7-bit text of a stream, ending in the unshifted state |
| JisText.SevenText | bbssrc/util/innbbsd/convert/jis/jis.c:321-433 | a strict reader, given 27 36 66 and 27 40 74 for New-JIS, 27 36 64 and 27 40 74 for Old-JIS, 27 75 and 27 72 for NEC and no other escapes, takes the whole text and gives what survives of the stream |
| JisText.WriteSeven | bbssrc/util/innbbsd/convert/jis/jis.c:382-433 | the converter itself, by that reader |
| JisText.CodeOrder | bbssrc/util/innbbsd/convert/jis/jis.c:351-372 | the code keeps the order of characters, which with being one to one makes it the only one |
| JisText.BrokenPairLaw | bbssrc/util/innbbsd/convert/jis/jis.c:401-411 | a lead byte without a trail byte passes as it is, with the next byte or 255 behind it |
| Jis.Converter.EucStep | bbssrc/util/innbbsd/convert/jis/jis.c:440-476 | one turn of the switch of `shift2euc` |
| Jis.Converter.Print | bbssrc/util/innbbsd/convert/jis/jis.c:439 | the stray byte goes to the output file if that is the standard output, and beside it otherwise |
| Jis.Converter.Shift2Euc | bbssrc/util/innbbsd/convert/jis/jis.c:435-477 | the EUC text of a stream, and what is printed to the standard output besides or in between |
| Jis.Converter.UnsevenStep | bbssrc/util/innbbsd/convert/jis/jis.c:581-599 | one turn of the loop of `seven2shift` |
| Jis.Converter.Seven2Shift | bbssrc/util/innbbsd/convert/jis/jis.c:576-600 | the Shift-JIS text of a 7-bit stream |
| JisText.EscapeLaw | bbssrc/util/innbbsd/convert/jis/jis.c:311-319 | which escape sequences start and end kanji for the reader, in bytes |
| Jis.Converter.UneucStep | bbssrc/util/innbbsd/convert/jis/jis.c:539-573 | one turn of the loop of `euc2shift` |
| Jis.Converter.Euc2Shift | bbssrc/util/innbbsd/convert/jis/jis.c:535-574 | the Shift-JIS text of an EUC stream |
| Jis.SkipReach | bbssrc/util/innbbsd/convert/jis/jis.c:311-349 | the escape sequences of all three codes bring the reader to the state the writer chose |
| Jis.SevenBack | bbssrc/util/innbbsd/convert/jis/jis.c:382-433 | through 7-bit JIS and back, from any state, a well-formed stream loses only NUL and form feed, the kind of its line ends and the width of its katakana |
| Jis.EucBack | bbssrc/util/innbbsd/convert/jis/jis.c:435-574 | through EUC and back likewise, and half-width katakana is kept unless widened |
| JisText.EucReads | bbssrc/util/innbbsd/convert/jis/jis.c:435-477 | a strict reader of EUC, in plain byte ranges, takes the whole text and gives what survives of the stream |
| JisText.CleanedLaw | bbssrc/util/innbbsd/convert/jis/jis.c:382-477 | what survives, byte by byte: 0 and 12 vanish, 13 becomes 10, trail 127 becomes 128, the rest stays |
| Jis.CleanedIsSame | bbssrc/util/innbbsd/convert/jis/jis.c:382-477 | a stream comes back unchanged if and only if it has no NUL, form feed, carriage return, trail byte 127 or widened katakana |
| Jis.ThroughSeven | bbssrc/util/innbbsd/convert/jis/jis.c:382-600 | the two converters together, for the three pairs of escape sequences |
| Jis.UneucKeepsWeight | bbssrc/util/innbbsd/convert/jis/jis.c:535-574 | reading EUC loses no more than one byte for each byte 142, form feeds aside |
| Jis.MixedWeight | bbssrc/util/innbbsd/convert/jis/jis.c:435-477 | with the strays in between, the text of any stream but a quiet one outgrows that loss |
| Jis.MixedIsSame | bbssrc/util/innbbsd/convert/jis/jis.c:435-574 | through the standard output a well-formed stream comes back unchanged if and only if it is all NUL |
| Jis.ThroughEuc | bbssrc/util/innbbsd/convert/jis/jis.c:435-574 | the two converters together, with katakana kept or widened, and with the output in a file or on the standard output |
| HzStream.ConvertJoin | bbssrc/util/innbbsd/convert/hztty/io.c:176-194 | one pass may be interrupted anywhere if the byte held back is put down again |
| HzStream.ChunksAreOnePass | bbssrc/util/innbbsd/convert/hztty/io.c:168-196 | however a stream is cut, the outputs put together and the byte held back are those of one pass, so a split character is converted once |
| HzStream.ConvertLaw | bbssrc/util/innbbsd/convert/hztty/io.c:184-194 | bytes below 128 pass, two bytes from 128 on are a character, and one alone at the end is held back |
| HzStream.GbTable | bbssrc/util/innbbsd/convert/hztty/b2g.c:25-34 | the GB characters converted are exactly the 7614 entries of the table, one each |
| HzStream.BigTable | bbssrc/util/innbbsd/convert/hztty/b2g.c:44-58 | the Big5 characters converted are exactly the 13524 entries of the table, one each |
| HzStream.TableOrder | bbssrc/util/innbbsd/convert/hztty/b2g.c:25-58 | the entries of both tables are in the order of the characters |
| HzStream.EntryLaw | bbssrc/util/innbbsd/convert/hztty/b2g.c:20-60 | an entry is two bytes, the first one first; characters without one become 161 188 or 161 245 |
| HzStream.Stream.G2b | bbssrc/util/innbbsd/convert/hztty/b2g.c:20-37 | overwrites two bytes with their entry or the bad-character code, and nothing else |
| HzStream.Stream.B2g | bbssrc/util/innbbsd/convert/hztty/b2g.c:39-60 | likewise for Big5 |
| HzStream.Stream.Dbcvrt | bbssrc/util/innbbsd/convert/hztty/b2g.c:87-101 | the conversion function of a module |
| HzStream.Stream.HzConvert | bbssrc/util/innbbsd/convert/hztty/io.c:168-196 | converts a chunk in place behind the byte held back, which may move it down by one, and holds back an odd last byte in its own cell only |
| HzStream.Stream.ConvertLoop | bbssrc/util/innbbsd/convert/hztty/io.c:183-194 | the loop, over a buffer of which the front is done |
| HzStream.Stream.constructor | bbssrc/util/innbbsd/convert/hztty/b2g.c:69-85 | every module gets a cell of its own, empty |
| HzStream.Stream.RunStage | bbssrc/util/innbbsd/convert/hztty/io.c:144-145 | one module turns what is new before it into what is new behind it |
| HzStream.Stream.StreamWrite | bbssrc/util/innbbsd/convert/hztty/io.c:134-147 | everything written so far is one pass of every module over everything received |
| HzStream.PipeLaw | bbssrc/util/innbbsd/convert/hztty/io.c:144-145 | the modules work one after the other, the first one first |
| HzStream.ModuleLaw | bbssrc/util/innbbsd/convert/hztty/b2g.c:87-101 | each module uses its own table |
| HzStream.Stream.CopyStream | bbssrc/util/innbbsd/convert/hztty/main.c:203-208 | what comes out of a whole pipeline does not depend on how the input arrives |
| Thread.AddTitle | bbssrc/src/thread.c:61-69 | a title goes to the end of the list |
| Thread.AppendNode | bbssrc/src/thread.c:79-88 | a post goes to the end of its list |
| Thread.AppendPost | bbssrc/src/thread.c:70-88 | likewise, also for the first post of a title |
| Thread.Board.EnsureTitle | bbssrc/src/thread.c:61-69 | after it the next title node exists; only at the end is one added |
| Thread.Board.AddPost | bbssrc/src/thread.c:70-88 | one thread grows by one post, the others stay |
| Thread.Board.Thread | bbssrc/src/thread.c:48-93 | the groups of record numbers after a post; the lists stay acyclic and share no node |
| Thread.VisitPosts | bbssrc/src/thread.c:106-111 | the records of one thread, in order |
| Thread.Board.VisitAll | bbssrc/src/thread.c:95-115 | the records of all threads, in order |
| Thread.OrderIsPermutation | bbssrc/src/thread.c:48-115 | every record number is written exactly once |
| Thread.ThreadOrder | bbssrc/src/thread.c:48-115 | threads come in the order of their first posts, and posts of a thread in their original order |
| Thread.ThreadsContiguous | bbssrc/src/thread.c:95-115 | nothing comes between two posts of a thread |
| Thread.ThreadedSame | bbssrc/src/thread.c:95-115 | the output holds the same records as the input, each as often |
| Thread.PlacesArranged | bbssrc/src/thread.c:48-115 | by titles alone: posts titled t and "Re:", one character and t keep their order, and of two subjects the one posted first comes first, whole |
| Thread.RepliesFollow | bbssrc/src/thread.c:56-91 | between two posts on a subject stand only posts on it, in their original order |
| Thread.PlainThreads | bbssrc/src/thread.c:56-59 | two titles that do not begin with "Re:" share a thread if and only if they are equal, and the replies to one are with it |
| Thread.ThreadBoard | bbssrc/src/thread.c:146-154 | the program: the output is all records in such an arrangement, none lost or doubled |

## Left out

- Input and output errors and the `aborted` state, `olddbz` mode, memory mapping, `dbzcancel` and file locking: the success path only.
- Byte order maps: on one machine `MAPIN` and `MAPOUT` change nothing, and `bytesame` is taken as true.
- The stdio buffers of the index file: a read after a write sees it.
- Dbz.Database.constructor: starts from a configuration in hand; `DbzFiles.DbmInit` reads it from the `.dir` file.
- Dbz.Database.Fetch: an empty key is not covered, because the code reads before its buffer then.
- Dbz.Database: hashing and case mapping are the functions that `DbzHash` and `DbzCase` prove equal to the table-driven loops; the calls themselves are not repeated.
- DbzHash.Hash: the table is not claimed to be that of a bit-serial CRC.
- DbzConf.GetConf: after a malformed number the code goes on reading before it fails; the model fails at once, with the same answer. What follows in the old format is not modelled.
- TableSize.DbzSize: overflow of a `long` near its end is not modelled.
- History.Files.ReadLine: lines must fit in one block of `LEN` - 1 bytes, because the read loop never advances; message-IDs and paths hold no tab or newline.
- HistoryMaint.HisMaint: the new files do not exist beforehand, lines without a tab do not occur, and an empty history, whose buffer is read uninitialised, is not covered.
- The arithmetic of dates is unbounded.
- Wildmat.WildMatch: patterns with an unclosed class, for which the code reads past the end of the pattern, are not covered.
- Mmencode.Decoder.From64: boundary lines are not modelled, as `mm` passes none. A stray carriage return is reported to the caller and is not part of the output file.
- The tables of `han2zen`: any function to a Shift-JIS pair that takes at most one sound mark with it. `DetectCodeType` and the converters between equal codes are not modelled.
- DbzRuns.Run: what later fetches make of a file that has lost pairs is not modelled; a run ends before it restarts from one.
- Jis.ThroughSeven: streams with lead bytes not followed by trail bytes, and 7-bit streams with bare escape characters, are not covered; for EUC the bytes 240 to 254 are not either.
- The contents of the two-byte tables. `hz2gb`, `gb2hz` and `io_log` as modules of a stream, and `stream_read`, which does the same as `stream_write` the other way.
- Thread.Board.Thread: a title "Re:" of three characters, whose subject would begin behind its end, is not covered.
- Sockets, processes, signals, NNTP replies, logging, the user interface and the mail daemons.
- `commandparse` and `channelreader`: their framing depends on where reads end.
- `record.c`: simple filtering and file calls, apart from `delete_file`, whose fallback branch removes a different record than the direct one.
