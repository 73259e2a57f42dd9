/** Closing and opening a database through its two files (dbz.c): the .pag file with the
    slots, and the .dir file with the configuration and the usage counts. */
module DbzFiles {
  import opened Bits
  import opened Bytes
  import opened DbzTag
  import opened DbzConf
  import opened DbzTable
  import opened Dbz

  /** What dbminit takes from a configuration. */
  function ConfOf(c: Config): Conf
    requires c.tsize >= 0 && 0 <= c.fieldsep < 256 && c.tagshift >= 0
  {
    Conf(c.tsize, c.fieldsep as Byte, c.casemap, Shifted(TagConf(c.tagenb, c.tagmask, c.tagshift)))
  }

  ghost predicate Usable(c: Config) {
    c.Valid() && c.tsize >= 1 && 0 <= c.fieldsep < 256 && c.tagshift >= 0 && ConfOf(c).Valid()
  }

  /** The .dir file of an open database: it holds the configuration the database was opened
      with, which is out of date at most in the count of entries. */
  ghost predicate Filed(db: Database, config: Config, dirf: CFile)
    reads db, dirf
  {
    && dirf.Valid() && Usable(config) && db.conf == ConfOf(config)
    && ParseConf(dirf.data) == Some(config)
    && (db.written || db.used == config.used[0])
  }

  /** dbminit: the configuration comes from the .dir file. */
  method DbmInit(dirf: CFile, pag: seq<int>, basef: TextFile, incore: bool, writethrough: bool,
                 ghost c: Config, ghost es: seq<Entry>, ghost ds: seq<nat>)
    returns (db: Database, config: Config)
    requires dirf.Valid() && dirf.pos == 0 && ParseConf(dirf.data) == Some(c)
    requires Usable(c) && Represents(pag, ConfOf(c), es, ds)
    modifies dirf`pos
    ensures fresh(db) && (db.corepag != null ==> fresh(db.corepag)) && (db.corepag != null <==> incore)
    ensures db.Valid() && db.entries == es && db.FileCurrent() && db.basef == basef && db.writethrough == writethrough
    ensures forall p: nat :: At(db.Slots(), p) == At(pag, p)
    ensures config == c && Filed(db, config, dirf) && db.used == c.used[0] && !db.written
    ensures db.conf.tsize == c.tsize && db.conf.fieldsep as int == c.fieldsep && db.conf.casemap == c.casemap
    ensures db.conf.tags == Tags(ShiftLeft(c.tagmask, c.tagshift), ShiftLeft(c.tagenb, c.tagshift), c.tagshift)
  {
    hide ParseConf, Represents;
    assert dirf.data[0..] == dirf.data;
    var r, olddbz := GetConf(dirf, null);
    config := r.value;
    db := new Database(ConfOf(config), basef, config.used[0], pag, incore, writethrough, es, ds);
  }

  /** dbmclose and dbminit: the pairs, the configuration and the count of entries come back
      through the files. */
  method Restart(db: Database, config: Config, dirf: CFile, incore: bool, writethrough: bool)
    returns (again: Database, config': Config)
    requires db.Valid() && Filed(db, config, dirf) && LONG_MIN <= db.used <= LONG_MAX
    requires db.corepag == null || (db.written && !db.writethrough) || db.FileCurrent()
    modifies db`pag, dirf
    ensures fresh(again) && (again.corepag != null ==> fresh(again.corepag)) && (again.corepag != null <==> incore)
    ensures again.Valid() && again.entries == old(db.entries) && again.FileCurrent()
    ensures again.basef == db.basef && again.writethrough == writethrough
    ensures forall p: nat :: At(again.Slots(), p) == old(At(db.Slots(), p))
    ensures config' == config.(used := config.used[0 := db.used]) && Filed(again, config', dirf)
    ensures again.conf == db.conf && again.used == db.used
  {
    hide ParseConf, ConfText, Represents, LagsBehind;
    ghost var es, ds, slots := db.entries, db.depths, db.Slots();
    var file := db.Close();
    assert db.corepag == null || (db.written && !db.writethrough) || old(db.FileCurrent());
    SameSlots(slots, file, db.conf, es, ds);
    var latest := config.(used := config.used[0 := db.used]);
    if db.written {
      ConfRoundTrip(latest, Beyond(dirf.data, |ConfText(latest, [])|));
      PutConf(dirf, latest);
    } else {
      assert config.used[0 := db.used] == config.used;
      assert latest == config;
    }
    dirf.pos := 0;
    again, config' := DbmInit(dirf, file, db.basef, incore, writethrough, latest, es, ds);
  }
}
