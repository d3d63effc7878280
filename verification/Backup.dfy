/** Copying a record database off a handheld and onto another: the record loops of `pi_file_retrieve` and
  `pi_file_install` of libpisock/pi-file.c. */
module Backup {
  import opened Bytes
  import opened Common
  import opened PdbFormat
  import opened PdbRoundTrip
  import opened PdbHistory
  import opened PiFile
  import opened DlpDevice

  const ABORTED := -402      // PI_ERR_FILE_ABORTED
  const DATA_SIZE := -304    // PI_ERR_DLP_DATASIZE
  const DLP_BUF_SIZE := 0xffff

  // ---- reading a database off the handheld -----------------------------------------------------------------------

  /** A record that a handheld would take back. */
  predicate Survives(r: DbRecord) { !Bit(r.attrs, ATTR_ARCHIVED) && !Bit(r.attrs, ATTR_DELETED) }

  function ItemFor(r: DbRecord, max: nat): Item {
    Record(r.bytes[..Min(|r.bytes|, max)], Attributes(r.attrs, r.category), r.uid)
  }

  /** The items a backup of these records consists of. */
  function Saved(records: seq<DbRecord>, max: nat): seq<Item> {
    if records == [] then []
    else
      var r := records[|records| - 1];
      Saved(records[..|records| - 1], max) + if Survives(r) then [ItemFor(r, max)] else []
  }

  lemma SavedStep(records: seq<DbRecord>, max: nat, j: nat)
    requires j < |records|
    ensures Saved(records[..j + 1], max)
         == Saved(records[..j], max) + (if Survives(records[j]) then [ItemFor(records[j], max)] else [])
    ensures Saved(records[..|records|], max) == Saved(records, max)
  {
    assert records[..j + 1][..j] == records[..j];
    assert records[..|records|] == records;
  }

  lemma {:induction false} SavedFrom(records: seq<DbRecord>, max: nat, i: nat)
    requires i < |Saved(records, max)|
    ensures exists k :: 0 <= k < |records| && Survives(records[k]) && Saved(records, max)[i] == ItemFor(records[k], max)
  {
    var front := records[..|records| - 1];
    if i < |Saved(front, max)| {
      SavedFrom(front, max, i);
      var k :| 0 <= k < |front| && Survives(front[k]) && Saved(front, max)[i] == ItemFor(front[k], max);
      assert records[k] == front[k];
    } else {
      assert records[|records| - 1] == records[|records| - 1];
    }
  }

  /** No record read so far has the uid of a later one. */
  lemma SavedUidIsNew(records: seq<DbRecord>, max: nat, j: nat)
    requires j < |records| && Distinct(records)
    ensures !IdUsed(Saved(records[..j], max), records[j].uid)
  {
    var items := Saved(records[..j], max);
    forall i | 0 <= i < |items| ensures items[i].Record? && items[i].uid != records[j].uid {
      SavedFrom(records[..j], max, i);
    }
  }

  /** One turn of the record loop of `pi_file_retrieve`. */
  method RetrieveRecord(source: Device, j: nat, w: Writer) returns (result: int)
    requires source.Valid() && w.Valid() && !ForResources(w.info) && j < |source.records|
    modifies w`entries, w`numEntries, w`items, w.entries, w.tmpbuf, w.tmpbuf.data
    ensures w.Valid() && w.tmpbuf == old(w.tmpbuf)
    ensures (w.entries == old(w.entries) || fresh(w.entries))
    ensures (w.tmpbuf.data == old(w.tmpbuf.data) || fresh(w.tmpbuf.data))
    ensures var r := source.records[j];
            && (result < 0 <==> Survives(r) && r.uid != 0 && IdUsed(old(w.items), r.uid))
            && (result >= 0 ==>
                 w.items == old(w.items) + if Survives(r) then [ItemFor(r, source.maxRecSize)] else [])
  {
    hide ForResources, Distinct, Attributes, IdUsed;
    assert w.items + [] == w.items;
    var r;
    result, r := source.ReadRecordByIndex(j, true);
    if Bit(r.attrs, ATTR_ARCHIVED) || Bit(r.attrs, ATTR_DELETED) {
      return;
    }
    result := w.AppendRecord(r.bytes, r.attrs, r.category, r.uid);
  }

  lemma SavedMore(before: seq<Item>, records: seq<DbRecord>, max: nat, j: nat)
    requires j < |records| && Distinct(records)
    ensures before + Saved(records[..j + 1], max)
         == before + Saved(records[..j], max) + (if Survives(records[j]) then [ItemFor(records[j], max)] else [])
    ensures before == [] ==> !IdUsed(before + Saved(records[..j], max), records[j].uid)
  {
    SavedStep(records, max, j);
    SavedUidIsNew(records, max, j);
    assert [] + Saved(records[..j], max) == Saved(records[..j], max);
  }

  /** `pi_file_retrieve` on a record database, from the application info block on. The block is empty when there is none
    or it is not to be read. `faults` holds the indices at which reading fails or the caller stops the transfer, and
    STOPPED when the caller stops it after the application info block. */
  method Retrieve(source: Device, appBlock: seq<byte>, w: Writer, faults: set<int>) returns (result: int)
    requires source.Valid() && w.Valid() && !ForResources(w.info)
    modifies w, w.entries, w.tmpbuf, w.tmpbuf.data
    ensures w.Valid() && (w.entries == old(w.entries) || fresh(w.entries))
    ensures result >= 0 ==>
              w.State() == old(w.State()).(items := old(w.items) + Saved(source.records, source.maxRecSize),
                                           appInfo := if appBlock == [] then old(w.appInfo) else appBlock)
    ensures old(w.items) == [] ==>
              (result >= 0 <==>
                && (appBlock == [] || STOPPED !in faults)
                && forall j :: 0 <= j < |source.records| ==> j !in faults)
  {
    hide ForResources, Distinct, WellFormed, IdUsed, Survives, ItemFor, Saved;
    ghost var before, records, max := w.items, source.records, source.maxRecSize;
    SavedNone(before, records, max);
    if |appBlock| > 0 {
      result := w.SetAppInfo(appBlock);
      if STOPPED in faults {
        return ABORTED;
      }
    }
    ghost var state := w.State();
    for j := 0 to |source.records|
      invariant w.Valid() && w.tmpbuf == old(w.tmpbuf)
      invariant w.entries == old(w.entries) || fresh(w.entries)
      invariant w.tmpbuf.data == old(w.tmpbuf.data) || fresh(w.tmpbuf.data)
      invariant w.State() == state.(items := before + Saved(records[..j], max))
      invariant forall k :: 0 <= k < j ==> k !in faults
    {
      if j in faults {
        return ABORTED;
      }
      SavedMore(before, records, max, j);
      result := RetrieveRecord(source, j, w);
      if result < 0 {
        return;
      }
    }
    result := 0;
  }

  lemma SavedNone(before: seq<Item>, records: seq<DbRecord>, max: nat)
    ensures before + Saved(records[..0], max) == before == [] + before
    ensures records[..|records|] == records
  {
  }

  // ---- the other handheld ----------------------------------------------------------------------------------------

  datatype Database = Database(appInfo: seq<byte>, records: seq<DbRecord>)

  /** The first record with that uid, or the number of records. */
  function PlaceOf(records: seq<DbRecord>, uid: nat): (k: nat)
    ensures k <= |records|
    ensures k < |records| ==> records[k].uid == uid
    ensures k == |records| <==> forall r <- records :: r.uid != uid
  {
    if records == [] then 0 else if records[0].uid == uid then 0 else 1 + PlaceOf(records[1..], uid)
  }

  /** How a handheld takes a record: one with uid 0 gets a uid, one with a uid in use replaces the record that has
    it. */
  function Written(records: seq<DbRecord>, r: DbRecord, newUid: seq<DbRecord> -> nat): seq<DbRecord> {
    if r.uid == 0 then records + [r.(uid := newUid(records))]
    else
      var k := PlaceOf(records, r.uid);
      if k == |records| then records + [r] else records[..k] + [r] + records[k + 1..]
  }

  /** Uids have 24 bits on a handheld. */
  ghost predicate GivesUids(newUid: seq<DbRecord> -> nat) {
    forall records :: 0 < newUid(records) < 0x100_0000
  }

  /** The handheld, as far as the database with the name in question goes. */
  class Handheld {
    const version: nat
    const newUid: seq<DbRecord> -> nat
    var database: Option<Database>

    constructor (version: nat, newUid: seq<DbRecord> -> nat)
      ensures this.version == version && this.newUid == newUid && database == None
    {
      this.version, this.newUid, database := version, newUid, None;
    }

    /** `dlp_DeleteDB`: a database that is open, say, cannot be deleted. */
    method DeleteDB(refused: bool) returns (result: int)
      modifies this
      ensures database == if refused then old(database) else None
      ensures result < 0 <==> refused || old(database) == None
    {
      if refused || database == None {
        return DEVICE_ERROR;
      }
      database := None;
      result := 0;
    }

    /** `dlp_CreateDB`, which fails where a database of that name exists. */
    method CreateDB(refused: bool) returns (result: int)
      modifies this
      ensures result < 0 <==> refused || old(database).Some?
      ensures database == if result < 0 then old(database) else Some(Database([], []))
    {
      if refused || database.Some? {
        return DEVICE_ERROR;
      }
      database := Some(Database([], []));
      result := 0;
    }

    /** `dlp_WriteAppBlock` */
    method WriteAppBlock(data: seq<byte>, refused: bool) returns (result: int)
      requires database.Some?
      modifies this
      ensures if refused then result < 0 && database == old(database)
              else result == 0 && database == Some(old(database).value.(appInfo := data))
    {
      if refused {
        return DEVICE_ERROR;
      }
      database := Some(database.value.(appInfo := data));
      result := 0;
    }

    /** `dlp_WriteRecord`: below DLP 1.4 the record and eight bytes more must fit the buffer. */
    method WriteRecord(r: DbRecord, refused: bool) returns (result: int)
      requires database.Some?
      modifies this
      ensures result >= 0 <==> Fits(|r.bytes|, version) && !refused
      ensures database == if result < 0 then old(database)
                          else Some(old(database).value.(records := Written(old(database).value.records, r, newUid)))
    {
      if version < 0x0104 && |r.bytes| + 8 > DLP_BUF_SIZE {
        return DATA_SIZE;
      }
      if refused {
        return DEVICE_ERROR;
      }
      var db := database.value;
      var k := if r.uid == 0 then |db.records| else PlaceOf(db.records, r.uid);
      if k == |db.records| {
        var uid := if r.uid == 0 then newUid(db.records) else r.uid;
        database := Some(db.(records := db.records + [r.(uid := uid)]));
      } else {
        database := Some(db.(records := db.records[..k] + [r] + db.records[k + 1..]));
      }
      result := 0;
    }
  }

  predicate Fits(size: nat, version: nat) { version >= 0x0104 || size + 8 <= DLP_BUF_SIZE }

  /** The size check that `pi_file_install` makes before it starts. */
  predicate LooksFitting(size: nat, version: nat) { version >= 0x0104 || size <= 65536 }

  // ---- writing a database to the handheld ------------------------------------------------------------------------

  /** The position of the file when the first `n` records have been read. */
  function PositionAt(entries: seq<Entry>, n: nat, pos: nat): nat
    requires n <= |entries| && forall e <- entries :: e.size >= 0
  {
    if n == 0 then pos else PositionAfter(PositionAt(entries, n - 1, pos), entries[n - 1])
  }

  function ReplyAt(file: seq<byte>, entries: seq<Entry>, j: nat, pos: nat): Reply
    requires j < |entries| && forall e <- entries :: e.size >= 0
  {
    ReplyFor(file, PositionAt(entries, j, pos), entries[j])
  }

  function RecordOf(reply: Reply): DbRecord
    requires reply.Reply?
  {
    DbRecord(reply.uid, reply.attrs % 256, reply.category % 256, reply.bytes)
  }

  /** A record that a handheld of the first version is not asked to take. */
  predicate Skipped(r: DbRecord, version: nat) {
    version < 0x0101 && (Bit(r.attrs, ATTR_ARCHIVED) || Bit(r.attrs, ATTR_DELETED))
  }

  /** One record of the file can be installed. */
  predicate Installable(reply: Reply, version: nat, fault: bool) {
    reply.Reply? && (Skipped(RecordOf(reply), version) || (Fits(|reply.bytes|, version) && !fault))
  }

  /** The records on the handheld when `n` records of the file have been dealt with. */
  function Installed(file: seq<byte>, entries: seq<Entry>, n: nat, pos: nat, version: nat, newUid: seq<DbRecord> -> nat)
    : seq<DbRecord>
    requires n <= |entries| && forall e <- entries :: e.size >= 0
  {
    if n == 0 then []
    else
      var before := Installed(file, entries, n - 1, pos, version, newUid);
      var reply := ReplyAt(file, entries, n - 1, pos);
      if reply.Error? || Skipped(RecordOf(reply), version) then before else Written(before, RecordOf(reply), newUid)
  }

  /** The block sent: that of the memo application is lengthened with zeros, except for a handheld of the first
    version. */
  function AppBlock(appInfo: seq<byte>, name: seq<byte>, version: nat): seq<byte> {
    if version > 0x0100 && |name| >= 7 && name[..7] == MEMO_DB && 0 < |appInfo| < 282
    then appInfo + seq(282 - |appInfo|, i => 0)
    else appInfo
  }

  const MEMO_DB: seq<byte> := [77, 101, 109, 111, 68, 66, 0]  // "MemoDB" and its terminator

  /** The first loop of `pi_file_install`: the records' sizes, before anything is sent. */
  method CheckSizes(r: Reader, version: nat) returns (result: int)
    requires r.Valid() && !r.resourceFlag
    ensures result >= 0 <==> forall j :: 0 <= j < r.numEntries ==> LooksFitting(r.entries[j].size, version)
  {
    for j := 0 to r.numEntries
      invariant forall k :: 0 <= k < j ==> LooksFitting(r.entries[k].size, version)
    {
      var size;
      result, size := r.RecordSize(j);
      if size > 65536 && version < 0x0104 {
        return FILE_ERROR;
      }
    }
    result := 0;
  }

  /** One turn of the record loop of `pi_file_install`. */
  method InstallRecord(r: Reader, j: nat, t: Handheld, fault: bool) returns (result: int)
    requires r.Valid() && !r.resourceFlag && j < r.numEntries && t.database.Some?
    modifies r`pos, t
    ensures r.Valid() && r.Contents() == old(r.Contents())
    ensures var reply := ReplyFor(r.file, old(r.pos), r.entries[j]);
            var db := old(t.database).value;
            && (result >= 0 <==> Installable(reply, t.version, fault)) && (result < 0 ==> t.database == Some(db))
            && (result >= 0 ==>
                  && r.pos == PositionAfter(old(r.pos), r.entries[j])
                  && t.database == Some(db.(records := if Skipped(RecordOf(reply), t.version) then db.records
                                                       else Written(db.records, RecordOf(reply), t.newUid))))
  {
    hide Written, Bit;
    var reply := r.ReadRecord(j);
    if reply.Error? {
      return reply.code;
    }
    if (Bit(reply.attrs, ATTR_ARCHIVED) || Bit(reply.attrs, ATTR_DELETED)) && t.version < 0x0101 {
      return 0;
    }
    result := t.WriteRecord(DbRecord(reply.uid, reply.attrs, reply.category, reply.bytes), fault);
  }

  /** The record loop of `pi_file_install`, on a database just created. */
  method InstallRecords(r: Reader, t: Handheld, faults: set<int>) returns (result: int)
    requires r.Valid() && !r.resourceFlag && t.database.Some? && t.database.value.records == []
    modifies r`pos, t
    ensures r.Valid() && r.Contents() == old(r.Contents()) && t.database.Some?
    ensures var entries := r.Contents().entries;
            && (result >= 0 <==> forall j :: 0 <= j < |entries| ==>
                  Installable(ReplyAt(r.file, entries, j, old(r.pos)), t.version, j in faults))
            && (result >= 0 ==> t.database == Some(old(t.database).value.(
                  records := Installed(r.file, entries, |entries|, old(r.pos), t.version, t.newUid))))
  {
    hide Written, Skipped, Installable, ForResources, ReplyFor, Installed, PositionAt, PositionAfter;
    ghost var o, pos, db := r.Contents(), r.pos, t.database.value;
    InstalledStep(r.file, o.entries, 0, pos, t.version, t.newUid);
    for j := 0 to r.numEntries
      invariant r.Valid() && r.Contents() == o && r.pos == PositionAt(o.entries, j, pos)
      invariant t.database == Some(db.(records := Installed(r.file, o.entries, j, pos, t.version, t.newUid)))
      invariant forall k :: 0 <= k < j ==> Installable(ReplyAt(r.file, o.entries, k, pos), t.version, k in faults)
    {
      assert r.entries[j] == o.entries[j];
      InstalledStep(r.file, o.entries, j, pos, t.version, t.newUid);
      result := InstallRecord(r, j, t, j in faults);
      if result < 0 {
        return;
      }
    }
    result := 0;
  }

  lemma InstalledStep(file: seq<byte>, entries: seq<Entry>, n: nat, pos: nat, version: nat,
                      newUid: seq<DbRecord> -> nat)
    requires n <= |entries| && forall e <- entries :: e.size >= 0
    ensures n == 0 ==> PositionAt(entries, 0, pos) == pos && Installed(file, entries, 0, pos, version, newUid) == []
    ensures n < |entries| ==>
              var before := Installed(file, entries, n, pos, version, newUid);
              var reply := ReplyAt(file, entries, n, pos);
              && reply == ReplyFor(file, PositionAt(entries, n, pos), entries[n])
              && PositionAt(entries, n + 1, pos) == PositionAfter(PositionAt(entries, n, pos), entries[n])
              && (!Installable(reply, version, false) ==> !Installable(reply, version, true))
              && (Installable(reply, version, false) ==>
                   Installed(file, entries, n + 1, pos, version, newUid)
                   == if Skipped(RecordOf(reply), version) then before else Written(before, RecordOf(reply), newUid))
  {
  }

  /** What can go wrong on the handheld's side, besides the indices at which a record is refused or the transfer
    stopped: the caller stops the transfer behind the application info block; that block is refused; creating the
    database is; deleting it is, at the end of a transfer that failed or before the transfer. */
  const STOPPED := -1
  const BLOCK_REFUSED := -2
  const CREATION_REFUSED := -3
  const REMOVAL_REFUSED := -4
  const CLEARING_REFUSED := -5

  /** The records pass the check of their sizes. */
  ghost predicate LooksInstallable(entries: seq<Entry>, version: nat)
    requires forall e <- entries :: e.size >= 0
  {
    forall j :: 0 <= j < |entries| ==> LooksFitting(entries[j].size, version)
  }

  /** Everything that decides whether a database can be installed, where one of that name `existed` or not. */
  ghost predicate Succeeds(file: seq<byte>, o: Opened, pos: nat, version: nat, existed: bool, faults: set<int>)
    requires forall e <- o.entries :: e.size >= 0
  {
    && LooksInstallable(o.entries, version)
    && (existed ==> CLEARING_REFUSED !in faults) && CREATION_REFUSED !in faults
    && (o.appInfo == [] || (BLOCK_REFUSED !in faults && STOPPED !in faults))
    && forall j :: 0 <= j < |o.entries| ==> Installable(ReplyAt(file, o.entries, j, pos), version, j in faults)
  }

  /** When installing fails, no database of that name is left exactly if: the sizes were refused, and one that
    existed could be removed; or it could be cleared away, and nothing was created, or what was created could be
    removed. */
  predicate NothingLeft(fits: bool, existed: bool, faults: set<int>) {
    if !fits then !existed || REMOVAL_REFUSED !in faults
    else !(existed && CLEARING_REFUSED in faults) && (CREATION_REFUSED in faults || REMOVAL_REFUSED !in faults)
  }

  /** `pi_file_install` on a record database. The results of deleting are ignored, so a database that cannot be
    deleted is noticed when creating fails. A failing call, even one that refuses the sizes before anything is sent,
    takes the database that was there with it unless the handheld refuses to delete it. */
  method Install(r: Reader, t: Handheld, faults: set<int>) returns (result: int)
    requires r.Valid() && !r.resourceFlag
    modifies r`pos, t
    ensures r.Valid() && r.Contents() == old(r.Contents())
    ensures result >= 0 <==>
              Succeeds(r.file, r.Contents(), old(r.pos), t.version, old(t.database).Some?, faults)
    ensures var fits, existed := LooksInstallable(r.Contents().entries, t.version), old(t.database).Some?;
            result < 0 ==>
              && (t.database == None <==> NothingLeft(fits, existed, faults))
              && (!fits || (existed && CLEARING_REFUSED in faults) ==> t.database in {None, old(t.database)})
    ensures result >= 0 ==>
              var o := r.Contents();
              t.database == Some(Database(AppBlock(o.appInfo, o.info.name, t.version),
                                   Installed(r.file, o.entries, |o.entries|, old(r.pos), t.version, t.newUid)))
  {
    hide Written, Installable, ForResources, ReplyAt, Installed, LooksFitting;
    result := CheckSizes(r, t.version);
    assert result >= 0 <==> LooksInstallable(r.Contents().entries, t.version);
    if result < 0 {
      var _ := t.DeleteDB(REMOVAL_REFUSED in faults);
      return;
    }
    var _ := t.DeleteDB(CLEARING_REFUSED in faults);
    result := t.CreateDB(CREATION_REFUSED in faults);
    if result < 0 {
      return;
    }
    result := Transfer(r, t, faults);
    if result < 0 {
      var _ := t.DeleteDB(REMOVAL_REFUSED in faults);
    }
  }

  /** The block and the records, sent to the database just created. */
  method Transfer(r: Reader, t: Handheld, faults: set<int>) returns (result: int)
    requires r.Valid() && !r.resourceFlag && t.database == Some(Database([], []))
    modifies r`pos, t
    ensures r.Valid() && r.Contents() == old(r.Contents()) && t.database.Some?
    ensures var o := r.Contents();
            && (result >= 0 <==>
                  && (o.appInfo == [] || (BLOCK_REFUSED !in faults && STOPPED !in faults))
                  && forall j :: 0 <= j < |o.entries| ==>
                       Installable(ReplyAt(r.file, o.entries, j, old(r.pos)), t.version, j in faults))
            && (result >= 0 ==>
                  t.database == Some(Database(AppBlock(o.appInfo, o.info.name, t.version),
                                     Installed(r.file, o.entries, |o.entries|, old(r.pos), t.version, t.newUid))))
  {
    hide Written, Installable, ForResources, ReplyAt, Installed, LooksFitting;
    var block := r.appInfo;
    if t.version > 0x0100 && |r.info.name| >= 7 && r.info.name[..7] == MEMO_DB && 0 < |block| < 282 {
      block := block + seq(282 - |block|, i => 0);
    }
    if |block| > 0 {
      result := t.WriteAppBlock(block, BLOCK_REFUSED in faults);
      if result < 0 {
        return;
      }
      if STOPPED in faults {
        return ABORTED;
      }
    }
    result := InstallRecords(r, t, faults);
  }

  /** The check of sizes leaves a gap: below DLP 1.4 it lets records of 65528 to 65536 bytes through that
    `dlp_WriteRecord` refuses, when the database that was there has been deleted. */
  lemma SizeCheckGap(size: nat, version: nat)
    ensures LooksFitting(size, version) && !Fits(size, version) <==> version < 0x0104 && 65528 <= size <= 65536
  {
  }

  // ---- what a restored backup holds ------------------------------------------------------------------------------

  /** A record as the file gives it back. */
  function Restorable(item: Item): DbRecord
    requires item.Record?
  {
    DbRecord(item.uid % 0x100_0000, item.attrs / 16 % 16 * 16, item.attrs % 16, item.bytes)
  }

  function Restored(items: seq<Item>, newUid: seq<DbRecord> -> nat): seq<DbRecord>
    requires forall item <- items :: item.Record?
  {
    if items == [] then []
    else Written(Restored(items[..|items| - 1], newUid), Restorable(items[|items| - 1]), newUid)
  }

  function Survivors(records: seq<DbRecord>): seq<DbRecord> {
    if records == [] then []
    else
      var r := records[|records| - 1];
      Survivors(records[..|records| - 1]) + if Survives(r) then [r] else []
  }

  /** A record that the file format has room for: its uid has 24 bits and is not zero, its attributes are in the
    upper and its category in the lower half of a byte, and it can be read in full. */
  predicate Plain(r: DbRecord, max: nat) {
    0 < r.uid < 0x100_0000 && r.attrs % 16 == 0 && r.category < 16 && |r.bytes| <= max
  }

  lemma PlainRestores(r: DbRecord, max: nat)
    ensures ItemFor(r, max).Record? && (Restorable(ItemFor(r, max)) == r && r.uid != 0 <==> Plain(r, max))
    ensures Restorable(ItemFor(r, max)).uid == r.uid % 0x100_0000
  {
    hide Attributes;
    var item := ItemFor(r, max);
    AttributesKept(r.attrs, r.category);
    UpperHalf(r.attrs);
    if |r.bytes| <= max {
      assert item.bytes == r.bytes;
    } else {
      assert |item.bytes| == max;
    }
  }

  lemma UpperHalf(attrs: byte)
    ensures attrs / 16 % 16 * 16 == attrs <==> attrs % 16 == 0
  {
  }

  lemma {:induction false} SavedAreRecords(records: seq<DbRecord>, max: nat)
    ensures forall item <- Saved(records, max) :: item.Record?
    ensures |Saved(records, max)| == |Survivors(records)|
  {
    if records != [] {
      SavedAreRecords(records[..|records| - 1], max);
    }
  }

  lemma {:induction false} SurvivorsFrom(records: seq<DbRecord>)
    ensures forall r <- Survivors(records) :: r in records
  {
    if records != [] {
      var front := records[..|records| - 1];
      SurvivorsFrom(front);
      assert records == front + [records[|records| - 1]];
    }
  }

  lemma {:induction false} NeverMore(items: seq<Item>, newUid: seq<DbRecord> -> nat)
    requires forall item <- items :: item.Record?
    ensures |Restored(items, newUid)| <= |items|
  {
    if items != [] {
      NeverMore(items[..|items| - 1], newUid);
    }
  }

  /** Writing makes the database longer only by appending. */
  lemma WrittenAtEnd(before: seq<DbRecord>, r: DbRecord, newUid: seq<DbRecord> -> nat, s: DbRecord,
                     front: seq<DbRecord>)
    requires GivesUids(newUid) && |before| <= |front| && r.uid < 0x100_0000
    ensures Written(before, r, newUid) == front + [s] ==>
              before == front && 0 < s.uid < 0x100_0000 && (r.uid != 0 ==> r == s)
                && (r.uid == 0 ==> s.uid % 0x100_0000 != 0)
    ensures before == front && r == s && r.uid != 0 && (forall b <- before :: b.uid != r.uid) ==>
              Written(before, r, newUid) == front + [s]
  {
    var after := Written(before, r, newUid);
    if after == front + [s] {
      assert |after| == |before| + 1;
      assert after[..|before|] == before && after[..|before|] == front;
      assert after[|before|] == s;
    }
  }

  /** A record database comes back exactly if and only if every record that survives is one the format has room for. */
  lemma {:induction false} RestoredExactly(records: seq<DbRecord>, max: nat, newUid: seq<DbRecord> -> nat)
    requires Distinct(records) && GivesUids(newUid)
    ensures forall item <- Saved(records, max) :: item.Record?
    ensures Restored(Saved(records, max), newUid) == Survivors(records)
       <==> forall r <- Survivors(records) :: Plain(r, max)
  {
    SavedAreRecords(records, max);
    if records != [] {
      hide Survives, ItemFor, Written, Plain, Restorable, Restored, GivesUids;
      var front, r := records[..|records| - 1], records[|records| - 1];
      SavedAreRecords(front, max);
      assert Distinct(front);
      RestoredExactly(front, max, newUid);
      var item, saved, kept := ItemFor(r, max), Saved(front, max), Survivors(front);
      if Survives(r) {
        SurvivorsFrom(front);
        assert forall s <- front :: s.uid != r.uid;
        PlainRestores(r, max);
        OneMoreRestored(saved, item, kept, r, max, newUid);
        assert Saved(records, max) == saved + [item] && Survivors(records) == kept + [r];
      } else {
        assert saved + [] == saved && kept + [] == kept;
      }
    }
  }

  lemma OneMoreRestored(saved: seq<Item>, item: Item, kept: seq<DbRecord>, r: DbRecord, max: nat,
                        newUid: seq<DbRecord> -> nat)
    requires GivesUids(newUid) && item.Record? && |saved| == |kept| && forall i <- saved :: i.Record?
    requires Restored(saved, newUid) == kept <==> forall k <- kept :: Plain(k, max)
    requires Restorable(item) == r && r.uid != 0 <==> Plain(r, max)
    requires Restorable(item).uid == r.uid % 0x100_0000 && forall k <- kept :: k.uid != r.uid
    ensures Restored(saved + [item], newUid) == kept + [r] <==> forall k <- kept + [r] :: Plain(k, max)
  {
    hide Written, Plain, Restorable, GivesUids;
    assert (saved + [item])[..|saved|] == saved;
    NeverMore(saved, newUid);
    WrittenAtEnd(Restored(saved, newUid), Restorable(item), newUid, r, kept);
    assert (forall k <- kept + [r] :: Plain(k, max)) <==> (forall k <- kept :: Plain(k, max)) && Plain(r, max) by {
      assert forall k :: k in kept + [r] <==> k in kept || k == r;
    }
  }

  /** What the record loop of `pi_file_install` makes of a file that holds these items: none is skipped, since no
    item with those attributes was saved. */
  lemma {:induction false} InstalledIsRestored(db: Db, n: nat, pos: nat, version: nat, newUid: seq<DbRecord> -> nat)
    requires Storable(db) && n <= |db.items|
    requires forall item <- db.items :: item.Record? && !Bit(item.attrs, ATTR_DELETED)
    ensures Open(Layout(db)).Some?
    ensures var entries := Open(Layout(db)).value.entries;
            && |entries| == |db.items| && (forall e <- entries :: e.size >= 0)
            && Installed(Layout(db), entries, n, pos, version, newUid) == Restored(db.items[..n], newUid)
            && forall j :: 0 <= j < n ==>
                 && ReplyAt(Layout(db), entries, j, pos).Reply?
                 && RecordOf(ReplyAt(Layout(db), entries, j, pos)) == Restorable(db.items[j])
                 && !Skipped(Restorable(db.items[j]), version)
  {
    hide Open, Layout, ReplyFor, Written, PositionAt, Bit, ReplyAt, Restorable, Skipped;
    EntriesReadBack(db);
    if n > 0 {
      InstalledIsRestored(db, n - 1, pos, version, newUid);
      ItemInstalls(db, n - 1, pos, version);
      assert db.items[..n][..n - 1] == db.items[..n - 1];
      InstalledStep(Layout(db), Open(Layout(db)).value.entries, n - 1, pos, version, newUid);
    }
  }

  lemma EntriesReadBack(db: Db)
    requires Storable(db)
    ensures Open(Layout(db)).Some?
    ensures var entries := Open(Layout(db)).value.entries;
            && entries == Entries(db.items, DataStart(db)) && |entries| == |db.items|
            && (forall e <- entries :: e.size >= 0)
  {
    hide Open, Layout, DataStart;
    WrittenReadsBack(db);
  }

  lemma ItemInstalls(db: Db, j: nat, pos: nat, version: nat)
    requires Storable(db) && j < |db.items|
    requires db.items[j].Record? && !Bit(db.items[j].attrs, ATTR_DELETED)
    requires Open(Layout(db)).Some?
    requires var entries := Open(Layout(db)).value.entries;
             |entries| == |db.items| && (forall e <- entries :: e.size >= 0)
    ensures var reply := ReplyAt(Layout(db), Open(Layout(db)).value.entries, j, pos);
            && reply.Reply? && RecordOf(reply) == Restorable(db.items[j]) && !Skipped(RecordOf(reply), version)
  {
    hide Open, Layout, DataStart, PositionAt, ReplyFor;
    EntriesReadBack(db);
    ItemReadsBack(db, PositionAt(Open(Layout(db)).value.entries, j, pos), j);
    MaskedAttrs(db.items[j].attrs);
  }

  lemma MaskedAttrs(attrs: byte)
    requires !Bit(attrs, ATTR_DELETED)
    ensures 0 <= attrs / 16 % 16 * 16 < 256 && !Bit(attrs / 16 % 16 * 16, ATTR_DELETED)
    ensures !Bit(attrs / 16 % 16 * 16, ATTR_ARCHIVED)
  {
  }

  lemma SavedAreLive(records: seq<DbRecord>, max: nat)
    ensures forall item <- Saved(records, max) :: item.Record? && !Bit(item.attrs, ATTR_DELETED)
  {
    forall i | 0 <= i < |Saved(records, max)|
      ensures Saved(records, max)[i].Record? && !Bit(Saved(records, max)[i].attrs, ATTR_DELETED)
    {
      SavedFrom(records, max, i);
    }
  }

  /** The backup of a record database, as it is found when reopened and as `pi_file_install` leaves it on a handheld:
    the records that survive, in their order, each with its bytes, uid, category and attributes, if and only if each
    of them is one the format has room for. */
  lemma BackupRestores(records: seq<DbRecord>, max: nat, info: Info, appBlock: seq<byte>, pos: nat, version: nat,
                       newUid: seq<DbRecord> -> nat)
    requires Distinct(records) && GivesUids(newUid) && !ForResources(info)
    requires Storable(Db(info, appBlock, [], Saved(records, max)))
    ensures var file := Layout(Db(info, appBlock, [], Saved(records, max)));
            && Open(file).Some?
            && var o := Open(file).value;
               && o.appInfo == appBlock && (forall e <- o.entries :: e.size >= 0)
               && (Installed(file, o.entries, |o.entries|, pos, version, newUid) == Survivors(records)
                   <==> forall r <- Survivors(records) :: Plain(r, max))
  {
    hide Open, Layout, Saved, Survivors, Plain, Installed, Restored, Distinct, Bit, GivesUids;
    var items := Saved(records, max);
    var db := Db(info, appBlock, [], items);
    SavedAreLive(records, max);
    WrittenReadsBack(db);
    InstalledIsRestored(db, |items|, pos, version, newUid);
    assert items[..|items|] == items;
    RestoredExactly(records, max, newUid);
  }

  /** A database copied from one handheld to another by way of a file of less than 2 GB. */
  method Copy(source: Device, info: Info, appBlock: seq<byte>, target: Handheld, readFaults: set<int>,
              writeFaults: set<int>) returns (ok: bool)
    requires source.Valid() && |info.name| == 34 && !ForResources(info) && GivesUids(target.newUid)
    modifies target
    ensures ok ==>
              && target.database.Some?
              && target.database.value.appInfo == AppBlock(appBlock, Stored(info).name, target.version)
              && (target.database.value.records == Survivors(source.records)
                  <==> forall r <- Survivors(source.records) :: Plain(r, source.maxRecSize))
  {
    hide Layout, Open, Saved, Survivors, Plain, Installed, Bit, Succeeds, Flat, AppBlock, Stored;
    ghost var records, max := source.records, source.maxRecSize;
    var w := new Writer(info);
    var result := Retrieve(source, appBlock, w, readFaults);
    if result < 0 {
      return false;
    }
    ghost var db := w.State();
    var file;
    result, file := w.Close();
    if result < 0 || |file| >= 0x8000_0000 {
      return false;
    }
    var r := OpenFile(file);
    if r == null {
      return false;
    }
    assert [] + Saved(records, max) == Saved(records, max);
    BackupRestores(records, max, info, appBlock, r.pos, target.version, target.newUid);
    WrittenReadsBack(db);
    StoredKind(info);
    result := Install(r, target, writeFaults);
    ok := result >= 0;
  }
}
