/** What a sequence of calls on a database being written comes to, and what is found when it is reopened. */
module PdbHistory {
  import opened Bytes
  import opened Common
  import opened PdbFormat
  import opened PdbRoundTrip

  const FILE_INVALID := -400
  const FILE_ERROR := -401
  const NOT_FOUND := -403
  const ALREADY_EXISTS := -404
  const BAD_ARGUMENT := -501

  datatype Call =
    | AppendRecord(bytes: seq<byte>, attrs: int, category: int, uid: nat)
    | AppendResource(bytes: seq<byte>, kind: nat, id: int)
    | SetAppInfo(bytes: seq<byte>)
    | SetSortInfo(bytes: seq<byte>)
    | SetInfo(info: Info)

  /** `(recattrs & 0xf0) | (category & 0xf)` */
  function Attributes(attrs: int, category: int): byte { attrs / 16 % 16 * 16 + category % 16 }

  /** `pi_file_id_used` */
  predicate IdUsed(items: seq<Item>, uid: nat) {
    exists i :: 0 <= i < |items| && items[i].Record? && items[i].uid == uid
  }

  /** `pi_file_type_id_used` */
  predicate TypeIdUsed(items: seq<Item>, kind: nat, id: int) {
    exists i :: 0 <= i < |items| && items[i].Resource? && items[i].kind == kind && items[i].id == id
  }

  /** One call: the database after it and the value returned. */
  function Apply(db: Db, call: Call): (Db, int) {
    match call
    case AppendRecord(bytes, attrs, category, uid) =>
      if ForResources(db.info) then (db, FILE_INVALID)
      else if uid != 0 && IdUsed(db.items, uid) then (db, ALREADY_EXISTS)
      else (db.(items := db.items + [Record(bytes, Attributes(attrs, category), uid)]), |bytes|)
    case AppendResource(bytes, kind, id) =>
      if !ForResources(db.info) then (db, FILE_INVALID)
      else if TypeIdUsed(db.items, kind, id) then (db, ALREADY_EXISTS)
      else (db.(items := db.items + [Resource(bytes, kind, id)]), |bytes|)
    case SetAppInfo(bytes) => (db.(appInfo := bytes), 0)
    case SetSortInfo(bytes) => (db.(sortInfo := bytes), 0)
    case SetInfo(info) =>
      if ForResources(info) != ForResources(db.info) then (db, FILE_INVALID) else (db.(info := info), 0)
  }

  function Run(db: Db, calls: seq<Call>): Db {
    if calls == [] then db else Apply(Run(db, calls[..|calls| - 1]), calls[|calls| - 1]).0
  }

  /** `pi_file_create` */
  function Create(info: Info): Db { Db(info, [], [], []) }

  // ---- the history, without the database -------------------------------------------------------------------------

  /** The `i`-th call appends something for the first time: a record whose uid is zero or was not given before, or a
    resource whose type and id were not. */
  predicate FirstUse(calls: seq<Call>, i: nat, resources: bool)
    requires i < |calls|
  {
    match calls[i]
    case AppendRecord(_, _, _, uid) => !resources && (uid == 0 || !GivenBefore(calls, i, uid))
    case AppendResource(_, kind, id) => resources && !NamedBefore(calls, i, kind, id)
    case _ => false
  }

  predicate GivenBefore(calls: seq<Call>, i: nat, uid: nat)
    requires i <= |calls|
  {
    exists j :: 0 <= j < i && calls[j].AppendRecord? && calls[j].uid == uid
  }

  predicate NamedBefore(calls: seq<Call>, i: nat, kind: nat, id: int)
    requires i <= |calls|
  {
    exists j :: 0 <= j < i && calls[j].AppendResource? && calls[j].kind == kind && calls[j].id == id
  }

  function ItemOf(call: Call): Item
    requires call.AppendRecord? || call.AppendResource?
  {
    match call
    case AppendRecord(bytes, attrs, category, uid) => Record(bytes, Attributes(attrs, category), uid)
    case AppendResource(bytes, kind, id) => Resource(bytes, kind, id)
  }

  /** The items of the first `n` calls that append something for the first time, in order. */
  function Accepted(calls: seq<Call>, n: nat, resources: bool): seq<Item>
    requires n <= |calls|
  {
    if n == 0 then []
    else Accepted(calls, n - 1, resources) + if FirstUse(calls, n - 1, resources) then [ItemOf(calls[n - 1])] else []
  }

  /** The block given last among the first `n` calls. */
  function LastAppInfo(calls: seq<Call>, n: nat): seq<byte>
    requires n <= |calls|
  {
    if n == 0 then [] else if calls[n - 1].SetAppInfo? then calls[n - 1].bytes else LastAppInfo(calls, n - 1)
  }

  function LastSortInfo(calls: seq<Call>, n: nat): seq<byte>
    requires n <= |calls|
  {
    if n == 0 then [] else if calls[n - 1].SetSortInfo? then calls[n - 1].bytes else LastSortInfo(calls, n - 1)
  }

  // ---- the database holds the history ----------------------------------------------------------------------------

  /** What is known of the database after the first `n` calls. */
  ghost predicate Tells(db: Db, calls: seq<Call>, n: nat, resources: bool)
    requires n <= |calls|
  {
    && WellFormed(db) && ForResources(db.info) == resources
    && db.items == Accepted(calls, n, resources)
    && db.appInfo == LastAppInfo(calls, n) && db.sortInfo == LastSortInfo(calls, n)
    && (!resources
        ==> forall uid {:trigger IdUsed(db.items, uid)} :: IdUsed(db.items, uid) == GivenBefore(calls, n, uid))
    && (resources ==> forall kind, id {:trigger TypeIdUsed(db.items, kind, id)} ::
          TypeIdUsed(db.items, kind, id) == NamedBefore(calls, n, kind, id))
  }

  predicate NamesFit(calls: seq<Call>) { forall c <- calls :: c.SetInfo? ==> |c.info.name| == 34 }

  lemma IdUsedMore(items: seq<Item>, item: Item, uid: nat)
    ensures IdUsed(items + [item], uid) == (IdUsed(items, uid) || (item.Record? && item.uid == uid))
  {
    var more := items + [item];
    if i :| 0 <= i < |items| && items[i].Record? && items[i].uid == uid {
      assert more[i] == items[i];
    }
    assert more[|items|] == item;
  }

  lemma TypeIdUsedMore(items: seq<Item>, item: Item, kind: nat, id: int)
    ensures TypeIdUsed(items + [item], kind, id)
         == (TypeIdUsed(items, kind, id) || (item.Resource? && item.kind == kind && item.id == id))
  {
    var more := items + [item];
    if i :| 0 <= i < |items| && items[i].Resource? && items[i].kind == kind && items[i].id == id {
      assert more[i] == items[i];
    }
    assert more[|items|] == item;
  }

  lemma ApplyTells(db: Db, calls: seq<Call>, n: nat, resources: bool)
    requires n < |calls| && NamesFit(calls) && Tells(db, calls, n, resources)
    ensures Tells(Apply(db, calls[n]).0, calls, n + 1, resources)
  {
    hide IdUsed, TypeIdUsed;
    var call, db' := calls[n], Apply(db, calls[n]).0;
    assert call in calls;
    forall uid: nat
      ensures GivenBefore(calls, n + 1, uid) == (GivenBefore(calls, n, uid) || (call.AppendRecord? && call.uid == uid))
    {
    }
    forall kind: nat, id
      ensures NamedBefore(calls, n + 1, kind, id)
           == (NamedBefore(calls, n, kind, id) || (call.AppendResource? && call.kind == kind && call.id == id))
    {
    }
    if |db'.items| > |db.items| {
      var item := ItemOf(call);
      forall uid: nat
        ensures IdUsed(db'.items, uid) == (IdUsed(db.items, uid) || (item.Record? && item.uid == uid))
      {
        IdUsedMore(db.items, item, uid);
      }
      forall kind: nat, id
        ensures TypeIdUsed(db'.items, kind, id)
             == (TypeIdUsed(db.items, kind, id) || (item.Resource? && item.kind == kind && item.id == id))
      {
        TypeIdUsedMore(db.items, item, kind, id);
      }
    }
  }

  lemma {:induction false} RunTells(info: Info, calls: seq<Call>, n: nat)
    requires |info.name| == 34 && NamesFit(calls) && n <= |calls|
    ensures Tells(Run(Create(info), calls[..n]), calls, n, ForResources(info))
    decreases n
  {
    hide Tells, Apply;
    if n == 0 {
      CreateTells(info, calls);
    } else {
      assert calls[..n][..n - 1] == calls[..n - 1];
      RunTells(info, calls, n - 1);
      ApplyTells(Run(Create(info), calls[..n - 1]), calls, n - 1, ForResources(info));
    }
  }

  lemma CreateTells(info: Info, calls: seq<Call>)
    requires |info.name| == 34
    ensures Tells(Create(info), calls, 0, ForResources(info))
  {
  }

  // ---- reading items back ----------------------------------------------------------------------------------------

  /** `fseek` and `fread` in a file positioned at `pos`: seeking to a negative offset fails and moves nothing. */
  function ReadAt(file: seq<byte>, pos: nat, offset: int, size: int): Option<seq<byte>>
    requires size >= 0
  {
    var start := if offset >= 0 then offset else pos;
    if start + size <= |file| then Some(file[start..start + size]) else None
  }

  /** The position a successful read leaves. */
  function PositionAfter(pos: nat, e: Entry): nat
    requires e.size >= 0
  {
    (if e.offset >= 0 then e.offset else pos) + e.size
  }

  /** The bytes, attributes, category and uid `pi_file_read_record` returns, or an error. */
  datatype Reply = Reply(bytes: seq<byte>, attrs: int, category: int, uid: nat) | Error(code: int)

  function ReplyFor(file: seq<byte>, pos: nat, e: Entry): Reply
    requires e.size >= 0
  {
    match ReadAt(file, pos, e.offset, e.size)
    case None => Error(FILE_ERROR)
    case Some(bytes) => Reply(bytes, e.attrs / 16 % 16 * 16, e.attrs % 16, e.uid)
  }

  /** The index `pi_file_read_record_by_id` finds: the first entry with that uid, or none. */
  function FindId(entries: seq<Entry>, uid: nat, from: nat): (r: Option<nat>)
    requires from <= |entries|
    ensures r.Some? ==> from <= r.value < |entries| && entries[r.value].uid == uid
    decreases |entries| - from
  {
    if from == |entries| then None
    else if entries[from].uid == uid then Some(from)
    else FindId(entries, uid, from + 1)
  }

  lemma {:induction false} FindsFirst(entries: seq<Entry>, uid: nat, from: nat, i: nat)
    requires from <= i < |entries| && entries[i].uid == uid
    ensures FindId(entries, uid, from) == Some(i) <==> forall j :: from <= j < i ==> entries[j].uid != uid
    decreases |entries| - from
  {
    if entries[from].uid != uid {
      FindsFirst(entries, uid, from + 1, i);
    }
  }

  /** A database that was written and read: the conditions under which writing succeeds and stays below 2 GB. */
  ghost predicate Storable(db: Db) {
    WellFormed(db) && |db.items| < 0x1_0000 && |Layout(db)| < 0x8000_0000
  }

  /** The bytes of every item are where its entry says. */
  lemma BytesReadBack(db: Db, pos: nat, i: nat)
    requires Storable(db) && i < |db.items|
    ensures var e := Entries(db.items, DataStart(db))[i];
            Open(Layout(db)).Some? && e.size >= 0
              && ReadAt(Layout(db), pos, e.offset, e.size) == Some(db.items[i].bytes)
  {
    hide Open, Flat, Table, HeaderBytes, Layout, DataStart;
    WrittenReadsBack(db);
    Sections(db);
    FlatUpTo(db.items, i);
    var f, start, n := Layout(db), DataStart(db), |Flat(db.items[..i])|;
    var size := |db.items[i].bytes|;
    assert db.items == db.items[..i + 1] + db.items[i + 1..];
    FlatConcat(db.items[..i + 1], db.items[i + 1..]);
    assert f[start..][n..n + size] == db.items[i].bytes;
    assert f[start + n..start + n + size] == f[start..][n..n + size];
  }

  lemma ItemReadsBack(db: Db, pos: nat, i: nat)
    requires Storable(db) && i < |db.items| && db.items[i].Record?
    ensures var item := db.items[i];
            Open(Layout(db)).Some? && i < |Open(Layout(db)).value.entries|
            && ReplyFor(Layout(db), pos, Entries(db.items, DataStart(db))[i])
               == Reply(item.bytes, item.attrs / 16 % 16 * 16, item.attrs % 16, item.uid % 0x100_0000)
  {
    hide Open, Layout, DataStart, ReadAt;
    WrittenReadsBack(db);
    BytesReadBack(db, pos, i);
  }

  /** The bytes, type and id `pi_file_read_resource` returns, or an error. */
  datatype ResourceReply = ResourceReply(bytes: seq<byte>, kind: nat, id: int) | ResourceError(code: int)

  function ResourceReplyFor(file: seq<byte>, pos: nat, e: Entry): ResourceReply
    requires e.size >= 0
  {
    match ReadAt(file, pos, e.offset, e.size)
    case None => ResourceError(FILE_ERROR)
    case Some(bytes) => ResourceReply(bytes, e.kind, e.id)
  }

  /** The history of a resource database: the resources given for the first time, in order, each with its bytes, the 32
    bits of its type and the 16 bits of its id. */
  lemma ResourcesReadBack(info: Info, calls: seq<Call>, pos: nat, i: nat)
    requires |info.name| == 34 && NamesFit(calls) && ForResources(info)
    requires Storable(Run(Create(info), calls)) && i < |Accepted(calls, |calls|, true)|
    ensures var file, resources := Layout(Run(Create(info), calls)), Accepted(calls, |calls|, true);
            && resources[i].Resource? && Open(file).Some?
            && var o := Open(file).value;
               && |o.entries| == |resources| && o.entries[i].size >= 0
               && ResourceReplyFor(file, pos, o.entries[i])
                  == ResourceReply(resources[i].bytes, resources[i].kind % 0x1_0000_0000, resources[i].id % 0x1_0000)
  {
    hide Open, Layout, Run, FirstUse, DataStart, ReadAt, Storable;
    var db := Run(Create(info), calls);
    assert calls[..|calls|] == calls;
    RunTells(info, calls, |calls|);
    assert Tells(db, calls, |calls|, true);
    assert WellFormed(db) && db.items[i] in db.items;
    StorableIs(db);
    WrittenReadsBack(db);
    BytesReadBack(db, pos, i);
  }

  /** The information given last, among what was accepted: it must not turn records into resources. */
  function LastInfo(info: Info, calls: seq<Call>, n: nat): Info
    requires n <= |calls|
  {
    if n == 0 then info
    else if calls[n - 1].SetInfo? && ForResources(calls[n - 1].info) == ForResources(info) then calls[n - 1].info
    else LastInfo(info, calls, n - 1)
  }

  lemma {:induction false} InfoTells(info: Info, calls: seq<Call>, n: nat)
    requires n <= |calls|
    ensures Run(Create(info), calls[..n]).info == LastInfo(info, calls, n)
    ensures ForResources(LastInfo(info, calls, n)) == ForResources(info)
    decreases n
  {
    hide ForResources;
    if n > 0 {
      assert calls[..n][..n - 1] == calls[..n - 1];
      InfoTells(info, calls, n - 1);
    }
  }

  /** Every history, also one that accepts nothing: reopening finds the information and both blocks given last, the
    information as far as the header has room, and as many entries as items were given for the first time. */
  lemma BlocksReadBack(info: Info, calls: seq<Call>)
    requires |info.name| == 34 && NamesFit(calls) && Storable(Run(Create(info), calls))
    ensures var db := Run(Create(info), calls);
            && |LastInfo(info, calls, |calls|).name| == 34 && Open(Layout(db)).Some?
            && var o := Open(Layout(db)).value;
               && o.info == Stored(LastInfo(info, calls, |calls|)) && o.seed == 0
               && o.appInfo == LastAppInfo(calls, |calls|) && o.sortInfo == LastSortInfo(calls, |calls|)
               && |o.entries| == |Accepted(calls, |calls|, ForResources(info))|
  {
    hide Open, Layout, Run, FirstUse, DataStart, Storable, Stored;
    var db := Run(Create(info), calls);
    assert calls[..|calls|] == calls;
    RunTells(info, calls, |calls|);
    InfoTells(info, calls, |calls|);
    assert Tells(db, calls, |calls|, ForResources(info));
    StorableIs(db);
    WrittenReadsBack(db);
  }

  lemma StorableIs(db: Db)
    requires Storable(db)
    ensures WellFormed(db) && |db.items| < 0x1_0000 && |Layout(db)| < 0x8000_0000
  {
  }

  /** The part of a record's uid that the file has room for. */
  function Uid24(item: Item): nat { if item.Record? then item.uid % 0x100_0000 else 0 }

  /** The masks of `pi_file_append_record` and `pi_file_read_record` keep the upper half of the attribute byte and
    the low half of the category. */
  lemma AttributesKept(attrs: int, category: int)
    ensures var a := Attributes(attrs, category);
            a / 16 % 16 * 16 == attrs / 16 % 16 * 16 && a % 16 == category % 16
  {
  }

  /** All items are records and no two have the same uid, unless it is zero. */
  ghost predicate UidsDiffer(r: seq<Item>) {
    && (forall j :: 0 <= j < |r| ==> r[j].Record?)
    && forall j, k :: 0 <= j < k < |r| && r[k].uid != 0 ==> r[j].uid != r[k].uid
  }

  lemma OneMoreDiffers(r: seq<Item>, item: Item)
    requires UidsDiffer(r) && item.Record?
    requires item.uid != 0 ==> forall j :: 0 <= j < |r| ==> r[j].uid != item.uid
    ensures UidsDiffer(r + [item])
  {
  }

  lemma {:induction false} AcceptedUidsDiffer(info: Info, calls: seq<Call>, n: nat)
    requires |info.name| == 34 && NamesFit(calls) && !ForResources(info) && n <= |calls|
    ensures UidsDiffer(Accepted(calls, n, false))
  {
    hide UidsDiffer, FirstUse;
    if n == 0 {
      NoUids();
    } else {
      var r := Accepted(calls, n - 1, false);
      AcceptedUidsDiffer(info, calls, n - 1);
      RunTells(info, calls, n - 1);
      if FirstUse(calls, n - 1, false) {
        NewUidDiffers(r, calls, n - 1);
        OneMoreDiffers(r, ItemOf(calls[n - 1]));
      } else {
        assert r + [] == r;
      }
    }
  }

  lemma NoUids()
    ensures UidsDiffer([])
  {
  }

  lemma NewUidDiffers(r: seq<Item>, calls: seq<Call>, n: nat)
    requires n < |calls| && FirstUse(calls, n, false)
    requires forall uid {:trigger IdUsed(r, uid)} :: IdUsed(r, uid) == GivenBefore(calls, n, uid)
    requires UidsDiffer(r)
    ensures calls[n].AppendRecord? && (calls[n].uid != 0 ==> forall j :: 0 <= j < |r| ==> r[j].uid != calls[n].uid)
  {
    if calls[n].uid != 0 {
      assert !IdUsed(r, calls[n].uid);
    }
  }

  /** The history of a record database, told by the file it leaves. For every sequence of calls, accepted or
    rejected: reopening finds the records given for the first time, in order, each with its bytes, the upper half of
    its attribute byte, its category and the lower 24 bits of its uid; and looking up a record's uid finds that
    record if and only if no record before it has the same 24 bits. */
  lemma HistoryReadsBack(info: Info, calls: seq<Call>, pos: nat, i: nat)
    requires |info.name| == 34 && NamesFit(calls) && !ForResources(info)
    requires Storable(Run(Create(info), calls)) && i < |Accepted(calls, |calls|, false)|
    ensures var file, records := Layout(Run(Create(info), calls)), Accepted(calls, |calls|, false);
            && records[i].Record? && Open(file).Some?
            && var o := Open(file).value;
               && |o.entries| == |records| && o.entries[i].size >= 0
               && ReplyFor(file, pos, o.entries[i])
                  == Reply(records[i].bytes, records[i].attrs / 16 % 16 * 16, records[i].attrs % 16, Uid24(records[i]))
               && (FindId(o.entries, Uid24(records[i]), 0) == Some(i)
                   <==> forall j :: 0 <= j < i ==> Uid24(records[j]) != Uid24(records[i]))
  {
    hide Open, Layout, FindId, ReplyFor, Run, FirstUse, DataStart;
    var db := Run(Create(info), calls);
    var records := Accepted(calls, |calls|, false);
    assert calls[..|calls|] == calls;
    RunTells(info, calls, |calls|);
    AcceptedUidsDiffer(info, calls, |calls|);
    assert records[i] in records;
    WrittenReadsBack(db);
    ItemReadsBack(db, pos, i);
    var entries := Entries(records, DataStart(db));
    assert forall j :: 0 <= j < |records| ==> records[j] in records && entries[j].uid == Uid24(records[j]);
    FindsFirst(entries, Uid24(records[i]), 0, i);
  }

  /** Without 24-bit collisions every record with a uid is found by it. */
  lemma SmallUidsAreFound(info: Info, calls: seq<Call>, i: nat)
    requires |info.name| == 34 && NamesFit(calls) && !ForResources(info)
    requires Storable(Run(Create(info), calls)) && i < |Accepted(calls, |calls|, false)|
    requires forall c <- calls :: c.AppendRecord? ==> c.uid < 0x100_0000
    ensures var file, records := Layout(Run(Create(info), calls)), Accepted(calls, |calls|, false);
            && records[i].Record? && Open(file).Some?
            && (records[i].uid != 0 ==> FindId(Open(file).value.entries, records[i].uid, 0) == Some(i))
  {
    hide Open, Layout, FindId, ReplyFor, Run, FirstUse, Storable;
    HistoryReadsBack(info, calls, 0, i);
    AcceptedUidsDiffer(info, calls, |calls|);
    AcceptedUidsSmall(calls, |calls|);
    var records := Accepted(calls, |calls|, false);
    assert forall j :: 0 <= j < |records| ==> records[j] in records && Uid24(records[j]) == records[j].uid;
  }

  lemma {:induction false} AcceptedUidsSmall(calls: seq<Call>, n: nat)
    requires n <= |calls| && forall c <- calls :: c.AppendRecord? ==> c.uid < 0x100_0000
    ensures forall item <- Accepted(calls, n, false) :: item.Record? ==> item.uid < 0x100_0000
  {
    if n > 0 {
      AcceptedUidsSmall(calls, n - 1);
      assert calls[n - 1] in calls;
    }
  }
}
