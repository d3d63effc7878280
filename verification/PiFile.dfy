/** `pi_file_t` of libpisock/pi-file.c: databases built call by call and written on closing, and databases read. */
module PiFile {
  import opened Bytes
  import opened Common
  import opened PiBuffer
  import opened PdbFormat
  import opened PdbRoundTrip
  import opened PdbHistory

  /** What the entry array records of an item while a database is built. */
  predicate Describes(e: Entry, item: Item) {
    && e.size == |item.bytes|
    && match item
       case Record(_, attrs, uid) => e.attrs == attrs && e.uid == uid
       case Resource(_, kind, id) => e.kind == kind && e.id == id && e.uid == 0
  }

  const NO_ENTRY := Entry(0, 0, 0, 0, 0, 0)

  /** A database opened with `pi_file_create`. */
  class Writer {
    var info: Info
    var resourceFlag: bool
    var entHdrSize: nat
    var appInfo: seq<byte>
    var sortInfo: seq<byte>
    var entries: array<Entry>
    var numEntries: nat
    var tmpbuf: Buffer
    ghost var items: seq<Item>

    ghost predicate Valid()
      reads this, entries, tmpbuf, tmpbuf.data
    {
      && WellFormed(Db(info, appInfo, sortInfo, items))
      && resourceFlag == ForResources(info) && entHdrSize == EntrySize(resourceFlag)
      && numEntries == |items| <= entries.Length && (entries.Length == 0 || entries.Length >= 2)
      && (forall i :: 0 <= i < numEntries ==> Describes(entries[i], items[i]))
      && tmpbuf.Valid() && tmpbuf.Contents() == Flat(items)
    }

    ghost function State(): Db
      reads this
    {
      Db(info, appInfo, sortInfo, items)
    }

    /** `pi_file_create` */
    constructor (info: Info)
      requires |info.name| == 34
      ensures Valid() && State() == Create(info) && fresh(entries) && fresh(tmpbuf) && fresh(tmpbuf.data)
    {
      this.info := info;
      resourceFlag := info.flags % 2 == 1;
      entHdrSize := if info.flags % 2 == 1 then RESOURCE_ENT_SIZE else RECORD_ENT_SIZE;
      appInfo, sortInfo := [], [];
      entries := new Entry[0];
      numEntries := 0;
      var buffer := new Buffer(2048);
      tmpbuf := buffer;
      items := [];
    }

    /** `pi_file_set_info` */
    method SetInfo(ip: Info) returns (result: int)
      requires Valid() && |ip.name| == 34
      modifies this
      ensures Valid() && (State(), result) == Apply(old(State()), Call.SetInfo(ip))
      ensures entries == old(entries) && tmpbuf == old(tmpbuf)
    {
      if (ip.flags % 2 == 1) != (info.flags % 2 == 1) {
        return FILE_INVALID;
      }
      info := ip;
      result := 0;
    }

    /** `pi_file_set_app_info` */
    method SetAppInfo(data: seq<byte>) returns (result: int)
      requires Valid()
      modifies this
      ensures Valid() && (State(), result) == Apply(old(State()), Call.SetAppInfo(data))
      ensures entries == old(entries) && tmpbuf == old(tmpbuf)
    {
      appInfo := data;
      result := 0;
    }

    /** `pi_file_set_sort_info` */
    method SetSortInfo(data: seq<byte>) returns (result: int)
      requires Valid()
      modifies this
      ensures Valid() && (State(), result) == Apply(old(State()), Call.SetSortInfo(data))
      ensures entries == old(entries) && tmpbuf == old(tmpbuf)
    {
      sortInfo := data;
      result := 0;
    }

    /** `pi_file_id_used`. The entries of resources have the uid 0. */
    method UidUsed(uid: nat) returns (used: bool)
      requires Valid()
      ensures used == if resourceFlag then uid == 0 && items != [] else IdUsed(items, uid)
    {
      for i := 0 to numEntries
        invariant forall j :: 0 <= j < i ==> (if resourceFlag then uid != 0 else items[j].uid != uid)
      {
        assert items[i] in items;
        if entries[i].uid == uid {
          return true;
        }
      }
      used := false;
    }

    /** `pi_file_find_resource_by_type_id`: 1 with the index, 0, or an error on a record database. */
    method FindResource(kind: nat, id: int) returns (result: int, index: nat)
      requires Valid()
      ensures !resourceFlag ==> result == FILE_INVALID
      ensures resourceFlag ==> result == if TypeIdUsed(items, kind, id) then 1 else 0
      ensures result == 1 ==>
                index < |items| && items[index].Resource? && items[index].kind == kind && items[index].id == id
    {
      index := 0;
      if !resourceFlag {
        return FILE_INVALID, index;
      }
      for i := 0 to numEntries
        invariant forall j :: 0 <= j < i ==> items[j].Resource? && !(items[j].kind == kind && items[j].id == id)
      {
        assert items[i] in items;
        if entries[i].kind == kind && entries[i].id == id {
          return 1, i;
        }
      }
      result := 0;
    }

    /** `pi_file_append_entry`: the array grows to 100 entries and then by half. */
    method AppendEntry() returns (at: nat)
      requires Valid()
      modifies this`entries, this`numEntries, entries
      ensures at == old(numEntries) && numEntries == at + 1 <= entries.Length && entries.Length >= 2
      ensures entries == old(entries) || fresh(entries)
      ensures forall i :: 0 <= i < at ==> Describes(entries[i], items[i])
    {
      if numEntries >= entries.Length {
        var newCount := if entries.Length == 0 then 100 else entries.Length * 3 / 2;
        var grown := new Entry[newCount](_ => NO_ENTRY);
        for i := 0 to numEntries
          invariant numEntries == old(numEntries) && entries == old(entries)
          invariant entries[..] == old(entries[..]) && grown[..i] == entries[..i]
        {
          grown[i] := entries[i];
        }
        entries := grown;
      }
      at := numEntries;
      numEntries := numEntries + 1;
      entries[at] := NO_ENTRY;
    }

    /** The end of both append functions: the data goes to the buffer, its description to the entry. */
    method Store(item: Item, e: Entry)
      requires Valid() && item.Resource? == resourceFlag && Describes(e, item)
      modifies this`entries, this`numEntries, this`items, entries, tmpbuf, tmpbuf.data
      ensures Valid() && State() == old(State()).(items := old(items) + [item]) && tmpbuf == old(tmpbuf)
      ensures (entries == old(entries) || fresh(entries)) && (tmpbuf.data == old(tmpbuf.data) || fresh(tmpbuf.data))
    {
      hide Flat, EntrySize, Describes;
      var at := AppendEntry();
      if item.bytes != [] {
        tmpbuf.Append(item.bytes);
      }
      entries[at] := e;
      FlatMore(items, item);
      items := items + [item];
    }

    /** `pi_file_append_record` */
    method AppendRecord(data: seq<byte>, attrs: int, category: int, uid: nat) returns (result: int)
      requires Valid()
      modifies this`entries, this`numEntries, this`items, entries, tmpbuf, tmpbuf.data
      ensures Valid() && (State(), result) == Apply(old(State()), Call.AppendRecord(data, attrs, category, uid))
      ensures tmpbuf == old(tmpbuf)
      ensures (entries == old(entries) || fresh(entries)) && (tmpbuf.data == old(tmpbuf.data) || fresh(tmpbuf.data))
    {
      if resourceFlag {
        return FILE_INVALID;
      }
      if uid != 0 {
        var used := UidUsed(uid);
        if used {
          return ALREADY_EXISTS;
        }
      }
      var masked := attrs / 16 % 16 * 16 + category % 16;
      Store(Record(data, masked, uid), NO_ENTRY.(size := |data|, attrs := masked, uid := uid));
      result := |data|;
    }

    /** `pi_file_append_resource` */
    method AppendResource(data: seq<byte>, kind: nat, id: int) returns (result: int)
      requires Valid()
      modifies this`entries, this`numEntries, this`items, entries, tmpbuf, tmpbuf.data
      ensures Valid() && (State(), result) == Apply(old(State()), Call.AppendResource(data, kind, id))
      ensures tmpbuf == old(tmpbuf)
      ensures (entries == old(entries) || fresh(entries)) && (tmpbuf.data == old(tmpbuf.data) || fresh(tmpbuf.data))
    {
      if !resourceFlag {
        return FILE_INVALID;
      }
      var used, _ := FindResource(kind, id);
      if used != 0 {
        return ALREADY_EXISTS;
      }
      Store(Resource(data, kind, id), NO_ENTRY.(size := |data|, kind := kind, id := id));
      result := |data|;
    }

    /** The header, with the offsets of the info blocks; `offset` is where the data will start. */
    method PackHeader() returns (header: seq<byte>, offset: nat)
      requires Valid()
      ensures header == HeaderBytes(State()) && offset == DataStart(State())
    {
      hide LongBytes, ShortBytes, Flat, Describes;
      offset := HDR_SIZE + numEntries * entHdrSize + 2;
      var appOffset := if |appInfo| != 0 then offset else 0;
      offset := offset + |appInfo|;
      var sortOffset := if |sortInfo| != 0 then offset else 0;
      offset := offset + |sortInfo|;
      header := info.name[..32] + ShortBytes(info.flags) + ShortBytes(info.version)
                + LongBytes(info.createDate + TIME_DELTA) + LongBytes(info.modifyDate + TIME_DELTA)
                + LongBytes(info.backupDate + TIME_DELTA) + LongBytes(info.modnum)
                + LongBytes(appOffset) + LongBytes(sortOffset) + LongBytes(info.kind) + LongBytes(info.creator)
                + LongBytes(0) + LongBytes(0) + ShortBytes(numEntries);
    }

    /** One line of the entry table. */
    method PackEntry(e: Entry, ghost item: Item) returns (packed: seq<byte>)
      requires Describes(e, item) && item.Resource? == resourceFlag
      ensures packed == EntryBytes(item, e.offset)
    {
      packed := if resourceFlag then LongBytes(e.kind) + ShortBytes(e.id) + LongBytes(e.offset)
                else LongBytes(e.offset) + [e.attrs % 256] + TrebleBytes(e.uid);
    }

    /** The entry table: each entry learns its offset, the running sum of the sizes before it. */
    method PackTable(start: nat) returns (table: seq<byte>)
      requires Valid()
      modifies entries
      ensures table == Table(items, start)
    {
      hide EntryBytes, Flat, EntrySize;
      var offset: int := start;
      table := [];
      for i := 0 to numEntries
        invariant forall j :: 0 <= j < numEntries ==> Describes(entries[j], items[j])
        invariant table + Table(items[i..], offset) == Table(items, start)
      {
        entries[i] := entries[i].(offset := offset);
        assert items[i] in items;
        var packed := PackEntry(entries[i], items[i]);
        TableStep(table, packed, items, i, offset);
        table := table + packed;
        offset := offset + entries[i].size;
      }
      assert items[numEntries..] == [];
    }

    /** `pi_file_close_for_write`: header, entry table, padding, info blocks and data, in this order. */
    method Close() returns (result: int, file: seq<byte>)
      requires Valid()
      modifies entries
      ensures |items| >= 0x1_0000 ==> result == FILE_INVALID && file == []
      ensures |items| < 0x1_0000 ==> result == 0 && file == Layout(State())
    {
      hide Flat, Table, HeaderBytes, EntrySize, DataStart;
      if numEntries >= 64 * 1024 {
        return FILE_INVALID, [];
      }
      var header, start := PackHeader();
      var data := tmpbuf.data[..tmpbuf.used];
      var table := PackTable(start);
      file := header + table + [0, 0] + appInfo + sortInfo + data;
      result := 0;
    }
  }

  lemma FlatMore(items: seq<Item>, item: Item)
    ensures Flat(items + [item]) == Flat(items) + item.bytes
  {
    FlatConcat(items, [item]);
    assert Flat([item]) == item.bytes + Flat([]);
  }

  lemma TableStep(done: seq<byte>, packed: seq<byte>, items: seq<Item>, i: nat, offset: int)
    requires i < |items| && packed == EntryBytes(items[i], offset)
    ensures done + Table(items[i..], offset) == done + packed + Table(items[i + 1..], offset + |items[i].bytes|)
  {
    hide EntryBytes;
    assert items[i..][0] == items[i] && items[i..][1..] == items[i + 1..];
  }

  /** A database opened with `pi_file_open`: its file, positioned at `pos`, and what was read of it. */
  class Reader {
    const file: seq<byte>
    var pos: nat
    var info: Info
    var resourceFlag: bool
    var seed: nat
    var entries: array<Entry>
    var numEntries: nat
    var appInfo: seq<byte>
    var sortInfo: seq<byte>

    ghost predicate Valid()
      reads this, entries
    {
      && numEntries <= entries.Length && resourceFlag == ForResources(info)
      && forall i :: 0 <= i < numEntries ==> entries[i].size >= 0
    }

    ghost function Contents(): Opened
      requires Valid()
      reads this, entries
    {
      Opened(info, seed, entries[..numEntries], appInfo, sortInfo)
    }

    constructor (file: seq<byte>, info: Info, seed: nat, entries: array<Entry>, appInfo: seq<byte>, sortInfo: seq<byte>)
      requires forall i :: 0 <= i < entries.Length ==> entries[i].size >= 0
      ensures Valid() && this.file == file && Contents() == Opened(info, seed, entries[..], appInfo, sortInfo)
      ensures this.entries == entries
    {
      this.file, this.info, this.seed, this.entries := file, info, seed, entries;
      this.appInfo, this.sortInfo := appInfo, sortInfo;
      pos, resourceFlag, numEntries := 0, info.flags % 2 == 1, entries.Length;
    }

    /** `pi_file_read_record` */
    method ReadRecord(index: int) returns (reply: Reply)
      requires Valid()
      modifies this`pos
      ensures Valid() && Contents() == old(Contents())
      ensures reply == if resourceFlag then Error(FILE_INVALID)
                       else if index < 0 || index >= numEntries then Error(BAD_ARGUMENT)
                       else ReplyFor(file, old(pos), entries[index])
      ensures reply.Reply? ==> pos == PositionAfter(old(pos), entries[index])
    {
      if resourceFlag {
        return Error(FILE_INVALID);
      }
      if index < 0 || index >= numEntries {
        return Error(BAD_ARGUMENT);
      }
      var e := entries[index];
      if e.offset >= 0 {
        pos := e.offset;
      }
      if pos + e.size > |file| {
        return Error(FILE_ERROR);
      }
      var bytes := file[pos..pos + e.size];
      pos := pos + e.size;
      reply := Reply(bytes, e.attrs / 16 % 16 * 16, e.attrs % 16, e.uid);
    }

    /** `pi_file_read_record` when only the size is asked for: the file is not read. */
    method RecordSize(index: int) returns (result: int, size: nat)
      requires Valid()
      ensures resourceFlag ==> result == FILE_INVALID
      ensures !resourceFlag && (index < 0 || index >= numEntries) ==> result == BAD_ARGUMENT
      ensures !resourceFlag && 0 <= index < numEntries ==> result == 0 && size == entries[index].size
    {
      size := 0;
      if resourceFlag {
        return FILE_INVALID, 0;
      }
      if index < 0 || index >= numEntries {
        return BAD_ARGUMENT, 0;
      }
      return 0, entries[index].size;
    }

    /** `pi_file_read_resource` */
    method ReadResource(index: int) returns (reply: ResourceReply)
      requires Valid()
      modifies this`pos
      ensures Valid() && Contents() == old(Contents())
      ensures reply == if !resourceFlag then ResourceError(FILE_INVALID)
                       else if index < 0 || index >= numEntries then ResourceError(BAD_ARGUMENT)
                       else ResourceReplyFor(file, old(pos), entries[index])
    {
      if !resourceFlag {
        return ResourceError(FILE_INVALID);
      }
      if index < 0 || index >= numEntries {
        return ResourceError(BAD_ARGUMENT);
      }
      var e := entries[index];
      if e.offset >= 0 {
        pos := e.offset;
      }
      if pos + e.size > |file| {
        return ResourceError(FILE_ERROR);
      }
      var bytes := file[pos..pos + e.size];
      pos := pos + e.size;
      reply := ResourceReply(bytes, e.kind, e.id);
    }

    /** `pi_file_read_record_by_id` */
    method ReadRecordById(uid: nat) returns (reply: Reply, index: nat)
      requires Valid()
      modifies this`pos
      ensures Valid() && Contents() == old(Contents())
      ensures match FindId(old(Contents()).entries, uid, 0)
              case None => reply == Error(NOT_FOUND)
              case Some(i) =>
                && index == i
                && reply == if resourceFlag then Error(FILE_INVALID) else ReplyFor(file, old(pos), entries[i])
    {
      index := 0;
      while index < numEntries
        invariant index <= numEntries && pos == old(pos)
        invariant FindId(entries[..numEntries], uid, 0) == FindId(entries[..numEntries], uid, index)
      {
        if entries[index].uid == uid {
          reply := ReadRecord(index);
          return;
        }
        index := index + 1;
      }
      reply := Error(NOT_FOUND);
    }
  }

  /** The first loop of `pi_file_open`: the entry table, without sizes. */
  method ReadTable(file: seq<byte>, n: nat, resources: bool) returns (ok: bool, entries: array<Entry>)
    requires |file| >= HDR_SIZE
    ensures fresh(entries) && entries.Length == n
    ensures ReadEntries(file, HDR_SIZE, n, resources) == if ok then Some(entries[..]) else None
  {
    hide ReadEntry;
    entries := new Entry[n](_ => NO_ENTRY);
    var size := EntrySize(resources);
    var pos: nat := HDR_SIZE;
    NothingAdded(ReadEntries(file, HDR_SIZE, n, resources));
    for i := 0 to n
      invariant pos <= |file|
      invariant ReadEntries(file, HDR_SIZE, n, resources)
             == match ReadEntries(file, pos, n - i, resources)
                case None => None
                case Some(rest) => Some(entries[..i] + rest)
    {
      if pos + size > |file| {
        return false, entries;
      }
      ghost var before := entries[..i];
      entries[i] := ReadEntry(file, pos, resources);
      assert entries[..i + 1] == before + [entries[i]];
      pos := pos + size;
      ReadEntriesStep(file, pos - size, n - i, resources, before);
    }
    assert entries[..n] + [] == entries[..];
    ok := true;
  }

  lemma ReadEntriesStep(file: seq<byte>, pos: nat, n: nat, resources: bool, before: seq<Entry>)
    requires n > 0 && pos + EntrySize(resources) <= |file|
    ensures var size := EntrySize(resources);
            match ReadEntries(file, pos + size, n - 1, resources)
            case None => ReadEntries(file, pos, n, resources).None?
            case Some(rest) =>
              && ReadEntries(file, pos, n, resources).Some?
              && before + ReadEntries(file, pos, n, resources).value
                 == before + [ReadEntry(file, pos, resources)] + rest
  {
    hide ReadEntry;
  }

  /** The second loop of `pi_file_open`: the sizes, from the last entry to the first. `first` is where the entries
    start. */
  method RecoverSizes(entries: array<Entry>, fileSize: int) returns (ok: bool, first: int)
    modifies entries
    ensures var r := SizeEntries(old(entries[..]), fileSize, fileSize);
            && ok == r.Some?
            && (ok ==> r == Some(entries[..]) && first == if entries.Length == 0 then fileSize else entries[0].offset)
  {
    hide Plausible, SizeUpTo;
    first := fileSize;
    var i := entries.Length;
    ghost var heads := entries[..];
    assert heads[..i] == heads && entries[i..] == [];
    NothingAdded(SizeEntries(heads, fileSize, fileSize));
    while i > 0
      invariant 0 <= i <= entries.Length && entries[..i] == heads[..i]
      invariant first == if i == entries.Length then fileSize else heads[i].offset
      invariant i < entries.Length ==> entries[i].offset == heads[i].offset
      invariant SizeEntries(heads, fileSize, fileSize)
             == match SizeEntries(heads[..i], first, fileSize)
                case None => None
                case Some(front) => Some(front + entries[i..])
    {
      i := i - 1;
      var e := entries[i];
      assert e == heads[i] && heads[..i + 1][..i] == heads[..i] && heads[..i + 1][i] == e;
      if !Plausible(e, first, fileSize) {
        return false, first;
      }
      ghost var back := entries[i + 1..];
      entries[i] := e.(size := SizeUpTo(e, first));
      assert entries[i..] == [entries[i]] + back;
      Reassociate(SizeEntries(heads[..i], e.offset, fileSize), entries[i], back);
      first := e.offset;
    }
    assert entries[0..] == entries[..] && heads[..0] == [];
    assert [] + entries[..] == entries[..];
    ok := true;
  }

  lemma NothingAdded(o: Option<seq<Entry>>)
    ensures o.Some? ==> [] + o.value == o.value + [] == o.value
  {
  }

  lemma Reassociate(front: Option<seq<Entry>>, e: Entry, back: seq<Entry>)
    ensures front.Some? ==> front.value + [e] + back == front.value + ([e] + back)
  {
  }

  /** The definition of `Open`, step by step. */
  lemma OpenSteps(file: seq<byte>)
    ensures if |file| < HDR_SIZE || GetLong(file, 72) != 0 then Open(file) == None
            else
              var heads := ReadEntries(file, HDR_SIZE, GetShort(file, 76), ForResources(ReadInfo(file)));
              if heads.None? || SizeEntries(heads.value, |file|, |file|).None? then Open(file) == None
              else Open(file) == WithBlocks(file, SizeEntries(heads.value, |file|, |file|).value)
  {
    hide GetLong, GetShort, ReadInfo, ForResources, ReadEntries, SizeEntries, WithBlocks;
  }

  /** `pi_file_open` on a file of less than 2 GB, so that its size is a C int. */
  method OpenFile(file: seq<byte>) returns (r: Reader?)
    requires |file| < 0x8000_0000
    ensures (r == null) == Open(file).None?
    ensures r != null
            ==> fresh(r) && fresh(r.entries) && r.Valid() && r.file == file && r.Contents() == Open(file).value
  {
    hide Open, ReadEntries, SizeEntries, GetLong, GetShort, ReadInfo, ForResources, Tiles;
    OpenSteps(file);
    if |file| < HDR_SIZE {
      return null;
    }
    var info := ReadInfo(file);
    var appOffset, sortOffset := GetLong(file, 52), GetLong(file, 56);
    if GetLong(file, 72) != 0 {
      return null;
    }
    var ok, entries := ReadTable(file, GetShort(file, 76), ForResources(info));
    if !ok {
      return null;
    }
    ghost var heads := entries[..];
    var offset: int;
    ok, offset := RecoverSizes(entries, |file|);
    if !ok {
      return null;
    }
    SizedEntriesTile(heads, |file|, |file|);
    var sortSize, appSize := 0, 0;
    if sortOffset != 0 {
      sortSize := ToInt32(offset - sortOffset);
      offset := sortOffset;
    }
    if appOffset != 0 {
      appSize := ToInt32(offset - appOffset);
      offset := appOffset;
    }
    if appSize < 0 || sortOffset + sortSize > |file| || sortSize < 0 || appOffset + appSize > |file| {
      return null;
    }
    r := new Reader(file, info, GetLong(file, 68), entries, file[appOffset..appOffset + appSize],
                    file[sortOffset..sortOffset + sortSize]);
  }
}
