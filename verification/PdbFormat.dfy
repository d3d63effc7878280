/** The PDB/PRC file format as libpisock/pi-file.c writes and reads it: the layout of a database and its recovery. */
module PdbFormat {
  import opened Bytes
  import opened Common

  const HDR_SIZE := 78
  const RESOURCE_ENT_SIZE := 10
  const RECORD_ENT_SIZE := 8
  const TIME_DELTA := 2082844800

  /** The part of `struct DBInfo` that is stored. `name` is a C array of 34 characters. */
  datatype Info = Info(name: seq<byte>, flags: nat, version: nat, createDate: int, modifyDate: int, backupDate: int,
                       modnum: nat, kind: nat, creator: nat)

  /** One record (`attrs` holds the attributes and the category) or one resource. */
  datatype Item = Record(bytes: seq<byte>, attrs: byte, uid: nat) | Resource(bytes: seq<byte>, kind: nat, id: int)

  /** A database being built: what `pi_file_close` writes. */
  datatype Db = Db(info: Info, appInfo: seq<byte>, sortInfo: seq<byte>, items: seq<Item>)

  /** `pi_file_entry_t` */
  datatype Entry = Entry(offset: int, size: int, id: int, attrs: int, kind: nat, uid: nat)

  /** What `pi_file_open` yields. */
  datatype Opened = Opened(info: Info, seed: nat, entries: seq<Entry>, appInfo: seq<byte>, sortInfo: seq<byte>)

  predicate ForResources(info: Info) { info.flags % 2 == 1 }

  function EntrySize(resources: bool): (n: nat)
    ensures n == 8 || n == 10
  {
    if resources then RESOURCE_ENT_SIZE else RECORD_ENT_SIZE
  }

  ghost predicate WellFormed(db: Db) {
    |db.info.name| == 34 && forall item <- db.items :: item.Resource? == ForResources(db.info)
  }

  function PilotTime(t: int): int { t + TIME_DELTA }

  function UnixTime(raw: nat): int { raw - TIME_DELTA }

  // ---- writing ---------------------------------------------------------------------------------------------------

  /** The data area: all items one after the other. */
  function Flat(items: seq<Item>): seq<byte> {
    if items == [] then [] else items[0].bytes + Flat(items[1..])
  }

  function EntryBytes(item: Item, offset: int): (s: seq<byte>)
    ensures |s| == EntrySize(item.Resource?)
  {
    match item
    case Record(_, attrs, uid) => LongBytes(offset) + [attrs] + TrebleBytes(uid)
    case Resource(_, kind, id) => LongBytes(kind) + ShortBytes(id) + LongBytes(offset)
  }

  function Table(items: seq<Item>, offset: int): seq<byte> {
    if items == [] then [] else EntryBytes(items[0], offset) + Table(items[1..], offset + |items[0].bytes|)
  }

  /** Where the application info block starts: behind the header, the entry table and two bytes of padding. */
  function BlockStart(db: Db): nat { HDR_SIZE + |db.items| * EntrySize(ForResources(db.info)) + 2 }

  function DataStart(db: Db): nat { BlockStart(db) + |db.appInfo| + |db.sortInfo| }

  function HeaderBytes(db: Db): (s: seq<byte>)
    requires |db.info.name| == 34
    ensures |s| == HDR_SIZE
  {
    db.info.name[..32] + ShortBytes(db.info.flags) + ShortBytes(db.info.version)
    + LongBytes(PilotTime(db.info.createDate)) + LongBytes(PilotTime(db.info.modifyDate))
    + LongBytes(PilotTime(db.info.backupDate)) + LongBytes(db.info.modnum)
    + LongBytes(if db.appInfo == [] then 0 else BlockStart(db))
    + LongBytes(if db.sortInfo == [] then 0 else BlockStart(db) + |db.appInfo|)
    + LongBytes(db.info.kind) + LongBytes(db.info.creator) + LongBytes(0) + LongBytes(0) + ShortBytes(|db.items|)
  }

  function Layout(db: Db): seq<byte>
    requires |db.info.name| == 34
  {
    HeaderBytes(db) + Table(db.items, DataStart(db)) + [0, 0] + db.appInfo + db.sortInfo + Flat(db.items)
  }

  // ---- reading ---------------------------------------------------------------------------------------------------

  function ReadEntry(file: seq<byte>, pos: nat, resources: bool): Entry
    requires pos + EntrySize(resources) <= |file|
  {
    if resources then Entry(ToInt32(GetLong(file, pos + 6)), 0, GetShort(file, pos + 4), 0, GetLong(file, pos), 0)
    else Entry(ToInt32(GetLong(file, pos)), 0, 0, file[pos + 4], 0, GetTreble(file, pos + 5))
  }

  /** `n` entries from `pos` on; fails when the file ends too soon. */
  function ReadEntries(file: seq<byte>, pos: nat, n: nat, resources: bool): (r: Option<seq<Entry>>)
    ensures r.Some? ==> |r.value| == n
    decreases n
  {
    if n == 0 then Some([])
    else if pos + EntrySize(resources) > |file| then None
    else
      match ReadEntries(file, pos + EntrySize(resources), n - 1, resources)
      case None => None
      case Some(rest) => Some([ReadEntry(file, pos, resources)] + rest)
  }

  /** The size of an entry that ends at `end`, as a C int. */
  function SizeUpTo(e: Entry, end: int): int { ToInt32(end - e.offset) }

  predicate Plausible(e: Entry, end: int, fileSize: int) {
    SizeUpTo(e, end) >= 0 && ToInt32(e.offset + SizeUpTo(e, end)) <= fileSize
  }

  /** The sizes, recovered from the last entry to the first. */
  function SizeEntries(entries: seq<Entry>, end: int, fileSize: int): (r: Option<seq<Entry>>)
    ensures r.Some? ==> |r.value| == |entries|
  {
    if entries == [] then Some([])
    else
      var last := entries[|entries| - 1];
      if !Plausible(last, end, fileSize) then None
      else
        match SizeEntries(entries[..|entries| - 1], last.offset, fileSize)
        case None => None
        case Some(front) => Some(front + [last.(size := SizeUpTo(last, end))])
  }

  function ReadInfo(file: seq<byte>): Info
    requires |file| >= HDR_SIZE
  {
    Info(file[..32] + [0, 0], GetShort(file, 32), GetShort(file, 34), UnixTime(GetLong(file, 36)),
         UnixTime(GetLong(file, 40)), UnixTime(GetLong(file, 44)), GetLong(file, 48), GetLong(file, 60),
         GetLong(file, 64))
  }

  /** One of the two info blocks: it runs from its offset, if there is one, to what follows it. */
  function BlockSize(offset: nat, end: int): int { if offset == 0 then 0 else ToInt32(end - offset) }

  function Open(file: seq<byte>): (r: Option<Opened>) {
    if |file| < HDR_SIZE || GetLong(file, 72) != 0 then None
    else
      var info := ReadInfo(file);
      match ReadEntries(file, HDR_SIZE, GetShort(file, 76), ForResources(info))
      case None => None
      case Some(heads) =>
        match SizeEntries(heads, |file|, |file|)
        case None => None
        case Some(entries) => WithBlocks(file, entries)
  }

  /** The info blocks of a file whose entries are known; they must lie in the file. */
  function WithBlocks(file: seq<byte>, entries: seq<Entry>): Option<Opened>
    requires |file| >= HDR_SIZE
  {
    var first: int := if entries == [] then |file| else entries[0].offset;
    var appOffset, sortOffset := GetLong(file, 52), GetLong(file, 56);
    var sortSize := BlockSize(sortOffset, first);
    var appSize := BlockSize(appOffset, if sortOffset == 0 then first else sortOffset);
    if appSize < 0 || sortOffset + sortSize > |file| || sortSize < 0 || appOffset + appSize > |file| then None
    else Some(Opened(ReadInfo(file), GetLong(file, 68), entries, file[appOffset..appOffset + appSize],
                     file[sortOffset..sortOffset + sortSize]))
  }
}
