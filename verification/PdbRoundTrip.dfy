/** Reading what was written, and the shape of everything that can be read. */
module PdbRoundTrip {
  import opened Bytes
  import opened Common
  import opened PdbFormat

  // ---- tiling ----------------------------------------------------------------------------------------------------

  /** Each entry ends where the next begins, the last one at `end`. The offsets are C ints, and so is the sum. */
  ghost predicate Tiles(entries: seq<Entry>, end: int) {
    forall i :: 0 <= i < |entries| ==>
      && 0 <= entries[i].size
      && ToInt32(entries[i].offset + entries[i].size)
         == ToInt32(if i + 1 < |entries| then entries[i + 1].offset else end)
  }

  lemma {:induction false} SizedEntriesTile(entries: seq<Entry>, end: int, fileSize: int)
    requires SizeEntries(entries, end, fileSize).Some?
    ensures var r := SizeEntries(entries, end, fileSize).value;
            && Tiles(r, end)
            && forall i :: 0 <= i < |entries| ==> r[i] == entries[i].(size := r[i].size)
  {
    if entries != [] {
      var last := entries[|entries| - 1];
      SizedEntriesTile(entries[..|entries| - 1], last.offset, fileSize);
      SizeAddsUp(last.offset, end);
    }
  }

  lemma SizeAddsUp(offset: int, end: int)
    ensures ToInt32(offset + ToInt32(end - offset)) == ToInt32(end)
  {
    var d := (ToInt32(end - offset) - (end - offset)) / 0x1_0000_0000;
    assert ToInt32(end - offset) == end - offset + 0x1_0000_0000 * d;
    WrapsAround(end, d);
  }

  lemma WrapsAround(v: int, k: int)
    ensures ToInt32(v + 0x1_0000_0000 * k) == ToInt32(v)
  {
    assert (v + 0x8000_0000 + 0x1_0000_0000 * k) % 0x1_0000_0000 == (v + 0x8000_0000) % 0x1_0000_0000;
  }

  /** Without wrap-around: every entry lies in the file and the entries follow each other without gap or overlap. */
  ghost predicate TilesExactly(entries: seq<Entry>, end: int) {
    forall i :: 0 <= i < |entries| ==>
      && 0 <= entries[i].offset && 0 <= entries[i].size
      && entries[i].offset + entries[i].size == if i + 1 < |entries| then entries[i + 1].offset else end
  }

  /** Where the offset of entry `i` is stored in a table that starts at `pos`. */
  function OffsetAt(pos: nat, i: nat, resources: bool): nat { pos + if resources then i * 10 + 6 else i * 8 }

  /** In no entry of the table has the stored offset its top bit set. */
  predicate TopBitsClear(file: seq<byte>)
    requires |file| >= HDR_SIZE
  {
    var resources := ForResources(ReadInfo(file));
    forall i: nat :: i < GetShort(file, 76) && OffsetAt(HDR_SIZE, i, resources) < |file| ==>
      file[OffsetAt(HDR_SIZE, i, resources)] < 0x80
  }

  lemma TopBitIsSign(file: seq<byte>, pos: nat)
    requires pos + 4 <= |file|
    ensures ToInt32(GetLong(file, pos)) >= 0 <==> file[pos] < 0x80
  {
  }

  lemma {:induction false} OffsetSigns(file: seq<byte>, pos: nat, n: nat, resources: bool)
    requires ReadEntries(file, pos, n, resources).Some?
    ensures forall i: nat :: i < n ==>
              && OffsetAt(pos, i, resources) + 4 <= |file|
              && (ReadEntries(file, pos, n, resources).value[i].offset >= 0
                  <==> file[OffsetAt(pos, i, resources)] < 0x80)
    decreases n
  {
    hide GetLong, GetShort, GetTreble, ToInt32;
    if n > 0 {
      OffsetSigns(file, pos + EntrySize(resources), n - 1, resources);
      TopBitIsSign(file, OffsetAt(pos, 0, resources));
      forall i: nat | 0 < i < n
        ensures OffsetAt(pos, i, resources) == OffsetAt(pos + EntrySize(resources), i - 1, resources)
      {
      }
    }
  }

  lemma {:induction false} NonNegativeTiling(entries: seq<Entry>, end: int, fileSize: int)
    requires SizeEntries(entries, end, fileSize).Some? && 0 <= end < 0x8000_0000
    requires forall i :: 0 <= i < |entries| ==> 0 <= entries[i].offset < 0x8000_0000
    ensures TilesExactly(SizeEntries(entries, end, fileSize).value, end)
  {
    if entries != [] {
      NonNegativeTiling(entries[..|entries| - 1], entries[|entries| - 1].offset, fileSize);
      SizedEntriesTile(entries[..|entries| - 1], entries[|entries| - 1].offset, fileSize);
    }
  }

  lemma {:induction false} OffsetsAreInts(file: seq<byte>, pos: nat, n: nat, resources: bool)
    requires ReadEntries(file, pos, n, resources).Some?
    ensures forall e <- ReadEntries(file, pos, n, resources).value ::
              -0x8000_0000 <= e.offset < 0x8000_0000 && e.size == 0
    decreases n
  {
    if n > 0 {
      OffsetsAreInts(file, pos + EntrySize(resources), n - 1, resources);
    }
  }

  /** Everything `pi_file_open` accepts is tiled by its entries. The arithmetic is that of C ints; it is exact, and the
    entries lie in the file, if and only if no offset stored in the table has its top bit set, which is not checked. */
  lemma AcceptedFilesAreTiled(file: seq<byte>)
    requires Open(file).Some? && |file| < 0x8000_0000
    ensures var entries := Open(file).value.entries;
            && Tiles(entries, |file|)
            && (TilesExactly(entries, |file|) <==> TopBitsClear(file))
  {
    hide ReadEntries, SizeEntries, ReadInfo, GetLong, GetShort;
    var resources := ForResources(ReadInfo(file));
    var heads := ReadEntries(file, HDR_SIZE, GetShort(file, 76), resources).value;
    var entries := Open(file).value.entries;
    SizedEntriesTile(heads, |file|, |file|);
    OffsetsAreInts(file, HDR_SIZE, GetShort(file, 76), resources);
    OffsetSigns(file, HDR_SIZE, GetShort(file, 76), resources);
    assert forall i: nat :: i < |heads| ==> heads[i] in heads && entries[i].offset == heads[i].offset;
    if TopBitsClear(file) {
      NonNegativeTiling(heads, |file|, |file|);
    }
  }

  /** A file of 86 bytes whose one record starts before the file does. */
  function StrayOffset(): seq<byte> {
    seq(77, i => 0) + [1] + [255, 255, 255, 255, 0, 0, 0, 1]
  }

  lemma StrayHeader()
    ensures var f := StrayOffset();
            && |f| == 86 && GetLong(f, 72) == 0 && GetShort(f, 76) == 1 && GetShort(f, 32) == 0
            && GetLong(f, 52) == 0 && GetLong(f, 56) == 0
  {
    var f := StrayOffset();
    assert forall i :: 0 <= i < 77 ==> f[i] == 0;
  }

  lemma StrayEntry()
    ensures |StrayOffset()| == 86 && ReadEntry(StrayOffset(), 78, false) == Entry(-1, 0, 0, 0, 0, 1)
  {
    var f := StrayOffset();
    var tail := [255, 255, 255, 255, 0, 0, 0, 1];
    assert f == (seq(77, i => 0) + [1]) + tail;
    assert f[78] == tail[0] && f[79] == tail[1] && f[80] == tail[2] && f[81] == tail[3];
    assert f[82] == tail[4] && f[83] == tail[5] && f[84] == tail[6] && f[85] == tail[7];
  }

  lemma OneEntry(file: seq<byte>, e: Entry)
    requires |file| == 86 && ReadEntry(file, 78, false) == e
    ensures ReadEntries(file, 78, 1, false) == Some([e])
  {
    hide ReadEntry;
    assert ReadEntries(file, 86, 0, false) == Some([]);
    assert [e] + [] == [e];
  }

  lemma OneSize(e: Entry)
    requires e.offset == -1
    ensures SizeEntries([e], 86, 86) == Some([e.(size := 87)])
  {
    var none: seq<Entry> := [];
    assert [e][..0] == none;
    assert SizeEntries(none, -1, 86) == Some(none);
    assert none + [e.(size := 87)] == [e.(size := 87)];
  }

  lemma NegativeOffsetIsAccepted()
    ensures var r := Open(StrayOffset());
            r.Some? && r.value.entries == [Entry(-1, 87, 0, 0, 0, 1)]
  {
    hide StrayOffset, ReadEntry, GetLong, GetShort, ReadInfo, ReadEntries, SizeEntries, ForResources;
    var file, e := StrayOffset(), Entry(-1, 0, 0, 0, 0, 1);
    StrayHeader();
    StrayEntry();
    StrayInfo(file);
    OneEntry(file, e);
    OneSize(e);
  }

  lemma StrayInfo(file: seq<byte>)
    requires |file| >= HDR_SIZE && GetShort(file, 32) == 0
    ensures !ForResources(ReadInfo(file))
  {
    hide GetLong, GetShort;
  }

  // ---- the round trip --------------------------------------------------------------------------------------------

  lemma {:induction false} FlatConcat(a: seq<Item>, b: seq<Item>)
    ensures Flat(a + b) == Flat(a) + Flat(b)
  {
    if a == [] {
      assert a + b == b;
    } else {
      assert (a + b)[1..] == a[1..] + b;
      FlatConcat(a[1..], b);
    }
  }

  lemma FlatUpTo(items: seq<Item>, i: nat)
    requires i < |items|
    ensures Flat(items[..i + 1]) == Flat(items[..i]) + items[i].bytes
    ensures |Flat(items[..i + 1])| <= |Flat(items)|
  {
    assert items[..i + 1] == items[..i] + [items[i]];
    FlatConcat(items[..i], [items[i]]);
    assert Flat([items[i]]) == items[i].bytes + Flat([]);
    assert items == items[..i + 1] + items[i + 1..];
    FlatConcat(items[..i + 1], items[i + 1..]);
  }

  /** What an entry keeps of an item: 24 bits of a record's uid, 16 of a resource's id. */
  function Head(item: Item, offset: int): Entry {
    match item
    case Record(_, attrs, uid) => Entry(offset, 0, 0, attrs, 0, uid % 0x100_0000)
    case Resource(_, kind, id) => Entry(offset, 0, id % 0x1_0000, 0, kind % 0x1_0000_0000, 0)
  }

  function ItemOffset(items: seq<Item>, start: nat, i: nat): nat
    requires i <= |items|
  {
    start + |Flat(items[..i])|
  }

  function Heads(items: seq<Item>, start: nat): (r: seq<Entry>)
    ensures |r| == |items|
  {
    seq(|items|, i requires 0 <= i < |items| => Head(items[i], ItemOffset(items, start, i)))
  }

  /** The entries of a written database: offsets as laid out, sizes as appended. */
  function Entries(items: seq<Item>, start: nat): (r: seq<Entry>)
    ensures |r| == |items|
  {
    seq(|items|, i requires 0 <= i < |items| =>
          Head(items[i], ItemOffset(items, start, i)).(size := |items[i].bytes|))
  }

  lemma EntryReadsBack(file: seq<byte>, pos: nat, item: Item, offset: nat)
    requires pos + EntrySize(item.Resource?) <= |file| && offset < 0x8000_0000
    requires file[pos..pos + EntrySize(item.Resource?)] == EntryBytes(item, offset)
    ensures ReadEntry(file, pos, item.Resource?) == Head(item, offset)
  {
    hide GetLong, GetShort, GetTreble, LongBytes, ShortBytes, TrebleBytes;
    var e := EntryBytes(item, offset);
    match item {
      case Record(_, attrs, uid) =>
        Part(file, pos, e, 0, 4);
        Part(file, pos, e, 4, 5);
        Part(file, pos, e, 5, 8);
        assert e[0..4] == LongBytes(offset) && e[4..5] == [attrs] && e[5..8] == TrebleBytes(uid);
        assert file[pos + 4] == file[pos + 4..pos + 5][0];
        LongRoundTrip(file, pos, offset);
        TrebleRoundTrip(file, pos + 5, uid);
      case Resource(_, kind, id) =>
        Part(file, pos, e, 0, 4);
        Part(file, pos, e, 4, 6);
        Part(file, pos, e, 6, 10);
        assert e[0..4] == LongBytes(kind) && e[4..6] == ShortBytes(id) && e[6..10] == LongBytes(offset);
        LongRoundTrip(file, pos, kind);
        ShortRoundTrip(file, pos + 4, id);
        LongRoundTrip(file, pos + 6, offset);
    }
  }

  /** A part of a block that lies in the file at `pos`. */
  lemma Part(file: seq<byte>, pos: nat, block: seq<byte>, i: nat, j: nat)
    requires pos + |block| <= |file| && file[pos..pos + |block|] == block && i <= j <= |block|
    ensures file[pos + i..pos + j] == block[i..j]
  {
    var a, b := file[pos + i..pos + j], block[i..j];
    forall k | 0 <= k < |a|
      ensures a[k] == b[k]
    {
      assert a[k] == file[pos + i + k] == file[pos..pos + |block|][i + k];
    }
  }

  lemma HeadsStep(items: seq<Item>, start: nat)
    requires items != []
    ensures Heads(items, start) == [Head(items[0], start)] + Heads(items[1..], start + |items[0].bytes|)
  {
    forall i | 1 <= i < |items|
      ensures ItemOffset(items, start, i) == ItemOffset(items[1..], start + |items[0].bytes|, i - 1)
    {
      assert items[..i][0] == items[0] && items[..i][1..] == items[1..][..i - 1];
    }
    assert Flat(items[..0]) == [];
  }

  lemma {:induction false} TableReadsBack(file: seq<byte>, pos: nat, items: seq<Item>, start: nat, resources: bool)
    requires forall item <- items :: item.Resource? == resources
    requires start + |Flat(items)| < 0x8000_0000
    requires pos + |Table(items, start)| <= |file| && file[pos..pos + |Table(items, start)|] == Table(items, start)
    ensures ReadEntries(file, pos, |items|, resources) == Some(Heads(items, start))
    decreases |items|
  {
    hide EntryBytes, ReadEntry, Head;
    if items == [] {
      assert Heads(items, start) == [];
    } else {
      var n, rest := EntrySize(resources), items[1..];
      var first, table := EntryBytes(items[0], start), Table(rest, start + |items[0].bytes|);
      Part(file, pos, first + table, 0, n);
      Part(file, pos, first + table, n, n + |table|);
      assert (first + table)[0..n] == first && (first + table)[n..n + |table|] == table;
      EntryReadsBack(file, pos, items[0], start);
      TableReadsBack(file, pos + n, rest, start + |items[0].bytes|, resources);
      HeadsStep(items, start);
    }
  }

  lemma {:induction false} SizesReadBack(items: seq<Item>, start: nat, fileSize: int)
    requires start + |Flat(items)| <= fileSize < 0x8000_0000
    ensures SizeEntries(Heads(items, start), start + |Flat(items)|, fileSize) == Some(Entries(items, start))
    decreases |items|
  {
    hide Head, Flat;
    var n := |items|;
    var heads := Heads(items, start);
    if n == 0 {
      assert heads == [] && Entries(items, start) == [];
    } else {
      var front, last := items[..n - 1], heads[n - 1];
      FlatUpTo(items, n - 1);
      assert items[..n] == items;
      EntriesOfFront(items, start);
      HeadOffset(items[n - 1], ItemOffset(items, start, n - 1));
      SizesReadBack(front, start, fileSize);
    }
  }

  lemma EntriesOfFront(items: seq<Item>, start: nat)
    requires items != []
    ensures var n, front := |items| - 1, items[..|items| - 1];
            && Heads(items, start)[..n] == Heads(front, start)
            && Entries(items, start)
               == Entries(front, start) + [Heads(items, start)[n].(size := |items[n].bytes|)]
  {
    hide Head, Flat;
    var n, front := |items| - 1, items[..|items| - 1];
    assert forall i :: 0 <= i < n ==> front[..i] == items[..i];
  }

  lemma HeadOffset(item: Item, offset: int)
    ensures Head(item, offset).offset == offset
  {
  }

  /** A date survives if it lies in the 32 bits that count from 1904; otherwise it is moved by whole multiples of
    those. */
  function StoredDate(t: int): (r: int)
    ensures r == t <==> 0 <= t + TIME_DELTA < 0x1_0000_0000
  {
    UnixTime(PilotTime(t) % 0x1_0000_0000)
  }

  /** What the header keeps of the database information. */
  function Stored(info: Info): Info
    requires |info.name| == 34
  {
    Info(info.name[..32] + [0, 0], info.flags % 0x1_0000, info.version % 0x1_0000, StoredDate(info.createDate),
         StoredDate(info.modifyDate), StoredDate(info.backupDate), info.modnum % 0x1_0000_0000,
         info.kind % 0x1_0000_0000, info.creator % 0x1_0000_0000)
  }

  /** The header up to the offsets of the info blocks, and the rest of it. */
  function FrontFields(db: Db): (s: seq<byte>)
    requires |db.info.name| == 34
    ensures |s| == 52
  {
    db.info.name[..32] + ShortBytes(db.info.flags) + ShortBytes(db.info.version)
    + LongBytes(PilotTime(db.info.createDate)) + LongBytes(PilotTime(db.info.modifyDate))
    + LongBytes(PilotTime(db.info.backupDate)) + LongBytes(db.info.modnum)
  }

  function BackFields(db: Db): (s: seq<byte>)
    ensures |s| == 26
  {
    LongBytes(if db.appInfo == [] then 0 else BlockStart(db))
    + LongBytes(if db.sortInfo == [] then 0 else BlockStart(db) + |db.appInfo|)
    + LongBytes(db.info.kind) + LongBytes(db.info.creator) + LongBytes(0) + LongBytes(0) + ShortBytes(|db.items|)
  }

  lemma FrontIsFields(db: Db)
    requires |db.info.name| == 34
    ensures var p := FrontFields(db);
            && p[0..32] == db.info.name[..32]
            && p[32..34] == ShortBytes(db.info.flags) && p[34..36] == ShortBytes(db.info.version)
            && p[36..40] == LongBytes(PilotTime(db.info.createDate))
            && p[40..44] == LongBytes(PilotTime(db.info.modifyDate))
            && p[44..48] == LongBytes(PilotTime(db.info.backupDate)) && p[48..52] == LongBytes(db.info.modnum)
  {
    hide LongBytes, ShortBytes, PilotTime;
  }

  lemma BackIsFields(db: Db)
    ensures var q := BackFields(db);
            && q[0..4] == LongBytes(if db.appInfo == [] then 0 else BlockStart(db))
            && q[4..8] == LongBytes(if db.sortInfo == [] then 0 else BlockStart(db) + |db.appInfo|)
            && q[8..12] == LongBytes(db.info.kind) && q[12..16] == LongBytes(db.info.creator)
            && q[16..20] == LongBytes(0) && q[20..24] == LongBytes(0) && q[24..26] == ShortBytes(|db.items|)
  {
    hide LongBytes, ShortBytes, BlockStart;
  }

  lemma HeaderParts(db: Db)
    requires |db.info.name| == 34
    ensures HeaderBytes(db) == FrontFields(db) + BackFields(db)
  {
    hide LongBytes, ShortBytes, BlockStart, PilotTime;
  }

  lemma FrontReadsBack(file: seq<byte>, db: Db)
    requires |db.info.name| == 34 && |file| >= HDR_SIZE && file[0..52] == FrontFields(db)
    ensures file[..32] == db.info.name[..32]
    ensures GetShort(file, 32) == db.info.flags % 0x1_0000 && GetShort(file, 34) == db.info.version % 0x1_0000
    ensures GetLong(file, 36) == PilotTime(db.info.createDate) % 0x1_0000_0000
    ensures GetLong(file, 40) == PilotTime(db.info.modifyDate) % 0x1_0000_0000
    ensures GetLong(file, 44) == PilotTime(db.info.backupDate) % 0x1_0000_0000
    ensures GetLong(file, 48) == db.info.modnum % 0x1_0000_0000
  {
    hide LongBytes, ShortBytes, PilotTime, GetLong, GetShort, FrontFields;
    var p := FrontFields(db);
    FrontIsFields(db);
    Part(file, 0, p, 0, 32);
    Part(file, 0, p, 32, 34);
    Part(file, 0, p, 34, 36);
    Part(file, 0, p, 36, 40);
    Part(file, 0, p, 40, 44);
    Part(file, 0, p, 44, 48);
    Part(file, 0, p, 48, 52);
    ShortRoundTrip(file, 32, db.info.flags);
    ShortRoundTrip(file, 34, db.info.version);
    LongRoundTrip(file, 36, PilotTime(db.info.createDate));
    LongRoundTrip(file, 40, PilotTime(db.info.modifyDate));
    LongRoundTrip(file, 44, PilotTime(db.info.backupDate));
    LongRoundTrip(file, 48, db.info.modnum);
    assert file[..32] == file[0..32];
  }

  lemma BackReadsBack(file: seq<byte>, db: Db)
    requires |file| >= HDR_SIZE && file[52..HDR_SIZE] == BackFields(db)
    ensures GetLong(file, 52) == if db.appInfo == [] then 0 else BlockStart(db) % 0x1_0000_0000
    ensures GetLong(file, 56) == if db.sortInfo == [] then 0 else (BlockStart(db) + |db.appInfo|) % 0x1_0000_0000
    ensures GetLong(file, 60) == db.info.kind % 0x1_0000_0000 && GetLong(file, 64) == db.info.creator % 0x1_0000_0000
    ensures GetLong(file, 68) == 0 && GetLong(file, 72) == 0 && GetShort(file, 76) == |db.items| % 0x1_0000
  {
    hide LongBytes, ShortBytes, BlockStart, GetLong, GetShort, BackFields;
    var q := BackFields(db);
    BackIsFields(db);
    Part(file, 52, q, 0, 4);
    Part(file, 52, q, 4, 8);
    Part(file, 52, q, 8, 12);
    Part(file, 52, q, 12, 16);
    Part(file, 52, q, 16, 20);
    Part(file, 52, q, 20, 24);
    Part(file, 52, q, 24, 26);
    LongRoundTrip(file, 52, if db.appInfo == [] then 0 else BlockStart(db));
    LongRoundTrip(file, 56, if db.sortInfo == [] then 0 else BlockStart(db) + |db.appInfo|);
    LongRoundTrip(file, 60, db.info.kind);
    LongRoundTrip(file, 64, db.info.creator);
    LongRoundTrip(file, 68, 0);
    LongRoundTrip(file, 72, 0);
    ShortRoundTrip(file, 76, |db.items|);
  }

  lemma HeaderReadsBack(file: seq<byte>, db: Db)
    requires |db.info.name| == 34 && |file| >= HDR_SIZE && file[..HDR_SIZE] == HeaderBytes(db)
    ensures ReadInfo(file) == Stored(db.info)
    ensures GetLong(file, 72) == 0 && GetLong(file, 68) == 0 && GetShort(file, 76) == |db.items| % 0x1_0000
    ensures GetLong(file, 52) == if db.appInfo == [] then 0 else BlockStart(db) % 0x1_0000_0000
    ensures GetLong(file, 56) == if db.sortInfo == [] then 0 else (BlockStart(db) + |db.appInfo|) % 0x1_0000_0000
  {
    hide BlockStart, PilotTime, GetLong, GetShort, HeaderBytes, UnixTime, FrontFields, BackFields;
    HeaderParts(db);
    assert file[0..52] == file[..HDR_SIZE][..52] == FrontFields(db);
    assert file[52..HDR_SIZE] == file[..HDR_SIZE][52..] == BackFields(db);
    FrontReadsBack(file, db);
    BackReadsBack(file, db);
  }

  lemma {:induction false} TableLength(items: seq<Item>, start: int, resources: bool)
    requires forall item <- items :: item.Resource? == resources
    ensures |Table(items, start)| == |items| * EntrySize(resources)
    decreases |items|
  {
    hide EntryBytes;
    if items != [] {
      TableLength(items[1..], start + |items[0].bytes|, resources);
    }
  }

  /** The sections of the file, by their offsets. */
  lemma Sections(db: Db)
    requires WellFormed(db)
    ensures var f, block := Layout(db), BlockStart(db);
            && |f| == DataStart(db) + |Flat(db.items)|
            && f[..HDR_SIZE] == HeaderBytes(db)
            && block == HDR_SIZE + |Table(db.items, DataStart(db))| + 2
            && f[HDR_SIZE..block - 2] == Table(db.items, DataStart(db))
            && f[block..block + |db.appInfo|] == db.appInfo
            && f[block + |db.appInfo|..DataStart(db)] == db.sortInfo
            && f[DataStart(db)..] == Flat(db.items)
  {
    hide HeaderBytes, Table, Flat;
    TableLength(db.items, DataStart(db), ForResources(db.info));
    var h, t, d := HeaderBytes(db), Table(db.items, DataStart(db)), Flat(db.items);
    var f := Layout(db);
    var table := h + t;
    var padded := table + [0, 0];
    var withApp := padded + db.appInfo;
    var front := withApp + db.sortInfo;
    LastPart(f, f, front, d);
    LastPart(f, front, withApp, db.sortInfo);
    LastPart(f, withApp, padded, db.appInfo);
    LastPart(f, padded, table, [0, 0]);
    LastPart(f, table, h, t);
  }

  lemma LastPart(f: seq<byte>, whole: seq<byte>, front: seq<byte>, last: seq<byte>)
    requires |whole| <= |f| && f[..|whole|] == whole && whole == front + last
    ensures |front| <= |whole| && f[..|front|] == front && f[|front|..|whole|] == last
  {
    assert f[..|front|] == whole[..|front|];
    assert f[|front|..|whole|] == whole[|front|..];
  }

  /** What `Open` computes, told from its parts. */
  lemma OpenParts(file: seq<byte>, info: Info, heads: seq<Entry>, entries: seq<Entry>, found: Opened)
    requires |file| >= HDR_SIZE && GetLong(file, 72) == 0 && ReadInfo(file) == info
    requires ReadEntries(file, HDR_SIZE, GetShort(file, 76), ForResources(info)) == Some(heads)
    requires SizeEntries(heads, |file|, |file|) == Some(entries) && WithBlocks(file, entries) == Some(found)
    ensures Open(file) == Some(found)
  {
  }

  /** Both info blocks are found by their offsets and by what follows them. */
  lemma BlocksAreFound(db: Db)
    requires WellFormed(db) && |Layout(db)| < 0x8000_0000
    ensures WithBlocks(Layout(db), Entries(db.items, DataStart(db)))
         == Some(Opened(Stored(db.info), 0, Entries(db.items, DataStart(db)), db.appInfo, db.sortInfo))
  {
    hide HeaderBytes, Table, Flat, ReadInfo, GetLong, GetShort, Heads, Stored, Layout, EntrySize;
    var f, start, block := Layout(db), DataStart(db), BlockStart(db);
    Sections(db);
    HeaderReadsBack(f, db);
    if db.items != [] {
      FirstEntry(db);
    } else {
      NoItems(db.items);
    }
    assert GetLong(f, 52) == if db.appInfo == [] then 0 else block;
    assert GetLong(f, 56) == if db.sortInfo == [] then 0 else block + |db.appInfo|;
    assert BlockSize(GetLong(f, 56), start) == |db.sortInfo|;
    assert BlockSize(GetLong(f, 52), if db.sortInfo == [] then start else block + |db.appInfo|) == |db.appInfo|;
  }

  /** Closing and reopening a database of fewer than 65536 items and 2 GB: the information as far as the header has room
    for it, every item's entry, and both info blocks. */
  lemma WrittenReadsBack(db: Db)
    requires WellFormed(db) && |db.items| < 0x1_0000 && |Layout(db)| < 0x8000_0000
    ensures Open(Layout(db))
         == Some(Opened(Stored(db.info), 0, Entries(db.items, DataStart(db)), db.appInfo, db.sortInfo))
  {
    hide HeaderBytes, Table, Flat, ReadInfo, GetLong, GetShort, ReadEntries, SizeEntries, Heads, Stored, Layout,
         EntrySize, Open, WithBlocks;
    var f, start := Layout(db), DataStart(db);
    Sections(db);
    HeaderReadsBack(f, db);
    StoredKind(db.info);
    TableReadsBack(f, HDR_SIZE, db.items, start, ForResources(db.info));
    SizesReadBack(db.items, start, |f|);
    BlocksAreFound(db);
    OpenParts(f, Stored(db.info), Heads(db.items, start), Entries(db.items, start),
              Opened(Stored(db.info), 0, Entries(db.items, start), db.appInfo, db.sortInfo));
  }

  lemma LowBit(x: nat)
    ensures x % 0x1_0000 % 2 == x % 2
  {
    var q, r := x / 0x1_0000, x % 0x1_0000;
    assert x == 2 * (0x8000 * q + r / 2) + r % 2;
  }

  lemma StoredKind(info: Info)
    requires |info.name| == 34
    ensures ForResources(Stored(info)) == ForResources(info)
  {
    hide StoredDate;
    LowBit(info.flags);
  }

  lemma NoItems(items: seq<Item>)
    requires items == []
    ensures Flat(items) == []
  {
  }

  lemma FirstEntry(db: Db)
    requires db.items != []
    ensures Entries(db.items, DataStart(db))[0].offset == DataStart(db)
  {
    assert Flat(db.items[..0]) == [];
  }
}
