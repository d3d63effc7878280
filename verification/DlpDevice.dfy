/** A device database and the DLP calls on its records (libpisock/dlp.c), with the emulation for PalmOS 1.0. */
module DlpDevice {
  import opened Bytes
  import opened Common

  const DEVICE_ERROR := -301  // PI_ERR_DLP_PALMOS: the device reports an error
  const ATTR_DELETED := 0x80
  const ATTR_ARCHIVED := 0x08
  const SAFEGUARD := 100

  datatype DbRecord = DbRecord(uid: nat, attrs: byte, category: byte, bytes: seq<byte>)

  predicate Distinct(records: seq<DbRecord>) {
    forall i, j :: 0 <= i < j < |records| ==> records[i].uid != records[j].uid
  }

  /** A record that category deletion is meant for. */
  predicate Live(r: DbRecord, category: int) {
    r.category == category && !Bit(r.attrs, ATTR_DELETED) && !Bit(r.attrs, ATTR_ARCHIVED)
  }

  function Marked(r: DbRecord): DbRecord {
    if Bit(r.attrs, ATTR_DELETED) then r else r.(attrs := r.attrs + ATTR_DELETED)
  }

  /** The device deletes a record by marking it and moving it behind all others. */
  function MoveToEnd(records: seq<DbRecord>, i: nat): seq<DbRecord>
    requires i < |records|
  {
    records[..i] + records[i + 1..] + [Marked(records[i])]
  }

  function Kept(records: seq<DbRecord>, category: int): seq<DbRecord> {
    if records == [] then []
    else
      var r := records[|records| - 1];
      Kept(records[..|records| - 1], category) + if Live(r, category) then [] else [r]
  }

  function Deleted(records: seq<DbRecord>, category: int): seq<DbRecord> {
    if records == [] then []
    else
      var r := records[|records| - 1];
      Deleted(records[..|records| - 1], category) + if Live(r, category) then [Marked(r)] else []
  }

  /** The index of the first record of the category that the device refuses to delete, or the number of records. */
  function FirstRefused(records: seq<DbRecord>, category: int, locked: set<nat>, from: nat): (k: nat)
    requires from <= |records|
    ensures from <= k <= |records|
    ensures k < |records| ==> Live(records[k], category) && records[k].uid in locked
    ensures forall i :: from <= i < k && Live(records[i], category) ==> records[i].uid !in locked
    decreases |records| - from
  {
    if from == |records| || (Live(records[from], category) && records[from].uid in locked) then from
    else FirstRefused(records, category, locked, from + 1)
  }

  /** The first record of the category at or behind `from`. */
  function NextIn(records: seq<DbRecord>, category: int, from: nat): (k: nat)
    ensures k >= from && (k >= |records| || records[k].category == category)
    ensures forall i :: from <= i < k && i < |records| ==> records[i].category != category
    decreases |records| - from
  {
    if from >= |records| || records[from].category == category then from else NextIn(records, category, from + 1)
  }

  /** One open database on a device, with the library's cursor for emulated enumeration. */
  class Device {
    const version: nat
    const maxRecSize: nat
    var records: seq<DbRecord>
    var locked: set<nat>
    var dlprecord: nat

    /** Indices travel in 16 bits, and below DLP 1.4 offsets and lengths as well. */
    ghost predicate Valid()
      reads this
    {
      |records| < 0x1_0000 && SAFEGUARD <= maxRecSize && (version < 0x0104 ==> maxRecSize <= 0xffff)
        && Distinct(records)
    }

    constructor (version: nat, maxRecSize: nat, records: seq<DbRecord>, locked: set<nat>)
      ensures this.version == version && this.maxRecSize == maxRecSize
      ensures this.records == records && this.locked == locked && dlprecord == 0
    {
      this.version, this.maxRecSize, this.records, this.locked, dlprecord := version, maxRecSize, records, locked, 0;
    }

    /** The device's answer to a read request: the bytes from `offset` on, at most `length` of them. */
    method Answer(index: nat, offset: nat, length: nat) returns (result: int, bytes: seq<byte>)
      requires index < |records| && offset <= |records[index].bytes|
      ensures bytes == records[index].bytes[offset..Min(offset + length, |records[index].bytes|)]
      ensures result == |bytes|
    {
      var all := records[index].bytes;
      bytes := all[offset..Min(offset + length, |all|)];
      result := |bytes|;
    }

    /** `dlp_ReadRecordByIndex`: below DLP 1.4 a record that fills the first request is read in two steps, because some
      devices lock up on records of the maximum size. Without a buffer only the description is read. When the device
      refuses the second step, that is an error, and the buffer holds what the first step got. */
    method ReadRecordByIndex(index: nat, buffer: bool, secondRefused: bool := false) returns (result: int, r: DbRecord)
      requires Valid()
      ensures index >= |records| ==> result < 0
      ensures index < |records| ==>
                && r == records[index].(bytes := r.bytes)
                && (result < 0 <==> secondRefused && buffer && TwoSteps(|records[index].bytes|))
      ensures index < |records| && buffer ==>
                var all := records[index].bytes;
                if result < 0 then r.bytes == all[..maxRecSize - SAFEGUARD]
                else r.bytes == all[..Min(|all|, maxRecSize)] && result == |r.bytes|
    {
      r := DbRecord(0, 0, 0, []);
      if index >= |records| {
        return DEVICE_ERROR, r;
      }
      var large, maxBufferSize := version >= 0x0104, maxRecSize - SAFEGUARD;
      var bytes;
      result, bytes := Answer(index, 0, if large then maxRecSize else if buffer then maxBufferSize else 0);
      if buffer && result == maxBufferSize && !large {
        if secondRefused {
          result := DEVICE_ERROR;
        } else {
          var rest;
          result, rest := Answer(index, maxBufferSize, SAFEGUARD);
          bytes := bytes + rest;
          result := result + maxBufferSize;
        }
      }
      r := records[index].(bytes := bytes);
    }

    /** A record of this size is read in two steps. */
    predicate TwoSteps(size: nat) { version < 0x0104 && size + SAFEGUARD >= maxRecSize }

    /** How much of a record a read by uid reaches: its requests have 16 bits for a length, so with a larger maximum
      size only what those bits hold of it is asked for, in one step. */
    function Reach(): nat
      reads this
      requires Valid()
    {
      var maxBufferSize := maxRecSize - SAFEGUARD;
      if maxBufferSize <= 0xffff then maxRecSize else maxBufferSize % 0x1_0000
    }

    /** A read by uid takes a second step at every DLP version, when its request can ask for enough to need one. */
    predicate TwoStepsById(size: nat) { maxRecSize - SAFEGUARD <= 0xffff && size + SAFEGUARD >= maxRecSize }

    /** `dlp_ReadRecordById` with a buffer. When the device refuses the second step, that is an error, and the buffer
      holds what the first step got. */
    method ReadRecordById(uid: nat, secondRefused: bool := false) returns (result: int, index: nat, r: DbRecord)
      requires Valid()
      ensures (forall s <- records :: s.uid != uid) ==> result < 0 && index == |records|
      ensures (exists s <- records :: s.uid == uid) ==>
                && index < |records| && records[index].uid == uid
                && (result < 0 <==> secondRefused && TwoStepsById(|records[index].bytes|))
                && var all := records[index].bytes;
                   if result < 0 then r == records[index].(bytes := all[..maxRecSize - SAFEGUARD])
                   else r == records[index].(bytes := all[..Min(|all|, Reach())]) && result == |r.bytes|
    {
      r := DbRecord(0, 0, 0, []);
      index := 0;
      while index < |records| && records[index].uid != uid
        invariant index <= |records| && forall j :: 0 <= j < index ==> records[j].uid != uid
      {
        index := index + 1;
      }
      if index == |records| {
        return DEVICE_ERROR, index, r;
      }
      var maxBufferSize := maxRecSize - SAFEGUARD;
      var bytes;
      result, bytes := Answer(index, 0, maxBufferSize % 0x1_0000);
      if result == maxBufferSize {
        if secondRefused {
          result := DEVICE_ERROR;
        } else {
          var rest;
          result, rest := Answer(index, maxBufferSize, SAFEGUARD);
          bytes := bytes + rest;
          result := result + maxBufferSize;
        }
      }
      r := records[index].(bytes := bytes);
    }

    /** `dlp_DeleteRecord` for one record */
    method DeleteRecord(uid: nat) returns (result: int)
      requires Valid()
      modifies this`records
      ensures Valid()
      ensures forall i :: 0 <= i < |old(records)| && old(records)[i].uid == uid && uid !in locked ==>
                result >= 0 && records == MoveToEnd(old(records), i)
      ensures uid in locked || (forall r <- old(records) :: r.uid != uid) ==> result < 0 && records == old(records)
    {
      if uid in locked {
        return DEVICE_ERROR;
      }
      for i := 0 to |records|
        invariant forall j :: 0 <= j < i ==> records[j].uid != uid
      {
        if records[i].uid == uid {
          MoveKeepsDistinct(records, i);
          records := MoveToEnd(records, i);
          return 0;
        }
      }
      result := DEVICE_ERROR;
    }

    /** `dlp_DeleteCategory` as emulated for PalmOS 1.0. Every record of the category up to the first one that the
      device refuses is deleted, none is skipped, and the result is negative even when all went well: the loop ends
      with the index that is out of range. */
    method DeleteCategory(category: int) returns (result: int)
      requires Valid()
      modifies this`records
      ensures Valid() && result < 0
      ensures var k := FirstRefused(old(records), category, locked, 0);
              records == SweptUpTo(old(records), category, k)
    {
      hide Live, Sweeping, SweptUpTo, MoveToEnd, FirstRefused;
      ghost var all := records;
      ghost var p: nat := 0;  // the original records before p have been dealt with
      SweepStarts(all, category, locked);
      var i := 0;
      while true
        invariant Valid() && i >= 0 && p <= |all| && Sweeping(all, category, locked, p, i, records)
        decreases |all| - p, |records| - i
      {
        var r;
        result, r := ReadRecordByIndex(i, false);
        if result < 0 {
          SweepEnds(all, category, locked, p, i, records);
          return;
        }
        LiveIgnoresBytes(r, records[i], category);
        SweepStep(all, category, locked, p, i, records);
        if Live(r, category) {
          result := DeleteRecord(r.uid);
          if result < 0 {
            return;
          }
          i := i - 1;
          p := p + 1;
        } else {
          p := if p < |all| then p + 1 else p;
        }
        i := i + 1;
      }
    }

    /** `dlp_ResetDBIndex`: the cursor goes back, whatever the device says to it. */
    method ResetDBIndex(refused: bool) returns (result: int)
      modifies this`dlprecord
      ensures dlprecord == 0 && (result < 0 <==> refused)
    {
      dlprecord := 0;
      result := if refused then DEVICE_ERROR else 0;
    }

    /** `dlp_ReadNextRecInCategory` as emulated for PalmOS 1.0: the first record of the category at or behind the
      cursor, which moves behind it. When the device refuses the second step of reading it, that is an error, the buffer
      holds what the first step got, and the cursor stays at the record, where the next call will find it. */
    method ReadNextRecInCategory(category: int, secondRefused: bool := false)
      returns (result: int, index: nat, r: DbRecord)
      requires Valid()
      modifies this`dlprecord
      ensures Valid()
      ensures var k := NextIn(records, category, old(dlprecord));
              if k >= |records| then result < 0 && dlprecord == After(records, category, old(dlprecord))
              else
                var all := records[k].bytes;
                && index == k && (result < 0 <==> secondRefused && TwoSteps(|all|))
                && if result < 0 then
                     && dlprecord == k && NextIn(records, category, dlprecord) == k
                     && r == records[k].(bytes := all[..maxRecSize - SAFEGUARD])
                   else
                     && dlprecord == After(records, category, old(dlprecord))
                     && r == records[k].(bytes := all[..Min(|all|, maxRecSize)])
    {
      while true
        invariant NextIn(records, category, old(dlprecord)) == NextIn(records, category, dlprecord)
        invariant old(dlprecord) <= dlprecord
        decreases |records| - dlprecord
      {
        result, r := ReadRecordByIndex(dlprecord, false);
        index := dlprecord;
        if result < 0 {
          return;
        }
        if r.category == category {
          result, r := ReadRecordByIndex(dlprecord, true, secondRefused);
          if result >= 0 {
            dlprecord := dlprecord + 1;
          }
          return;
        }
        dlprecord := dlprecord + 1;
      }
    }
  }

  // ---- deletion of a category ------------------------------------------------------------------------------------

  /** The records when the first `p` of them have been dealt with: those of the category are marked and stand last. */
  function SweptUpTo(records: seq<DbRecord>, category: int, p: nat): seq<DbRecord>
    requires p <= |records|
  {
    Kept(records[..p], category) + records[p..] + Deleted(records[..p], category)
  }

  lemma LiveIgnoresBytes(r: DbRecord, s: DbRecord, category: int)
    requires r == s.(bytes := r.bytes)
    ensures Live(r, category) == Live(s, category)
  {
  }

  /** The loop has dealt with the first `p` records, or with all and is passing the marked ones. */
  predicate Sweeping(all: seq<DbRecord>, category: int, locked: set<nat>, p: nat, i: int, now: seq<DbRecord>) {
    && p <= |all| && FirstRefused(all, category, locked, p) == FirstRefused(all, category, locked, 0)
    && now == SweptUpTo(all, category, p) && |Kept(all[..p], category)| <= i <= |now|
    && (p < |all| ==> i == |Kept(all[..p], category)|)
  }

  lemma SweepStarts(all: seq<DbRecord>, category: int, locked: set<nat>)
    ensures Sweeping(all, category, locked, 0, 0, all)
  {
  }

  lemma SweepEnds(all: seq<DbRecord>, category: int, locked: set<nat>, p: nat, i: nat, now: seq<DbRecord>)
    requires Sweeping(all, category, locked, p, i, now) && i >= |now|
    ensures now == SweptUpTo(all, category, FirstRefused(all, category, locked, 0))
  {
    SweepLength(all, category, p);
  }

  lemma {:induction false} SweepLength(records: seq<DbRecord>, category: int, p: nat)
    requires p <= |records|
    ensures |Kept(records[..p], category)| + |Deleted(records[..p], category)| == p
  {
    if p > 0 {
      assert records[..p][..p - 1] == records[..p - 1];
      SweepLength(records, category, p - 1);
    }
  }

  lemma {:induction false} DeletedAreMarked(records: seq<DbRecord>, category: int)
    ensures forall r <- Deleted(records, category) :: Bit(r.attrs, ATTR_DELETED)
  {
    if records != [] {
      DeletedAreMarked(records[..|records| - 1], category);
    }
  }

  lemma {:induction false} KeptAreNotLive(records: seq<DbRecord>, category: int)
    ensures forall r <- Kept(records, category) :: !Live(r, category)
  {
    if records != [] {
      KeptAreNotLive(records[..|records| - 1], category);
    }
  }

  /** What the loop reads: the next original record, or when there is none, a marked one. */
  lemma SweepAt(records: seq<DbRecord>, category: int, p: nat, i: nat)
    requires p <= |records| && |Kept(records[..p], category)| <= i < |SweptUpTo(records, category, p)|
    ensures |SweptUpTo(records, category, p)| == |records|
    ensures p < |records| && i == |Kept(records[..p], category)| ==> SweptUpTo(records, category, p)[i] == records[p]
    ensures p == |records| ==> !Live(SweptUpTo(records, category, p)[i], category)
  {
    SweepLength(records, category, p);
    if p == |records| {
      DeletedAreMarked(records[..p], category);
      var d := Deleted(records[..p], category);
      assert SweptUpTo(records, category, p)[i] == d[i - |Kept(records[..p], category)|];
    }
  }

  lemma MovedFrom(kept: seq<DbRecord>, r: DbRecord, rest: seq<DbRecord>, deleted: seq<DbRecord>)
    ensures var all := kept + ([r] + rest) + deleted;
            |kept| < |all| && all[|kept|] == r && MoveToEnd(all, |kept|) == kept + rest + (deleted + [Marked(r)])
  {
    hide Marked;
    var all := kept + ([r] + rest) + deleted;
    assert all[..|kept|] == kept;
    assert all[|kept| + 1..] == rest + deleted;
  }

  lemma NextPart(records: seq<DbRecord>, category: int, p: nat)
    requires p < |records|
    ensures var r := records[p];
            && Kept(records[..p + 1], category)
               == Kept(records[..p], category) + (if Live(r, category) then [] else [r])
            && Deleted(records[..p + 1], category)
               == Deleted(records[..p], category) + (if Live(r, category) then [Marked(r)] else [])
            && records[p..] == [r] + records[p + 1..]
  {
    hide Live, Marked;
    assert records[..p + 1][..p] == records[..p];
  }

  /** Keeping the next record passes it; deleting it moves it behind the others, so its place is taken by its
    successor. */
  lemma PartStep(records: seq<DbRecord>, category: int, p: nat)
    requires p < |records|
    ensures var i := |Kept(records[..p], category)|;
            && |SweptUpTo(records, category, p)| == |records| == |SweptUpTo(records, category, p + 1)|
            && i < |records| && SweptUpTo(records, category, p)[i] == records[p]
            && |Kept(records[..p + 1], category)| == (if Live(records[p], category) then i else i + 1)
            && SweptUpTo(records, category, p + 1)
               == if Live(records[p], category) then MoveToEnd(SweptUpTo(records, category, p), i)
                  else SweptUpTo(records, category, p)
  {
    hide Live, Marked, Kept, Deleted, MoveToEnd;
    SweepLength(records, category, p);
    SweepLength(records, category, p + 1);
    NextPart(records, category, p);
    var kept, deleted, rest := Kept(records[..p], category), Deleted(records[..p], category), records[p + 1..];
    MovedFrom(kept, records[p], rest, deleted);
    if !Live(records[p], category) {
      Regrouped(kept, records[p], rest, deleted);
    } else {
      assert kept + [] == kept;
    }
  }

  /** One turn of the loop. What it reads is the next original record or, behind those, a marked one. */
  lemma SweepStep(all: seq<DbRecord>, category: int, locked: set<nat>, p: nat, i: nat, now: seq<DbRecord>)
    requires i < |now| && Sweeping(all, category, locked, p, i, now)
    ensures if Live(now[i], category) then
              && p < |all|
              && (now[i].uid in locked ==> now == SweptUpTo(all, category, FirstRefused(all, category, locked, 0)))
              && (now[i].uid !in locked ==> Sweeping(all, category, locked, p + 1, i, MoveToEnd(now, i)))
            else Sweeping(all, category, locked, if p < |all| then p + 1 else p, i + 1, now)
  {
    hide Live, Marked, Kept, Deleted, MoveToEnd, SweptUpTo;
    SweepAt(all, category, p, i);
    if p < |all| {
      PartStep(all, category, p);
      PassedOn(all, category, locked, p);
    }
  }

  lemma PassedOn(all: seq<DbRecord>, category: int, locked: set<nat>, p: nat)
    requires p < |all|
    ensures FirstRefused(all, category, locked, p)
         == if Live(all[p], category) && all[p].uid in locked then p else FirstRefused(all, category, locked, p + 1)
  {
  }

  lemma Regrouped(kept: seq<DbRecord>, r: DbRecord, rest: seq<DbRecord>, deleted: seq<DbRecord>)
    ensures kept + ([r] + rest) + deleted == kept + [r] + rest + (deleted + [])
  {
  }

  /** Where record `i` stands afterwards, unless it was deleted: behind the earlier ones that were kept. */
  function NewPlace(records: seq<DbRecord>, category: int, i: nat): nat
    requires i <= |records|
  {
    |Kept(records[..i], category)|
  }

  lemma {:induction false} KeptInPlace(records: seq<DbRecord>, category: int, i: nat)
    requires i < |records| && !Live(records[i], category)
    ensures NewPlace(records, category, i) < |Kept(records, category)|
    ensures Kept(records, category)[NewPlace(records, category, i)] == records[i]
    decreases |records|
  {
    var front := records[..|records| - 1];
    if i < |front| {
      KeptInPlace(front, category, i);
      assert front[..i] == records[..i];
    }
  }

  lemma {:induction false} DeletedInPlace(records: seq<DbRecord>, category: int, i: nat)
    requires i < |records| && Live(records[i], category)
    ensures Marked(records[i]) in Deleted(records, category)
    decreases |records|
  {
    var front := records[..|records| - 1];
    if i < |front| {
      DeletedInPlace(front, category, i);
    }
  }

  lemma {:induction false} PlacesAscend(records: seq<DbRecord>, category: int, i: nat, j: nat)
    requires i < j <= |records| && !Live(records[i], category)
    ensures NewPlace(records, category, i) < NewPlace(records, category, j)
    decreases j
  {
    assert records[..j][..j - 1] == records[..j - 1];
    if i < j - 1 {
      PlacesAscend(records, category, i, j - 1);
    }
  }

  /** What the emulated deletion of a category comes to when the device refuses none of its records: no live record of
    the category is left; every other record is unchanged, and they stand in the order they had; every record deleted is
    still there, marked. */
  lemma CategoryIsGone(records: seq<DbRecord>, category: int, locked: set<nat>)
    requires FirstRefused(records, category, locked, 0) == |records|
    ensures var after := SweptUpTo(records, category, FirstRefused(records, category, locked, 0));
            && |after| == |records|
            && (forall r <- after :: !Live(r, category))
            && (forall i :: 0 <= i < |records| && !Live(records[i], category) ==>
                  NewPlace(records, category, i) < |after| && after[NewPlace(records, category, i)] == records[i])
            && (forall i, j :: 0 <= i < j < |records| && !Live(records[i], category) && !Live(records[j], category) ==>
                  NewPlace(records, category, i) < NewPlace(records, category, j))
            && (forall i :: 0 <= i < |records| && Live(records[i], category) ==> Marked(records[i]) in after)
  {
    hide Kept, Deleted;
    var n := |records|;
    assert records[..n] == records && records[n..] == [];
    var kept, deleted := Kept(records, category), Deleted(records, category);
    SweepLength(records, category, n);
    KeptAreNotLive(records, category);
    DeletedAreMarked(records, category);
    assert SweptUpTo(records, category, n) == kept + deleted;
    forall i | 0 <= i < n && !Live(records[i], category)
      ensures NewPlace(records, category, i) < |kept| && kept[NewPlace(records, category, i)] == records[i]
    {
      KeptInPlace(records, category, i);
    }
    forall i, j | 0 <= i < j < n && !Live(records[i], category)
      ensures NewPlace(records, category, i) < NewPlace(records, category, j)
    {
      PlacesAscend(records, category, i, j);
    }
    forall i | 0 <= i < n && Live(records[i], category) ensures Marked(records[i]) in deleted {
      DeletedInPlace(records, category, i);
    }
  }

  /** A refusal ends the loop where it stands: from the record refused on nothing has changed. */
  lemma RefusalStops(records: seq<DbRecord>, category: int, locked: set<nat>)
    requires FirstRefused(records, category, locked, 0) < |records|
    ensures var k := FirstRefused(records, category, locked, 0);
            var after := SweptUpTo(records, category, k);
            && |after| == |records| && NewPlace(records, category, k) + |records| - k <= |after|
            && after[NewPlace(records, category, k)..][..|records| - k] == records[k..]
            && Live(after[NewPlace(records, category, k)], category)
  {
    var k := FirstRefused(records, category, locked, 0);
    SweepLength(records, category, k);
    var kept, deleted := Kept(records[..k], category), Deleted(records[..k], category);
    assert SweptUpTo(records, category, k)[|kept|..] == records[k..] + deleted;
    SweepAt(records, category, k, |kept|);
  }

  // ---- enumeration of a category ---------------------------------------------------------------------------------

  /** The cursor after a call: behind the record found, or where the search ended. */
  function After(records: seq<DbRecord>, category: int, from: nat): nat {
    var k := NextIn(records, category, from);
    if k < |records| then k + 1 else k
  }

  /** An enumeration under way: the indices returned so far, calls that failed left out, and the cursor. */
  datatype Enumeration = Enumeration(visited: seq<nat>, cursor: nat)

  function Call(records: seq<DbRecord>, category: int, e: Enumeration): Enumeration {
    var k := NextIn(records, category, e.cursor);
    Enumeration(if k < |records| then e.visited + [k] else e.visited, After(records, category, e.cursor))
  }

  /** `n` calls on an unchanging database, the first one after a reset. */
  function Calls(records: seq<DbRecord>, category: int, n: nat): Enumeration {
    if n == 0 then Enumeration([], 0) else Call(records, category, Calls(records, category, n - 1))
  }

  /** A caller that resets the cursor and then reads `n` times: the records that were found, and their indices. */
  method Enumerate(device: Device, category: int, n: nat, resetRefused: bool)
    returns (visited: seq<nat>, found: seq<DbRecord>)
    requires device.Valid()
    modifies device`dlprecord
    ensures device.Valid()
    ensures Calls(device.records, category, n) == Enumeration(visited, device.dlprecord)
    ensures |found| == |visited| && forall i :: 0 <= i < |found| ==>
              && visited[i] < |device.records|
              && var r := device.records[visited[i]];
                 found[i] == r.(bytes := r.bytes[..Min(|r.bytes|, device.maxRecSize)])
  {
    var result := device.ResetDBIndex(resetRefused);
    visited, found := [], [];
    for i := 0 to n
      invariant device.Valid()
      invariant Calls(device.records, category, i) == Enumeration(visited, device.dlprecord)
      invariant |found| == |visited| && forall i :: 0 <= i < |found| ==>
                  && visited[i] < |device.records|
                  && var r := device.records[visited[i]];
                     found[i] == r.(bytes := r.bytes[..Min(|r.bytes|, device.maxRecSize)])
    {
      var index, r;
      result, index, r := device.ReadNextRecInCategory(category);
      if result >= 0 {
        visited, found := visited + [index], found + [r];
      }
    }
  }

  predicate Ascending(s: seq<nat>) { forall i, j :: 0 <= i < j < |s| ==> s[i] < s[j] }

  /** `v` lists the indices below `c` of records of the category. */
  ghost predicate Lists(v: seq<nat>, records: seq<DbRecord>, category: int, c: nat) {
    forall k: nat :: k in v <==> k < c && k < |records| && records[k].category == category
  }

  /** What is known after `n` calls. */
  ghost predicate Enumerated(e: Enumeration, n: nat, records: seq<DbRecord>, category: int) {
    && Ascending(e.visited) && |e.visited| <= n && Lists(e.visited, records, category, e.cursor)
    && (|e.visited| < n ==>
          NextIn(records, category, e.cursor) >= |records| && Lists(e.visited, records, category, |records|))
  }

  /** Enumeration over whole runs: the calls visit records of the category only, in ascending order and so none twice;
    they have visited every one that is before the cursor; and once a call has failed, every record of the category has
    been visited and all later calls fail. */
  lemma {:induction false} Enumerates(records: seq<DbRecord>, category: int, n: nat)
    ensures Enumerated(Calls(records, category, n), n, records, category)
  {
    if n > 0 {
      Enumerates(records, category, n - 1);
      CallKeeps(Calls(records, category, n - 1), n - 1, records, category);
    }
  }

  lemma CallKeeps(e: Enumeration, n: nat, records: seq<DbRecord>, category: int)
    requires Enumerated(e, n, records, category)
    ensures Enumerated(Call(records, category, e), n + 1, records, category)
  {
    hide NextIn, Ascending, Lists;
    NextBeyond(records, category, e.cursor);
    ListsMore(e.visited, records, category, e.cursor);
  }

  /** No record of the category lies between the cursor and the next one found. */
  lemma ListsMore(v: seq<nat>, records: seq<DbRecord>, category: int, c: nat)
    requires Ascending(v) && Lists(v, records, category, c)
    ensures var k := NextIn(records, category, c);
            && (k < |records| ==> Ascending(v + [k]) && Lists(v + [k], records, category, k + 1))
            && (k >= |records| ==> Lists(v, records, category, k) && Lists(v, records, category, |records|))
  {
    var k := NextIn(records, category, c);
    OneMoreAscends(v, k);
  }

  lemma OneMoreAscends(v: seq<nat>, k: nat)
    requires Ascending(v) && forall j <- v :: j < k
    ensures Ascending(v + [k])
  {
    assert forall i :: 0 <= i < |v| ==> v[i] in v;
  }

  lemma NextBeyond(records: seq<DbRecord>, category: int, from: nat)
    ensures NextIn(records, category, from) >= |records|
            ==> NextIn(records, category, NextIn(records, category, from)) >= |records|
  {
  }

  /** One call for every record and one more always reach the failure. */
  lemma EnumerationEnds(records: seq<DbRecord>, category: int)
    ensures var e := Calls(records, category, |records| + 1);
            && |e.visited| <= |records| && Lists(e.visited, records, category, |records|)
            && NextIn(records, category, e.cursor) >= |records|
  {
    var n := |records|;
    Enumerates(records, category, n + 1);
    AscendingBelow(Calls(records, category, n + 1).visited, n);
  }

  lemma {:induction false} AscendingBelow(s: seq<nat>, n: nat)
    requires Ascending(s) && forall k <- s :: k < n
    ensures |s| <= n
    decreases n
  {
    if s != [] {
      var m := |s| - 1;
      assert s[m] in s;
      AscendingBelow(s[..m], s[m]);
    }
  }

  lemma MoveKeepsDistinct(records: seq<DbRecord>, i: nat)
    requires i < |records| && Distinct(records)
    ensures Distinct(MoveToEnd(records, i)) && |MoveToEnd(records, i)| == |records|
  {
    var r := MoveToEnd(records, i);
    assert forall k :: 0 <= k < |r| ==> r[k].uid == records[if k < i then k else if k < |r| - 1 then k + 1 else i].uid;
  }
}
