/** `pack_CalendarEvent` and `unpack_CalendarEvent` of libpisock/calendar.c and the blobs of libpisock/blob.c. */
module CalendarCodec {
  import opened Bytes
  import opened Common
  import opened Bits
  import opened PiBuffer
  import opened Fields
  import opened CalendarFormat

  /** The record up to the moving pointer. */
  ghost predicate Written(buf: Buffer, at: nat, bytes: seq<byte>)
    reads buf, buf.data
  {
    at <= buf.data.Length && buf.data[..at] == bytes
  }

  method Put(buf: Buffer, at: nat, src: seq<byte>, ghost bytes: seq<byte>) returns (next: nat)
    requires buf.Valid() && Written(buf, at, bytes) && at + |src| <= buf.data.Length
    modifies buf.data
    ensures next == at + |src| && Written(buf, next, bytes + src)
  {
    hide Overlay;
    ghost var mem := buf.data[..];
    buf.Store(at, src);
    next := at + |src|;
    OverlayBehind(mem, at, src);
  }

  lemma OverlayBehind(mem: seq<byte>, at: nat, src: seq<byte>)
    requires at + |src| <= |mem|
    ensures Overlay(mem, at, src)[..at + |src|] == mem[..at] + src
  {
    var r := Overlay(mem, at, src);
    assert r[..at + |src|] == r[..at] + r[at..at + |src|];
  }

  // ---- dates -----------------------------------------------------------------------------------------------------

  /** `((year - 4) << 9) | ((mon + 1) << 5) | mday`, whose parts do not overlap for a month and a day of a date. */
  function ShiftedDate(d: Date): int { (d.year - 4) * 512 + (d.mon + 1) * 32 + d.day }

  lemma ShiftedDateBytes(d: Date)
    requires RealDay(d)
    ensures ShortBytes(ShiftedDate(d)) == ShortBytes(DateWord(d))
  {
    hide ShortBytes;
    SameShort(ShiftedDate(d), DateWord(d), (d.year - 4) / 128);
  }

  lemma SameShort(v: int, w: int, q: int)
    requires v == w + 0x1_0000 * q
    ensures ShortBytes(v) == ShortBytes(w)
  {
    var h, l := w / 0x100, w % 0x100;
    assert v == 0x100 * (h + 0x100 * q) + l;
    assert v / 0x100 == h + 0x100 * q;
  }

  // ---- packing ---------------------------------------------------------------------------------------------------

  /** The first part of `pack_CalendarEvent`: the length of what is in front of the blobs. */
  method Room(e: Event) returns (destlen: nat)
    requires WellFormed(e)
    ensures destlen == |Front(e)|
  {
    hide Dates;
    destlen := 8;
    if e.alarm.Some? {
      destlen := destlen + 2;
    }
    if e.repeat.Some? {
      destlen := destlen + 8;
    }
    if e.exceptions != [] {
      DatesLength(e.exceptions, |e.exceptions|);
      destlen := destlen + 2 + 2 * |e.exceptions|;
    }
    if e.note.Some? {
      destlen := destlen + |e.note.value| + 1;
    }
    if e.description.Some? {
      destlen := destlen + |e.description.value| + 1;
    }
    if e.location.Some? {
      destlen := destlen + |e.location.value| + 1;
    }
  }

  method PutAlarm(buf: Buffer, start: nat, a: Option<Alarm>, ghost bytes: seq<byte>) returns (at: nat, flag: nat)
    requires buf.Valid() && Written(buf, start, bytes) && start + |AlarmBytes(a)| <= buf.data.Length
    modifies buf.data
    ensures at == start + |AlarmBytes(a)| && Written(buf, at, bytes + AlarmBytes(a))
    ensures flag == if a.Some? then ALARM else 0
  {
    hide Written;
    assert bytes + [] == bytes;
    at, flag := start, 0;
    if a.Some? {
      flag := ALARM;
      at := Put(buf, at, [a.value.advance % 256, a.value.units % 256], bytes);
    }
  }

  /** The days as a byte. */
  method DaysByte(r: Repeat) returns (on: nat)
    requires |r.days| == 7
    ensures on == OnDays(r)
  {
    hide OrBit;
    on := 0;
    if r.kind == MONTHLY_BY_DAY {
      on := r.day % 256;
    } else if r.kind == WEEKLY {
      for i := 0 to 7
        invariant on == Mask(r.days, i)
      {
        if r.days[i] {
          on := OrBit(on, i);
        }
      }
    }
  }

  method PutRepeat(buf: Buffer, start: nat, r: Option<Repeat>, ghost bytes: seq<byte>) returns (at: nat, flag: nat)
    requires r.Some? ==> |r.value.days| == 7 && (r.value.until.Some? ==> RealDay(r.value.until.value))
    requires buf.Valid() && Written(buf, start, bytes) && start + |RepeatBytes(r)| <= buf.data.Length
    modifies buf.data
    ensures at == start + |RepeatBytes(r)| && Written(buf, at, bytes + RepeatBytes(r))
    ensures flag == if r.Some? then REPEAT else 0
  {
    hide Written, ShortBytes, OnDays, DateWord, ShiftedDate;
    assert bytes + [] == bytes;
    at, flag := start, 0;
    if r.Some? {
      flag := REPEAT;
      var v := r.value;
      var on := DaysByte(v);
      ghost var so := bytes + [v.kind % 256, 0];
      at := Put(buf, at, [v.kind % 256, 0], bytes);
      var day: int := FOREVER;
      if v.until.Some? {
        day := ShiftedDate(v.until.value);
        ShiftedDateBytes(v.until.value);
      }
      at := Put(buf, at, ShortBytes(day), so);
      at := Put(buf, at, [v.frequency % 256, on % 256, v.weekstart % 256, 0], so + ShortBytes(day));
      assert so + ShortBytes(day) + [v.frequency % 256, on % 256, v.weekstart % 256, 0] == bytes + RepeatBytes(r);
    }
  }

  method PutExceptions(buf: Buffer, start: nat, dates: seq<Date>, ghost bytes: seq<byte>) returns (at: nat, flag: nat)
    requires forall i :: 0 <= i < |dates| ==> RealDay(dates[i])
    requires buf.Valid() && Written(buf, start, bytes) && start + |ExceptionBytes(dates)| <= buf.data.Length
    modifies buf.data
    ensures at == start + |ExceptionBytes(dates)| && Written(buf, at, bytes + ExceptionBytes(dates))
    ensures flag == if dates != [] then EXCEPT else 0
  {
    hide Written, ShortBytes, DateWord, ShiftedDate, Dates;
    assert bytes + [] == bytes;
    at, flag := start, 0;
    if dates != [] {
      flag := EXCEPT;
      DatesLength(dates, |dates|);
      at := Put(buf, at, ShortBytes(|dates|), bytes);
      ghost var head := bytes + ShortBytes(|dates|);
      DatesNone(dates, head);
      for i := 0 to |dates|
        invariant at == start + 2 + 2 * i && Written(buf, at, head + Dates(dates, i))
      {
        ShiftedDateBytes(dates[i]);
        at := Put(buf, at, ShortBytes(ShiftedDate(dates[i])), head + Dates(dates, i));
        DatesNext(dates, i, head);
      }
      assert head + Dates(dates, |dates|) == bytes + ExceptionBytes(dates);
    }
  }

  lemma DatesNone(dates: seq<Date>, head: seq<byte>)
    ensures head + Dates(dates, 0) == head
  {
  }

  lemma DatesNext(dates: seq<Date>, i: nat, head: seq<byte>)
    requires i < |dates|
    ensures head + Dates(dates, i + 1) == head + Dates(dates, i) + ShortBytes(DateWord(dates[i]))
  {
  }

  method PutText(buf: Buffer, start: nat, t: Option<text>, bit: nat, ghost bytes: seq<byte>)
    returns (at: nat, flag: nat)
    requires buf.Valid() && Written(buf, start, bytes) && start + |TextBytes(t)| <= buf.data.Length
    modifies buf.data
    ensures at == start + |TextBytes(t)| && Written(buf, at, bytes + TextBytes(t)) && flag == if t.Some? then bit else 0
  {
    hide Written;
    assert bytes + [] == bytes;
    at, flag := start, 0;
    if t.Some? {
      flag := bit;
      at := Put(buf, at, t.value + [0], bytes);
    }
  }

  /** The times and the day, in front of the flags. */
  method PutTimes(buf: Buffer, e: Event)
    requires buf.Valid() && WellFormed(e) && FIXED <= buf.data.Length
    modifies buf.data
    ensures buf.data[..6] == Fixed(e)[..6]
  {
    hide ShortBytes, DateWord, ShiftedDate, Flags, Overlay;
    ghost var mem := buf.data[..];
    var times := [e.begin.hour % 256, e.begin.min % 256, e.end.hour % 256, e.end.min % 256];
    var day := ShortBytes(ShiftedDate(e.begin.date));
    ShiftedDateBytes(e.begin.date);
    assert Written(buf, 0, []);
    var at := Put(buf, 0, times, []);
    assert [] + times == times;
    at := Put(buf, at, day, times);
    if e.timeless {
      ghost var now := buf.data[..];
      var ones: seq<byte> := [0xff, 0xff, 0xff, 0xff];
      buf.Store(0, ones);
      TimesGone(now, ones, times, day);
    }
    assert Fixed(e)[..6] == (if e.timeless then [0xff, 0xff, 0xff, 0xff] else times) + day;
  }

  lemma TimesGone(mem: seq<byte>, ones: seq<byte>, times: seq<byte>, day: seq<byte>)
    requires |ones| == |times| == 4 && |day| == 2 && |mem| >= 6 && mem[..6] == times + day
    ensures Overlay(mem, 0, ones)[..6] == ones + day
  {
    var r := Overlay(mem, 0, ones);
    assert r[0..4] == ones;
    assert r[4] == mem[..6][4] && r[5] == mem[..6][5];
    assert r[..6] == r[0..4] + [r[4], r[5]];
  }

  /** `pack_Blob` */
  method PackBlob(b: Blob, buf: Buffer)
    requires ValidBlob(b) && buf.Valid()
    modifies buf, buf.data
    ensures buf.Valid() && buf.Contents() == old(buf.Contents()) + BlobBytes(Some(b))
    ensures buf.data == old(buf.data) || fresh(buf.data)
  {
    hide Written, ShortBytes;
    ghost var so := buf.Contents();
    var offset := buf.used;
    buf.Expect(buf.used + 6 + b.length);
    buf.used := buf.used + 6 + b.length;
    assert Written(buf, offset, so) by { Unmoved(buf, offset, so); }
    offset := Put(buf, offset, b.kind, so);
    offset := Put(buf, offset, ShortBytes(b.length), so + b.kind);
    offset := Put(buf, offset, b.data, so + b.kind + ShortBytes(b.length));
    assert so + b.kind + ShortBytes(b.length) + b.data == so + BlobBytes(Some(b));
    WrittenIs(buf, offset, so + BlobBytes(Some(b)));
  }

  lemma Unmoved(buf: Buffer, at: nat, bytes: seq<byte>)
    requires at <= buf.data.Length && buf.data[..at] == bytes
    ensures Written(buf, at, bytes)
  {
  }

  lemma WrittenIs(buf: Buffer, at: nat, bytes: seq<byte>)
    requires Written(buf, at, bytes)
    ensures at <= buf.data.Length && buf.data[..at] == bytes
  {
  }

  /** The flags, written when they are known. */
  method PutFlags(buf: Buffer, at: nat, flags: byte, ghost head: seq<byte>, ghost junk: seq<byte>,
                  ghost body: seq<byte>)
    requires buf.Valid() && |head| == 6 && |junk| == 2 && Written(buf, at, head + junk + body)
    modifies buf.data
    ensures Written(buf, at, head + [flags, 0] + body)
  {
    hide Overlay;
    ghost var mem := buf.data[..];
    buf.Store(6, [flags, 0]);
    FlagsPlaced(mem, at, flags, head, junk, body);
  }

  lemma FlagsPlaced(mem: seq<byte>, at: nat, flags: byte, head: seq<byte>, junk: seq<byte>, body: seq<byte>)
    requires |head| == 6 && |junk| == 2 && at <= |mem| && mem[..at] == head + junk + body
    ensures Overlay(mem, 6, [flags, 0])[..at] == head + [flags, 0] + body
  {
    var r := Overlay(mem, 6, [flags, 0]);
    assert r[..6] == mem[..6] == mem[..at][..6] == head;
    assert r[6..8] == [flags, 0];
    assert forall k :: 8 <= k < at ==> r[k] == mem[k] == mem[..at][k];
    assert r[8..at] == mem[..at][8..] == body;
    assert r[..at] == r[..6] + r[6..8] + r[8..at];
  }

  /** Everything in front of the blobs. */
  method PutFront(e: Event, buf: Buffer)
    requires WellFormed(e) && buf.Valid() && |Front(e)| <= buf.data.Length
    modifies buf.data
    ensures Written(buf, |Front(e)|, Front(e))
  {
    hide Written, AlarmBytes, RepeatBytes, ExceptionBytes, TextBytes, Fixed;
    PutTimes(buf, e);
    ghost var head, junk := Fixed(e)[..6], buf.data[6..8];
    ghost var start := head + junk;
    assert Written(buf, FIXED, start) by { HeadAndJunk(buf, head, junk); }
    ghost var a, r, x := AlarmBytes(e.alarm), RepeatBytes(e.repeat), ExceptionBytes(e.exceptions);
    ghost var d, n, l := TextBytes(e.description), TextBytes(e.note), TextBytes(e.location);
    var at, f1 := PutAlarm(buf, FIXED, e.alarm, start);
    var f2, f3, f4, f5, f6;
    at, f2 := PutRepeat(buf, at, e.repeat, start + a);
    at, f3 := PutExceptions(buf, at, e.exceptions, start + a + r);
    at, f4 := PutText(buf, at, e.description, DESC, start + a + r + x);
    at, f5 := PutText(buf, at, e.note, NOTE, start + a + r + x + d);
    at, f6 := PutText(buf, at, e.location, LOC, start + a + r + x + d + n);
    Body(start, a, r, x, d, n, l);
    PutFlags(buf, at, f1 + f2 + f3 + f4 + f5 + f6, head, junk, a + r + x + d + n + l);
    FixedIs(e);
    Body(Fixed(e), a, r, x, d, n, l);
  }

  lemma HeadAndJunk(buf: Buffer, head: seq<byte>, junk: seq<byte>)
    requires buf.data.Length >= FIXED && buf.data[..6] == head && buf.data[6..8] == junk
    ensures Written(buf, FIXED, head + junk)
  {
    assert buf.data[..8] == buf.data[..6] + buf.data[6..8];
  }

  lemma FixedIs(e: Event)
    ensures Fixed(e) == Fixed(e)[..6] + [Flags(e), 0]
  {
    hide Flags, ShortBytes, DateWord;
  }

  lemma Body(s: seq<byte>, a: seq<byte>, r: seq<byte>, x: seq<byte>, d: seq<byte>, n: seq<byte>, l: seq<byte>)
    ensures s + a + r + x + d + n + l == s + (a + r + x + d + n + l)
  {
  }

  /** `pack_CalendarEvent`. Whatever the buffer held is overwritten. */
  method Pack(e: Event, buf: Buffer) returns (result: int)
    requires WellFormed(e) && buf.Valid()
    modifies buf, buf.data
    ensures buf.Valid() && buf.Contents() == Packed(e) && result == 0
  {
    hide Front, Written, BlobBytes;
    var destlen := Room(e);
    buf.Expect(destlen);
    buf.used := destlen;
    PutFront(e, buf);
    WrittenIs(buf, destlen, Front(e));
    ghost var so := Front(e);
    assert so + BlobsFrom(e.blobs, 0) == Packed(e) by { PackedIs(e); }
    for i := 0 to MAX_BLOBS
      invariant buf.Valid() && buf.Contents() == so && so + BlobsFrom(e.blobs, i) == Packed(e)
      invariant buf.data == old(buf.data) || fresh(buf.data)
    {
      BlobsNext(so, e.blobs, i);
      if e.blobs[i].Some? {
        PackBlob(e.blobs[i].value, buf);
        so := so + BlobBytes(e.blobs[i]);
      }
    }
    assert so + [] == so;
    result := 0;
  }

  lemma PackedIs(e: Event)
    requires WellFormed(e)
    ensures Front(e) + BlobsFrom(e.blobs, 0) == Packed(e)
  {
  }

  lemma BlobsNext(so: seq<byte>, blobs: seq<Option<Blob>>, i: nat)
    requires i < |blobs|
    ensures so + BlobsFrom(blobs, i) == so + BlobBytes(blobs[i]) + BlobsFrom(blobs, i + 1)
    ensures blobs[i].None? ==> so + BlobBytes(blobs[i]) == so
  {
    hide BlobBytes;
    Associates(so, BlobBytes(blobs[i]), BlobsFrom(blobs, i + 1));
    if blobs[i].None? {
      NoBlob(so, blobs[i]);
    }
  }

  lemma NoBlob(so: seq<byte>, b: Option<Blob>)
    requires b.None?
    ensures so + BlobBytes(b) == so
  {
  }

  // ---- unpacking -------------------------------------------------------------------------------------------------

  method TakeRepeat(data: seq<byte>, pos: nat, flag: bool) returns (r: Part<Option<Repeat>>)
    ensures r == ReadRepeat(data, pos, flag)
  {
    hide GetShort, WordDate, BitAt;
    if !flag {
      return Part(None, pos);
    }
    if pos + 8 > |data| {
      return Overrun;
    }
    var kind, d, on := data[pos], GetShort(data, pos + 2), data[pos + 5];
    var until := if d == FOREVER then None else Some(WordDate(d));
    var day, days := 0, NO_DAYS;
    if kind == MONTHLY_BY_DAY {
      day := on;
    } else if kind == WEEKLY {
      days := [];
      for i := 0 to 7
        invariant |days| == i && forall j :: 0 <= j < i ==> days[j] == BitAt(on, j)
      {
        days := days + [BitAt(on, i)];
      }
      assert days == DaysOf(on);
    }
    r := Part(Some(Repeat(kind, until, data[pos + 4], day, days, data[pos + 6])), pos + 8);
  }

  method TakeExceptions(data: seq<byte>, start: nat, flag: bool) returns (r: Part<seq<Date>>)
    ensures r == ReadExceptions(data, start, flag)
  {
    hide GetShort, WordDate;
    if !flag {
      return Part([], start);
    }
    if start + 2 > |data| {
      return Overrun;
    }
    var n, pos := GetShort(data, start), start + 2;
    if pos + 2 * n > |data| {
      return Overrun;
    }
    var dates := [];
    for i := 0 to n
      invariant pos == start + 2 + 2 * i && |dates| == i
      invariant forall j :: 0 <= j < i ==> dates[j] == WordDate(GetShort(data, start + 2 + 2 * j))
    {
      dates := dates + [WordDate(GetShort(data, pos))];
      pos := pos + 2;
    }
    assert dates == ReadDates(data, start + 2, n);
    r := Part(dates, pos);
  }

  method TakeText(data: seq<byte>, pos: nat, flag: bool) returns (r: Part<Option<text>>)
    ensures r == ReadText(data, pos, flag)
  {
    if !flag {
      return Part(None, pos);
    }
    if pos >= |data| {
      return Overrun;
    }
    var k := FindTerminator(data, pos);
    if k == |data| {
      return Overrun;
    }
    var t: text := data[pos..k];
    r := Part(Some(t), k + 1);
  }

  /** `unpack_Blob_p` */
  method UnpackBlob(data: seq<byte>, pos: nat) returns (r: Part<Blob>)
    ensures r == ReadBlob(data, pos)
  {
    hide GetShort;
    if pos + 6 > |data| {
      return Overrun;
    }
    var length: int := GetShort(data, pos + 4);
    if length >= 0x8000 {
      length := length - 0x1_0000;
    }
    var at, bytes := pos + 6, [];
    if length > 0 {
      if at + length > |data| {
        return Overrun;
      }
      bytes := data[at..at + length];
      at := at + length;
    }
    assert bytes == data[pos + 6..at];
    r := Part(Blob(data[pos..pos + 4], length, bytes), at);
  }

  /** The blobs at the end of a record. */
  method TakeBlobs(data: seq<byte>, start: nat) returns (r: Tail)
    requires start <= |data|
    ensures r == ReadBlobs(data, start, [])
  {
    hide ReadBlob;
    var blobs, pos := [], start;
    while |data| - pos > 6
      invariant pos <= |data| && |blobs| <= MAX_BLOBS && ReadBlobs(data, start, []) == ReadBlobs(data, pos, blobs)
      decreases |data| - pos
    {
      if |blobs| >= MAX_BLOBS {
        return Bad;
      }
      var b := UnpackBlob(data, pos);
      BlobMoves(data, pos);
      if !b.Part? {
        return OverrunTail;
      }
      if b.value.kind == TIMEZONE {
        return HasTimezone;
      }
      blobs := blobs + [b.value];
      pos := b.next;
    }
    if pos < |data| {
      return Bad;
    }
    r := Tail(blobs);
  }

  lemma BlobMoves(data: seq<byte>, pos: nat)
    ensures ReadBlob(data, pos).Part? ==> pos < ReadBlob(data, pos).next <= |data|
  {
  }

  /** The optional sections of `unpack_CalendarEvent`. */
  method TakeSections(data: seq<byte>, flags: nat) returns (r: Part<Sections>)
    ensures r == ReadSections(data, flags)
  {
    hide ReadRepeat, ReadExceptions, ReadText, Bit;
    var pos, alarm := FIXED, None;
    if Bit(flags, ALARM) {
      if pos + 2 > |data| {
        return Overrun;
      }
      alarm := Some(Alarm(data[pos], data[pos + 1]));
      pos := pos + 2;
    }
    var repeat := TakeRepeat(data, pos, Bit(flags, REPEAT));
    if !repeat.Part? {
      return Overrun;
    }
    var exceptions := TakeExceptions(data, repeat.next, Bit(flags, EXCEPT));
    if !exceptions.Part? {
      return Overrun;
    }
    var description := TakeText(data, exceptions.next, Bit(flags, DESC));
    if !description.Part? {
      return Overrun;
    }
    var note := TakeText(data, description.next, Bit(flags, NOTE));
    if !note.Part? {
      return Overrun;
    }
    var location := TakeText(data, note.next, Bit(flags, LOC));
    if !location.Part? {
      return Overrun;
    }
    r := Part(Sections(alarm, repeat.value, exceptions.value, description.value, note.value, location.value),
              location.next);
  }

  /** `unpack_CalendarEvent` */
  method Extract(data: seq<byte>) returns (r: Unpacked)
    ensures r == Unpack(data)
  {
    hide ReadSections, ReadBlobs, GetShort, WordDate, Slots;
    if |data| < FIXED {
      return Failed;
    }
    var begin, end, timeless := TakeTimes(data);
    var sections := TakeSections(data, data[6]);
    if !sections.Part? {
      return OverrunRecord;
    }
    SectionsInside(data, data[6]);
    var tail := TakeBlobs(data, sections.next);
    if !tail.Tail? {
      return if tail.Bad? then Failed else if tail.HasTimezone? then Timezone else OverrunRecord;
    }
    var s := sections.value;
    r := Done(Event(timeless, begin, end, s.alarm, s.repeat, s.exceptions, s.description, s.note, s.location,
                    Slots(tail.blobs)));
  }

  /** The times, which all ones wipe out. */
  method TakeTimes(data: seq<byte>) returns (begin: Moment, end: Moment, timeless: bool)
    requires |data| >= FIXED
    ensures (timeless, begin, end) == ReadTimes(data)
  {
    hide GetShort, WordDate;
    var date := WordDate(GetShort(data, 4));
    begin, end := Moment(date, data[0], data[1]), Moment(date, data[2], data[3]);
    timeless := GetShort(data, 0) == 0xffff;
    if timeless {
      begin, end := Moment(date, 0, 0), Moment(date, 0, 0);
    }
  }

  lemma SectionsInside(data: seq<byte>, flags: nat)
    requires |data| >= FIXED
    ensures ReadSections(data, flags).Part? ==> ReadSections(data, flags).next <= |data|
  {
    hide Bit, GetShort, WordDate;
  }
}
