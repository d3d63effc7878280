/** What becomes of a calendar event that is packed and unpacked. */
module CalendarRoundTrip {
  import opened Bytes
  import opened Common
  import opened Bits
  import opened Fields
  import opened CalendarFormat

  // ---- what comes back -------------------------------------------------------------------------------------------

  function NormalAlarm(a: Option<Alarm>): Option<Alarm> {
    if a.None? then None else Some(Alarm(a.value.advance % 256, a.value.units % 256))
  }

  function NormalRepeat(r: Option<Repeat>): Option<Repeat> {
    if r.None? then None
    else
      var v := r.value;
      Some(Repeat(v.kind, if v.until.None? then None else Some(NormalDate(v.until.value)), v.frequency % 256,
                  if v.kind == MONTHLY_BY_DAY then v.day % 256 else 0, if v.kind == WEEKLY then v.days else NO_DAYS,
                  v.weekstart % 256))
  }

  function NormalDates(dates: seq<Date>): (r: seq<Date>)
    ensures |r| == |dates|
  {
    seq(|dates|, i requires 0 <= i < |dates| => NormalDate(dates[i]))
  }

  function NormalMoment(e: Event, m: Moment): Moment {
    if e.timeless then Moment(NormalDate(e.begin.date), 0, 0) else Moment(NormalDate(e.begin.date), m.hour, m.min)
  }

  ghost predicate ValidBlobs(blobs: seq<Option<Blob>>) {
    forall i :: 0 <= i < |blobs| && blobs[i].Some? ==> ValidBlob(blobs[i].value) && blobs[i].value.kind != TIMEZONE
  }

  /** The blobs from slot `n` on, without the empty slots between them. */
  function Compact(blobs: seq<Option<Blob>>, n: nat): (r: seq<Blob>)
    requires n <= |blobs|
    ensures |r| <= |blobs| - n
    decreases |blobs| - n
  {
    if n == |blobs| then [] else (if blobs[n].Some? then [blobs[n].value] else []) + Compact(blobs, n + 1)
  }

  function Normal(e: Event): Event
    requires |e.blobs| == MAX_BLOBS
  {
    Event(e.timeless, NormalMoment(e, e.begin), NormalMoment(e, e.end), NormalAlarm(e.alarm), NormalRepeat(e.repeat),
          NormalDates(e.exceptions), e.description, e.note, e.location, Slots(Compact(e.blobs, 0)))
  }

  // ---- the fixed part --------------------------------------------------------------------------------------------

  lemma FlagsTell(e: Event)
    ensures Bit(Flags(e), ALARM) == e.alarm.Some? && Bit(Flags(e), REPEAT) == e.repeat.Some?
    ensures Bit(Flags(e), EXCEPT) == (e.exceptions != []) && Bit(Flags(e), DESC) == e.description.Some?
    ensures Bit(Flags(e), NOTE) == e.note.Some? && Bit(Flags(e), LOC) == e.location.Some?
  {
    SixBits(if e.location.Some? then 1 else 0, if e.description.Some? then 1 else 0,
            if e.exceptions != [] then 1 else 0, if e.note.Some? then 1 else 0, if e.repeat.Some? then 1 else 0,
            if e.alarm.Some? then 1 else 0);
  }

  lemma SixBits(l: nat, d: nat, x: nat, n: nat, r: nat, a: nat)
    requires l < 2 && d < 2 && x < 2 && n < 2 && r < 2 && a < 2
    ensures var f := 64 * a + 32 * r + 8 * x + 4 * d + 16 * n + 2 * l;
            Bit(f, 64) == (a == 1) && Bit(f, 32) == (r == 1) && Bit(f, 8) == (x == 1) && Bit(f, 4) == (d == 1)
            && Bit(f, 16) == (n == 1) && Bit(f, 2) == (l == 1)
  {
    var f := 64 * a + 32 * r + 8 * x + 4 * d + 16 * n + 2 * l;
    assert f / 2 == l + 2 * (d + 2 * x + 4 * n + 8 * r + 16 * a);
    assert f / 4 == d + 2 * (x + 2 * n + 4 * r + 8 * a);
    assert f / 8 == x + 2 * (n + 2 * r + 4 * a);
    assert f / 16 == n + 2 * (r + 2 * a);
    assert f / 32 == r + 2 * a;
  }

  lemma FixedReadsBack(data: seq<byte>, e: Event, rest: seq<byte>)
    requires data == Fixed(e) + rest && ValidMoment(e.begin) && ValidMoment(e.end)
    ensures data[6] == Flags(e)
    ensures ReadTimes(data) == (e.timeless, NormalMoment(e, e.begin), NormalMoment(e, e.end))
  {
    hide Flags, ShortBytes, GetShort, DateWord, WordDate, NormalDate;
    FixedBytes(data, e, rest);
    ShortRoundTrip(data, 4, DateWord(e.begin.date));
    DateReadsBack(e.begin.date);
    FirstShort(data);
  }

  lemma FixedBytes(data: seq<byte>, e: Event, rest: seq<byte>)
    requires data == Fixed(e) + rest && ValidMoment(e.begin) && ValidMoment(e.end)
    ensures data[4..6] == ShortBytes(DateWord(e.begin.date)) && data[6] == Flags(e)
    ensures e.timeless ==> data[0] == data[1] == 0xff
    ensures !e.timeless ==>
              data[0] == e.begin.hour && data[1] == e.begin.min && data[2] == e.end.hour && data[3] == e.end.min
  {
    hide Flags, ShortBytes, DateWord;
  }

  lemma FirstShort(data: seq<byte>)
    requires |data| >= 2
    ensures GetShort(data, 0) == 0xffff <==> data[0] == data[1] == 0xff
  {
  }

  // ---- the sections ----------------------------------------------------------------------------------------------

  lemma AlarmReadsBack(data: seq<byte>, before: seq<byte>, a: Option<Alarm>, rest: seq<byte>)
    requires data == before + AlarmBytes(a) + rest
    ensures ReadAlarm(data, |before|, a.Some?) == Part(NormalAlarm(a), |before| + |AlarmBytes(a)|)
  {
  }

  lemma NotForever(d: Date)
    requires RealDay(d)
    ensures DateWord(d) != FOREVER
  {
    DateParts((d.year - 4) % 128, (d.mon + 1) % 16, d.day % 32);
  }

  lemma DaysReadBack(days: seq<bool>)
    requires |days| == 7
    ensures Mask(days, 7) < 128 && DaysOf(Mask(days, 7)) == days
  {
    MaskBelow(days, 7, 7);
    assert Pow2(7) == 128;
    forall i | 0 <= i < 7 ensures BitAt(Mask(days, 7), i) == days[i] {
      MaskTells(days, 7, i);
    }
  }

  lemma RepeatParts(data: seq<byte>, before: seq<byte>, v: Repeat, rest: seq<byte>)
    requires |v.days| == 7 && data == before + RepeatBytes(Some(v)) + rest
    ensures var pos := |before|;
            && |RepeatBytes(Some(v))| == 8 && pos + 8 <= |data|
            && data[pos] == v.kind % 256 && data[pos + 4] == v.frequency % 256
            && data[pos + 5] == OnDays(v) % 256 && data[pos + 6] == v.weekstart % 256
            && data[pos + 2..pos + 4] == ShortBytes(if v.until.None? then FOREVER else DateWord(v.until.value))
  {
    hide ShortBytes, DateWord, OnDays;
  }

  lemma RepeatReadsBack(data: seq<byte>, before: seq<byte>, r: Option<Repeat>, rest: seq<byte>)
    requires r.Some? ==>
               && 1 <= r.value.kind <= 5 && |r.value.days| == 7
               && (r.value.until.Some? ==> RealDay(r.value.until.value))
    requires data == before + RepeatBytes(r) + rest
    ensures ReadRepeat(data, |before|, r.Some?) == Part(NormalRepeat(r), |before| + |RepeatBytes(r)|)
  {
    hide ShortBytes, GetShort, DateWord, WordDate, NormalDate, DaysOf, Mask, RepeatBytes;
    if r.Some? {
      var v, pos := r.value, |before|;
      RepeatParts(data, before, v, rest);
      ShortRoundTrip(data, pos + 2, if v.until.None? then FOREVER else DateWord(v.until.value));
      DaysReadBack(v.days);
      if v.until.Some? {
        NotForever(v.until.value);
        DateReadsBack(v.until.value);
      }
    } else {
      assert RepeatBytes(r) == [] by { NoRepeat(r); }
    }
  }

  lemma NoRepeat(r: Option<Repeat>)
    requires r.None?
    ensures RepeatBytes(r) == []
  {
  }

  lemma {:induction false} DateAt(dates: seq<Date>, n: nat, i: nat)
    requires i < n <= |dates|
    ensures |Dates(dates, n)| == 2 * n && Dates(dates, n)[2 * i..2 * i + 2] == ShortBytes(DateWord(dates[i]))
  {
    hide ShortBytes, DateWord;
    DatesLength(dates, n);
    DatesLength(dates, n - 1);
    if i < n - 1 {
      DateAt(dates, n - 1, i);
    }
  }

  lemma Inner(data: seq<byte>, pos: nat, part: seq<byte>, k: nat, at: nat)
    requires pos + |part| <= |data| && data[pos..pos + |part|] == part && k + 2 <= |part| && at == pos + k
    ensures data[at..at + 2] == part[k..k + 2]
  {
    var s := data[pos..pos + |part|];
    assert s[k] == data[at] && s[k + 1] == data[at + 1];
  }

  lemma DateReadsAt(data: seq<byte>, pos: nat, dates: seq<Date>, i: nat, at: nat)
    requires i < |dates| && at == pos + 2 * i && |Dates(dates, |dates|)| == 2 * |dates|
    requires pos + |Dates(dates, |dates|)| <= |data|
    requires data[pos..pos + |Dates(dates, |dates|)|] == Dates(dates, |dates|)
    ensures at + 2 <= |data| && WordDate(GetShort(data, at)) == NormalDate(dates[i])
  {
    hide *;
    DateAt(dates, |dates|, i);
    Inner(data, pos, Dates(dates, |dates|), 2 * i, at);
    ShortRoundTrip(data, at, DateWord(dates[i]));
    DateReadsBack(dates[i]);
  }

  lemma DatesReadBack(data: seq<byte>, pos: nat, dates: seq<Date>)
    requires pos + 2 * |dates| <= |data| && data[pos..pos + 2 * |dates|] == Dates(dates, |dates|)
    ensures ReadDates(data, pos, |dates|) == NormalDates(dates)
  {
    hide Dates, GetShort, WordDate, NormalDate;
    var r := ReadDates(data, pos, |dates|);
    DatesLength(dates, |dates|);
    forall i | 0 <= i < |dates| ensures r[i] == NormalDate(dates[i]) {
      DateReadsAt(data, pos, dates, i, pos + 2 * i);
    }
  }

  lemma ExceptionsReadBack(data: seq<byte>, before: seq<byte>, dates: seq<Date>, rest: seq<byte>)
    requires |dates| <= 0xffff && data == before + ExceptionBytes(dates) + rest
    ensures ReadExceptions(data, |before|, dates != []) == Part(NormalDates(dates), |before| + |ExceptionBytes(dates)|)
  {
    hide Dates, ReadDates, GetShort, ShortBytes;
    if dates != [] {
      var pos, n := |before|, |dates|;
      DatesLength(dates, n);
      assert data[pos..pos + 2] == ShortBytes(n);
      ShortRoundTrip(data, pos, n);
      assert data[pos + 2..pos + 2 + 2 * n] == Dates(dates, n);
      DatesReadBack(data, pos + 2, dates);
    }
  }

  lemma TextReadsBack(data: seq<byte>, before: seq<byte>, t: Option<text>, rest: seq<byte>)
    requires data == before + TextBytes(t) + rest
    ensures ReadText(data, |before|, t.Some?) == Part(t, |before| + |TextBytes(t)|)
  {
    if t.Some? {
      var pos, k := |before|, |before| + |t.value|;
      assert data[pos..k] == t.value;
      assert forall i :: pos <= i < k ==> data[i] == t.value[i - pos];
      TerminatorIs(data, pos, k);
    }
  }

  // ---- the blobs -------------------------------------------------------------------------------------------------

  /** The last blob has no data. */
  predicate EmptyLast(blobs: seq<Blob>) { blobs != [] && blobs[|blobs| - 1].data == [] }

  /** The bytes of one blob, packed and unpacked */
  lemma BlobReadsBack(data: seq<byte>, before: seq<byte>, b: Blob, rest: seq<byte>)
    requires ValidBlob(b) && data == before + BlobBytes(Some(b)) + rest
    ensures |BlobBytes(Some(b))| == 6 + |b.data|
    ensures ReadBlob(data, |before|) == Part(b, |before + BlobBytes(Some(b))|)
  {
    hide GetShort, ShortBytes, BlobBytes;
    BlobParts(data, before, b, rest);
    ShortRoundTrip(data, |before| + 4, b.length);
  }

  lemma BlobParts(data: seq<byte>, before: seq<byte>, b: Blob, rest: seq<byte>)
    requires ValidBlob(b) && data == before + BlobBytes(Some(b)) + rest
    ensures var pos := |before|;
            && pos + 6 + |b.data| == |before + BlobBytes(Some(b))| <= |data|
            && data[pos..pos + 4] == b.kind && data[pos + 4..pos + 6] == ShortBytes(b.length)
            && data[pos + 6..pos + 6 + |b.data|] == b.data
  {
    hide ShortBytes;
  }

  lemma {:induction false} NoneLeft(blobs: seq<Option<Blob>>, n: nat)
    requires n <= |blobs| && ValidBlobs(blobs)
    ensures BlobsFrom(blobs, n) == [] <==> Compact(blobs, n) == []
    ensures Compact(blobs, n) != [] ==> |BlobsFrom(blobs, n)| >= 6
    decreases |blobs| - n
  {
    if n < |blobs| {
      hide BlobBytes, Compact, BlobsFrom;
      NoneLeft(blobs, n + 1);
      BlobLength(blobs[n]);
      BlobsStep(blobs, n, [], []);
      assert [] + BlobsFrom(blobs, n) == BlobsFrom(blobs, n);
    } else {
      assert Compact(blobs, n) == [] && BlobsFrom(blobs, n) == [];
    }
  }

  lemma BlobLength(b: Option<Blob>)
    requires b.Some? ==> |b.value.kind| == 4
    ensures if b.Some? then |BlobBytes(b)| >= 6 else BlobBytes(b) == []
  {
    hide ShortBytes;
  }

  lemma {:induction false} BlobsReadBack(data: seq<byte>, before: seq<byte>, blobs: seq<Option<Blob>>, n: nat,
                                         front: seq<Blob>)
    requires n <= |blobs| && |front| + |blobs| - n <= MAX_BLOBS && ValidBlobs(blobs)
    requires data == before + BlobsFrom(blobs, n)
    ensures ReadBlobs(data, |before|, front)
         == if EmptyLast(Compact(blobs, n)) then Bad else Tail(front + Compact(blobs, n))
    decreases |blobs| - n
  {
    if n == |blobs| {
      assert front + [] == front;
    } else {
      hide ReadBlobs, BlobBytes, Compact, BlobsFrom;
      BlobsStep(blobs, n, before, front);
      var bytes, rest := BlobBytes(blobs[n]), BlobsFrom(blobs, n + 1);
      NoneLeft(blobs, n + 1);
      if blobs[n].Some? {
        var b := blobs[n].value;
        BlobReadsBack(data, before, b, rest);
        BlobsReadBack(data, before + bytes, blobs, n + 1, front + [b]);
        ReadBlobsStep(data, |before|, front);
      } else {
        BlobsReadBack(data, before, blobs, n + 1, front);
      }
    }
  }

  lemma BlobsStep(blobs: seq<Option<Blob>>, n: nat, before: seq<byte>, front: seq<Blob>)
    requires n < |blobs|
    ensures before + BlobsFrom(blobs, n) == before + BlobBytes(blobs[n]) + BlobsFrom(blobs, n + 1)
    ensures blobs[n].None? ==>
              before + BlobBytes(blobs[n]) == before && Compact(blobs, n) == Compact(blobs, n + 1)
    ensures blobs[n].Some? ==>
              && Compact(blobs, n) == [blobs[n].value] + Compact(blobs, n + 1)
              && front + Compact(blobs, n) == front + [blobs[n].value] + Compact(blobs, n + 1)
  {
    hide BlobBytes;
    Associates(before, BlobBytes(blobs[n]), BlobsFrom(blobs, n + 1));
    if blobs[n].None? {
      assert BlobBytes(blobs[n]) == [] by { BlobLength(blobs[n]); }
    }
  }

  lemma ReadBlobsStep(data: seq<byte>, pos: nat, front: seq<Blob>)
    requires |front| < MAX_BLOBS && ReadBlob(data, pos).Part?
    ensures var b := ReadBlob(data, pos);
            ReadBlobs(data, pos, front)
            == if |data| <= pos + 6 then if pos < |data| then Bad else Tail(front)
               else if b.value.kind == TIMEZONE then HasTimezone else ReadBlobs(data, b.next, front + [b.value])
  {
    hide ReadBlob;
  }

  // ---- the whole record ------------------------------------------------------------------------------------------

  lemma SectionsReadBack(data: seq<byte>, e: Event, rest: seq<byte>)
    requires WellFormed(e)
    requires data == Fixed(e) + AlarmBytes(e.alarm) + RepeatBytes(e.repeat) + ExceptionBytes(e.exceptions)
                     + TextBytes(e.description) + TextBytes(e.note) + TextBytes(e.location) + rest
    ensures ReadSections(data, Flags(e))
         == Part(Sections(NormalAlarm(e.alarm), NormalRepeat(e.repeat), NormalDates(e.exceptions), e.description,
                          e.note, e.location), |data| - |rest|)
  {
    hide Fixed, AlarmBytes, RepeatBytes, ExceptionBytes, TextBytes, Flags, ReadAlarm, ReadRepeat, ReadExceptions,
         ReadText, Bit, NormalAlarm, NormalRepeat, NormalDates;
    var f, a, r, x := Fixed(e), AlarmBytes(e.alarm), RepeatBytes(e.repeat), ExceptionBytes(e.exceptions);
    var d, n, l := TextBytes(e.description), TextBytes(e.note), TextBytes(e.location);
    FlagsTell(e);
    Parts(f + a, r, x, d, n, l + rest);
    Parts(f + a + r + x, d, n, l, rest, []);
    Associates(f, a, r + x + d + n + (l + rest));
    AlarmReadsBack(data, f, e.alarm, r + x + d + n + (l + rest));
    RepeatReadsBack(data, f + a, e.repeat, x + d + n + (l + rest));
    ExceptionsReadBack(data, f + a + r, e.exceptions, d + n + (l + rest));
    TextReadsBack(data, f + a + r + x, e.description, n + l + rest + []);
    TextReadsBack(data, f + a + r + x + d, e.note, l + rest + []);
    TextReadsBack(data, f + a + r + x + d + n, e.location, rest + []);
  }

  lemma Parts(a: seq<byte>, b: seq<byte>, c: seq<byte>, d: seq<byte>, e: seq<byte>, f: seq<byte>)
    ensures a + b + c + d + e + f == a + b + c + d + (e + f) == a + b + c + (d + e + f)
         == a + b + (c + d + e + f) == a + (b + c + d + e + f)
  {
  }

  /** For every event: when its last blob has data, or it has no blobs, unpacking what it was packed to gives the
    event back in normal form; when its last blob is empty, unpacking fails, since the blob is taken for extra data. */
  lemma EventReadsBack(e: Event)
    requires WellFormed(e) && ValidBlobs(e.blobs)
    ensures Unpack(Packed(e)) == if EmptyLast(Compact(e.blobs, 0)) then Failed else Done(Normal(e))
  {
    hide Fixed, AlarmBytes, RepeatBytes, ExceptionBytes, TextBytes, Flags, ReadSections, ReadBlobs, BlobsFrom,
         ReadTimes, NormalMoment, NormalAlarm, NormalRepeat, NormalDates, EmptyLast, Compact, Slots;
    var data, blobs := Packed(e), BlobsFrom(e.blobs, 0);
    var front := Fixed(e) + AlarmBytes(e.alarm) + RepeatBytes(e.repeat) + ExceptionBytes(e.exceptions)
                 + TextBytes(e.description) + TextBytes(e.note) + TextBytes(e.location);
    assert data == front + blobs;
    SectionsReadBack(data, e, blobs);
    assert data == Fixed(e) + data[FIXED..];
    FixedReadsBack(data, e, data[FIXED..]);
    BlobsReadBack(data, front, e.blobs, 0, []);
    assert [] + Compact(e.blobs, 0) == Compact(e.blobs, 0);
  }

  // ---- events in normal form -------------------------------------------------------------------------------------

  predicate Byte(x: int) { 0 <= x < 256 }

  predicate RepeatFits(r: Repeat) {
    && (r.until.Some? ==> YearFits(r.until.value)) && Byte(r.frequency) && Byte(r.weekstart)
    && (if r.kind == MONTHLY_BY_DAY then Byte(r.day) else r.day == 0)
    && (r.kind != WEEKLY ==> r.days == NO_DAYS)
  }

  predicate Dense(blobs: seq<Option<Blob>>) {
    forall i, j :: 0 <= i < j < |blobs| && blobs[j].Some? ==> blobs[i].Some?
  }

  /** Years fit, both times are on one day, which is all that is stored of the second, an event without times has
    none, and the blobs come first among their slots. */
  ghost predicate IsNormal(e: Event) {
    && YearFits(e.begin.date) && e.end.date == e.begin.date
    && (e.timeless ==> e.begin.hour == 0 && e.begin.min == 0 && e.end.hour == 0 && e.end.min == 0)
    && (e.alarm.Some? ==> Byte(e.alarm.value.advance) && Byte(e.alarm.value.units))
    && (e.repeat.Some? ==> RepeatFits(e.repeat.value))
    && (forall i :: 0 <= i < |e.exceptions| ==> YearFits(e.exceptions[i]))
    && Dense(e.blobs)
  }

  lemma DatesAreSame(dates: seq<Date>)
    requires forall i :: 0 <= i < |dates| ==> RealDay(dates[i])
    ensures NormalDates(dates) == dates <==> forall i :: 0 <= i < |dates| ==> YearFits(dates[i])
  {
    hide NormalDate, RealDay, YearFits;
    var r := NormalDates(dates);
    forall i | 0 <= i < |dates| ensures r[i] == dates[i] <==> YearFits(dates[i]) {
      DateIsSame(dates[i]);
    }
    if forall i :: 0 <= i < |dates| ==> YearFits(dates[i]) {
      assert forall i :: 0 <= i < |dates| ==> r[i] == dates[i];
    }
  }

  lemma RepeatIsSame(r: Repeat)
    requires 1 <= r.kind <= 5 && |r.days| == 7 && (r.until.Some? ==> RealDay(r.until.value))
    ensures NormalRepeat(Some(r)) == Some(r) <==> RepeatFits(r)
  {
    if r.until.Some? {
      DateIsSame(r.until.value);
    }
    hide NormalDate, YearFits;
  }

  lemma {:induction false} NothingBehind(blobs: seq<Option<Blob>>, n: nat)
    requires n <= |blobs| && forall i :: n <= i < |blobs| ==> blobs[i].None?
    ensures Compact(blobs, n) == []
    decreases |blobs| - n
  {
    if n < |blobs| {
      NothingBehind(blobs, n + 1);
    }
  }

  lemma {:induction false} CompactDense(blobs: seq<Option<Blob>>, n: nat)
    requires n <= |blobs| && Dense(blobs)
    ensures var r := Compact(blobs, n);
            && (forall i :: 0 <= i < |r| ==> blobs[n + i] == Some(r[i]))
            && (forall i :: n + |r| <= i < |blobs| ==> blobs[i].None?)
    decreases |blobs| - n
  {
    if n < |blobs| {
      CompactDense(blobs, n + 1);
      var r, more := Compact(blobs, n), Compact(blobs, n + 1);
      if blobs[n].Some? {
        assert forall i :: 0 < i < |r| ==> r[i] == more[i - 1] && blobs[n + i] == blobs[n + 1 + (i - 1)];
      } else {
        forall i | n <= i < |blobs| ensures blobs[i].None? {
        }
        NothingBehind(blobs, n);
      }
    }
  }

  lemma BlobsAreSame(blobs: seq<Option<Blob>>)
    requires |blobs| == MAX_BLOBS
    ensures Slots(Compact(blobs, 0)) == blobs <==> Dense(blobs)
  {
    var r := Compact(blobs, 0);
    if Slots(r) == blobs {
      forall i, j | 0 <= i < j < |blobs| && blobs[j].Some? ensures blobs[i].Some? {
        assert blobs[j] == Slots(r)[j] && blobs[i] == Slots(r)[i];
      }
    }
    if Dense(blobs) {
      CompactDense(blobs, 0);
      assert forall i :: 0 <= i < |blobs| ==> Slots(r)[i] == blobs[i];
    }
  }

  lemma MomentsAreSame(e: Event)
    requires ValidMoment(e.begin) && ValidMoment(e.end)
    ensures NormalMoment(e, e.begin) == e.begin && NormalMoment(e, e.end) == e.end
       <==> && YearFits(e.begin.date) && e.end.date == e.begin.date
            && (e.timeless ==> e.begin.hour == 0 && e.begin.min == 0 && e.end.hour == 0 && e.end.min == 0)
  {
    DateIsSame(e.begin.date);
    hide NormalDate, YearFits;
  }

  lemma AlarmIsSame(a: Alarm)
    ensures NormalAlarm(Some(a)) == Some(a) <==> Byte(a.advance) && Byte(a.units)
  {
  }

  /** An event survives packing and unpacking unchanged if and only if it is in normal form and its last blob, if
    there is one, has data. */
  lemma ReadsBackExactly(e: Event)
    requires WellFormed(e) && ValidBlobs(e.blobs)
    ensures Unpack(Packed(e)) == Done(e) <==> IsNormal(e) && !EmptyLast(Compact(e.blobs, 0))
  {
    hide Unpack, Packed, NormalMoment, NormalAlarm, NormalRepeat, NormalDates, Slots, Compact, Dense, EmptyLast,
         YearFits, Byte, RepeatFits;
    EventReadsBack(e);
    MomentsAreSame(e);
    if e.alarm.Some? {
      AlarmIsSame(e.alarm.value);
    }
    if e.repeat.Some? {
      RepeatIsSame(e.repeat.value);
    }
    NothingIsSame();
    DatesAreSame(e.exceptions);
    BlobsAreSame(e.blobs);
  }

  lemma NothingIsSame()
    ensures NormalAlarm(None) == None && NormalRepeat(None) == None
  {
  }
}
