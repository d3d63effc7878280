/** The record format of libpisock/calendar.c and the blobs of libpisock/blob.c. */
module CalendarFormat {
  import opened Bytes
  import opened Common
  import opened Bits
  import opened Fields

  const FIXED := 8
  const ALARM := 64
  const REPEAT := 32
  const NOTE := 16
  const EXCEPT := 8
  const DESC := 4
  const LOC := 2
  const WEEKLY := 2
  const MONTHLY_BY_DAY := 3
  const FOREVER := 0xffff
  const TIMEZONE: seq<byte> := [66, 100, 48, 48]  // "Bd00"

  /** A day and a time of `struct tm` */
  datatype Moment = Moment(date: Date, hour: int, min: int)

  datatype Alarm = Alarm(advance: int, units: int)

  /** `until` is the last day, if there is one. The day of the month and the days of the week belong to one kind
    each. */
  datatype Repeat = Repeat(kind: int, until: Option<Date>, frequency: int, day: int, days: seq<bool>, weekstart: int)

  /** `Blob_t`; the length is a C int16_t. */
  datatype Blob = Blob(kind: seq<byte>, length: int, data: seq<byte>)

  /** `CalendarEvent_t` without the timezone */
  datatype Event = Event(timeless: bool, begin: Moment, end: Moment, alarm: Option<Alarm>, repeat: Option<Repeat>,
                         exceptions: seq<Date>, description: Option<text>, note: Option<text>, location: Option<text>,
                         blobs: seq<Option<Blob>>)

  predicate ValidMoment(m: Moment) { RealDay(m.date) && 0 <= m.hour <= 23 && 0 <= m.min <= 59 }

  predicate ValidBlob(b: Blob) { |b.kind| == 4 && b.length == |b.data| <= 0x7fff }

  ghost predicate WellFormed(e: Event) {
    && ValidMoment(e.begin) && ValidMoment(e.end)
    && (e.repeat.Some? ==>
          var r := e.repeat.value;
          1 <= r.kind <= 5 && |r.days| == 7 && (r.until.Some? ==> RealDay(r.until.value)))
    && |e.exceptions| <= 0xffff && (forall i :: 0 <= i < |e.exceptions| ==> RealDay(e.exceptions[i]))
    && |e.blobs| == MAX_BLOBS && (forall i :: 0 <= i < MAX_BLOBS && e.blobs[i].Some? ==> ValidBlob(e.blobs[i].value))
  }

  // ---- packing ---------------------------------------------------------------------------------------------------

  function Flags(e: Event): byte {
    (if e.alarm.Some? then ALARM else 0) + (if e.repeat.Some? then REPEAT else 0)
    + (if e.exceptions != [] then EXCEPT else 0) + (if e.description.Some? then DESC else 0)
    + (if e.note.Some? then NOTE else 0) + (if e.location.Some? then LOC else 0)
  }

  function Fixed(e: Event): (s: seq<byte>)
    ensures |s| == FIXED
  {
    (if e.timeless then [0xff, 0xff, 0xff, 0xff]
     else [e.begin.hour % 256, e.begin.min % 256, e.end.hour % 256, e.end.min % 256])
    + ShortBytes(DateWord(e.begin.date)) + [Flags(e), 0]
  }

  function AlarmBytes(a: Option<Alarm>): seq<byte> {
    if a.None? then [] else [a.value.advance % 256, a.value.units % 256]
  }

  /** The byte that tells which days. */
  function OnDays(r: Repeat): nat
    requires |r.days| == 7
  {
    if r.kind == MONTHLY_BY_DAY then r.day % 256 else if r.kind == WEEKLY then Mask(r.days, 7) else 0
  }

  function RepeatBytes(r: Option<Repeat>): seq<byte>
    requires r.Some? ==> |r.value.days| == 7
  {
    if r.None? then []
    else
      var v := r.value;
      [v.kind % 256, 0] + ShortBytes(if v.until.None? then FOREVER else DateWord(v.until.value))
      + [v.frequency % 256, OnDays(v) % 256, v.weekstart % 256, 0]
  }

  function Dates(dates: seq<Date>, n: nat): seq<byte>
    requires n <= |dates|
  {
    if n == 0 then [] else Dates(dates, n - 1) + ShortBytes(DateWord(dates[n - 1]))
  }

  lemma {:induction false} DatesLength(dates: seq<Date>, n: nat)
    requires n <= |dates|
    ensures |Dates(dates, n)| == 2 * n
  {
    if n > 0 {
      DatesLength(dates, n - 1);
    }
  }

  function ExceptionBytes(dates: seq<Date>): seq<byte> {
    if dates == [] then [] else ShortBytes(|dates|) + Dates(dates, |dates|)
  }

  function TextBytes(t: Option<text>): seq<byte> { if t.Some? then t.value + [0] else [] }

  /** `pack_Blob` */
  function BlobBytes(b: Option<Blob>): seq<byte> {
    if b.Some? then b.value.kind + ShortBytes(b.value.length) + b.value.data else []
  }

  /** The blobs from slot `n` on. */
  function BlobsFrom(blobs: seq<Option<Blob>>, n: nat): seq<byte>
    requires n <= |blobs|
    decreases |blobs| - n
  {
    if n == |blobs| then [] else BlobBytes(blobs[n]) + BlobsFrom(blobs, n + 1)
  }

  /** The part of a record in front of its blobs. */
  ghost function Front(e: Event): seq<byte>
    requires WellFormed(e)
  {
    Fixed(e) + AlarmBytes(e.alarm) + RepeatBytes(e.repeat) + ExceptionBytes(e.exceptions) + TextBytes(e.description)
    + TextBytes(e.note) + TextBytes(e.location)
  }

  /** `pack_CalendarEvent` */
  function Packed(e: Event): seq<byte>
    requires WellFormed(e)
  {
    Fixed(e) + AlarmBytes(e.alarm) + RepeatBytes(e.repeat) + ExceptionBytes(e.exceptions) + TextBytes(e.description)
    + TextBytes(e.note) + TextBytes(e.location) + BlobsFrom(e.blobs, 0)
  }

  // ---- unpacking -------------------------------------------------------------------------------------------------

  function ReadAlarm(data: seq<byte>, pos: nat, present: bool): Part<Option<Alarm>> {
    if !present then Part(None, pos)
    else if pos + 2 > |data| then Overrun
    else Part(Some(Alarm(data[pos], data[pos + 1])), pos + 2)
  }

  /** `repeatDays[i] = !!(on & (1 << i))` */
  function DaysOf(on: nat): (days: seq<bool>)
    ensures |days| == 7
  {
    seq(7, i requires 0 <= i < 7 => BitAt(on, i))
  }

  const NO_DAYS: seq<bool> := [false, false, false, false, false, false, false]

  function ReadRepeat(data: seq<byte>, pos: nat, present: bool): Part<Option<Repeat>> {
    if !present then Part(None, pos)
    else if pos + 8 > |data| then Overrun
    else
      var kind, d, on := data[pos], GetShort(data, pos + 2), data[pos + 5];
      Part(Some(Repeat(kind, if d == FOREVER then None else Some(WordDate(d)), data[pos + 4],
                       if kind == MONTHLY_BY_DAY then on else 0, if kind == WEEKLY then DaysOf(on) else NO_DAYS,
                       data[pos + 6])), pos + 8)
  }

  function ReadDates(data: seq<byte>, pos: nat, n: nat): (r: seq<Date>)
    requires pos + 2 * n <= |data|
    ensures |r| == n
  {
    seq(n, i requires 0 <= i < n => WordDate(GetShort(data, pos + 2 * i)))
  }

  function ReadExceptions(data: seq<byte>, pos: nat, present: bool): Part<seq<Date>> {
    if !present then Part([], pos)
    else if pos + 2 > |data| then Overrun
    else
      var n := GetShort(data, pos);
      if pos + 2 + 2 * n > |data| then Overrun else Part(ReadDates(data, pos + 2, n), pos + 2 + 2 * n)
  }

  function ReadText(data: seq<byte>, pos: nat, present: bool): Part<Option<text>> {
    if !present then Part(None, pos)
    else if pos >= |data| then Overrun
    else
      var k := Terminator(data, pos);
      if k == |data| then Overrun else Part(Some(data[pos..k]), k + 1)
  }

  /** `unpack_Blob_p`: a length of 0x8000 or more is negative, and such a blob has no data. */
  function ReadBlob(data: seq<byte>, pos: nat): Part<Blob> {
    if pos + 6 > |data| then Overrun
    else
      var n := GetShort(data, pos + 4);
      var size := if n < 0x8000 then n else 0;
      var end := pos + 6 + size;
      if end > |data| then Overrun
      else Part(Blob(data[pos..pos + 4], if n < 0x8000 then n else n - 0x1_0000, data[pos + 6..end]), end)
  }

  /** The end of a record: the blobs, an error return, a timezone, which is not part of this model, or a read past
    the end. */
  datatype Tail = Tail(blobs: seq<Blob>) | Bad | HasTimezone | OverrunTail

  /** A blob is looked for while more than six bytes are left, so an empty one at the very end is left over. */
  function ReadBlobs(data: seq<byte>, pos: nat, front: seq<Blob>): (r: Tail)
    requires |front| <= MAX_BLOBS
    ensures r.Tail? ==> |r.blobs| <= MAX_BLOBS
    decreases |data| - pos
  {
    if |data| <= pos + 6 then if pos < |data| then Bad else Tail(front)
    else if |front| == MAX_BLOBS then Bad
    else
      match ReadBlob(data, pos)
      case Part(b, next) =>
        if b.kind == TIMEZONE then HasTimezone else ReadBlobs(data, next, front + [b])
      case Short => OverrunTail
      case Overrun => OverrunTail
  }

  datatype Unpacked = Done(event: Event) | Failed | Timezone | OverrunRecord

  /** The sections between the fixed part and the blobs, and where the blobs start. */
  datatype Sections = Sections(alarm: Option<Alarm>, repeat: Option<Repeat>, exceptions: seq<Date>,
                               description: Option<text>, note: Option<text>, location: Option<text>)

  function ReadSections(data: seq<byte>, flags: nat): Part<Sections> {
    var alarm := ReadAlarm(data, FIXED, Bit(flags, ALARM));
    if !alarm.Part? then Overrun
    else
      var repeat := ReadRepeat(data, alarm.next, Bit(flags, REPEAT));
      if !repeat.Part? then Overrun
      else
        var exceptions := ReadExceptions(data, repeat.next, Bit(flags, EXCEPT));
        if !exceptions.Part? then Overrun
        else
          var description := ReadText(data, exceptions.next, Bit(flags, DESC));
          if !description.Part? then Overrun
          else
            var note := ReadText(data, description.next, Bit(flags, NOTE));
            if !note.Part? then Overrun
            else
              var location := ReadText(data, note.next, Bit(flags, LOC));
              if !location.Part? then Overrun
              else
                Part(Sections(alarm.value, repeat.value, exceptions.value, description.value, note.value,
                              location.value),
                     location.next)
  }

  /** The times of the fixed part. All ones, as far as they are looked at, stand for an event without times. */
  function ReadTimes(data: seq<byte>): (bool, Moment, Moment)
    requires |data| >= FIXED
  {
    var date := WordDate(GetShort(data, 4));
    if GetShort(data, 0) == 0xffff then (true, Moment(date, 0, 0), Moment(date, 0, 0))
    else (false, Moment(date, data[0], data[1]), Moment(date, data[2], data[3]))
  }

  /** `unpack_CalendarEvent` */
  function Unpack(data: seq<byte>): Unpacked {
    if |data| < FIXED then Failed
    else
      var sections := ReadSections(data, data[6]);
      if !sections.Part? then OverrunRecord
      else
        match ReadBlobs(data, sections.next, [])
        case Bad => Failed
        case HasTimezone => Timezone
        case OverrunTail => OverrunRecord
        case Tail(blobs) =>
          var (timeless, begin, end) := ReadTimes(data);
          var s := sections.value;
          Done(Event(timeless, begin, end, s.alarm, s.repeat, s.exceptions, s.description, s.note, s.location,
                     Slots(blobs)))
  }
}
