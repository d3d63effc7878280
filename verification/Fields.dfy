/** What the record codecs share: strings that end with a NUL and packed dates. */
module Fields {
  import opened Bytes
  import opened Common

  /** A string in memory has no NUL: it ends there. */
  type text = s: seq<byte> | forall i :: 0 <= i < |s| ==> s[i] != 0

  /** What reading a part of a record comes to. `Short`: the record ends too soon, which is noticed. `Overrun`: it
    ends too soon and the program reads on past its end. */
  datatype Part<T> = Part(value: T, next: nat) | Short | Overrun

  /** The first NUL at or behind `pos`, or the end. */
  function Terminator(data: seq<byte>, pos: nat): (k: nat)
    ensures pos <= |data| ==> pos <= k <= |data| && (k < |data| ==> data[k] == 0)
    ensures forall i :: pos <= i < k && i < |data| ==> data[i] != 0
    decreases |data| - pos
  {
    if pos >= |data| || data[pos] == 0 then pos else Terminator(data, pos + 1)
  }

  lemma {:induction false} TerminatorIs(data: seq<byte>, pos: nat, k: nat)
    requires pos <= k < |data| && data[k] == 0 && forall i :: pos <= i < k ==> data[i] != 0
    ensures Terminator(data, pos) == k
    decreases k - pos
  {
    if pos < k {
      TerminatorIs(data, pos + 1, k);
    }
  }

  /** `strlen`, as far as the record goes */
  method FindTerminator(data: seq<byte>, pos: nat) returns (k: nat)
    requires pos <= |data|
    ensures k == Terminator(data, pos)
  {
    k := pos;
    while k < |data| && data[k] != 0
      invariant pos <= k <= |data| && Terminator(data, pos) == Terminator(data, k)
    {
      k := k + 1;
    }
  }

  const MAX_BLOBS := 10

  /** The array of blob pointers after that many blobs have been read. */
  function Slots<T>(blobs: seq<T>): (r: seq<Option<T>>)
    requires |blobs| <= MAX_BLOBS
    ensures |r| == MAX_BLOBS
  {
    seq(MAX_BLOBS, i requires 0 <= i < MAX_BLOBS => if i < |blobs| then Some(blobs[i]) else None)
  }

  /** A day, as `struct tm` counts: years from 1900 and months from 0. */
  datatype Date = Date(year: int, mon: int, day: int)

  /** Seven bits of the year from 1904 on, four of the month and five of the day. */
  function DateWord(d: Date): (v: nat)
    ensures v < 0x1_0000
  {
    (d.year - 4) % 128 * 512 + (d.mon + 1) % 16 * 32 + d.day % 32
  }

  function WordDate(v: nat): Date { Date(v / 512 + 4, v / 32 % 16 - 1, v % 32) }

  /** What the packed form has room for. */
  function NormalDate(d: Date): Date { Date((d.year - 4) % 128 + 4, (d.mon + 1) % 16 - 1, d.day % 32) }

  lemma DateParts(y: nat, m: nat, d: nat)
    requires y < 128 && m < 16 && d < 32
    ensures var v := y * 512 + m * 32 + d; v / 512 == y && v / 32 % 16 == m && v % 32 == d
  {
    var v := y * 512 + m * 32 + d;
    assert v / 32 == y * 16 + m;
  }

  lemma DateReadsBack(d: Date)
    ensures WordDate(DateWord(d)) == NormalDate(d)
  {
    DateParts((d.year - 4) % 128, (d.mon + 1) % 16, d.day % 32);
  }

  /** `year` counts from 1900. */
  predicate LeapYear(year: int) { year % 4 == 0 && (year % 100 != 0 || (year + 1900) % 400 == 0) }

  function MonthLength(year: int, mon: int): int {
    if mon == 1 then if LeapYear(year) then 29 else 28
    else if mon == 3 || mon == 5 || mon == 8 || mon == 10 then 30
    else 31
  }

  /** A day of the calendar, which `mktime` leaves as it is. */
  predicate RealDay(d: Date) { 0 <= d.mon <= 11 && 1 <= d.day <= MonthLength(d.year, d.mon) }

  /** What comes back of a real day is a real day: the years from 1904 to 2031 are leap years whenever they are
    divisible by four. */
  lemma NormalIsReal(d: Date)
    requires RealDay(d)
    ensures RealDay(NormalDate(d))
  {
    var y := (d.year - 4) % 128 + 4;
    assert (y - d.year) % 4 == 0;
    assert y % 100 == 0 ==> y == 100;
  }

  /** 1904 to 2031 */
  predicate YearFits(d: Date) { 4 <= d.year <= 131 }

  lemma DateIsSame(d: Date)
    requires RealDay(d)
    ensures NormalDate(d) == d <==> YearFits(d)
  {
  }
}
