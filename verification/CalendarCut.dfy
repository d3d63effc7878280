/** Calendar records that are cut off. `unpack_CalendarEvent` checks for the fixed part and for what is left behind the
  blobs, and for nothing between. */
module CalendarCut {
  import opened Bytes
  import opened Common
  import opened Bits
  import opened Fields
  import opened CalendarFormat
  import opened CalendarRoundTrip

  // ---- sections --------------------------------------------------------------------------------------------------

  lemma AlarmCut(data: seq<byte>, before: seq<byte>, a: Option<Alarm>, j: nat)
    requires j < |AlarmBytes(a)| && data == before + AlarmBytes(a)[..j]
    ensures ReadAlarm(data, |before|, a.Some?) == Overrun
  {
  }

  lemma RepeatCut(data: seq<byte>, before: seq<byte>, r: Option<Repeat>, j: nat)
    requires r.Some? ==> |r.value.days| == 7
    requires j < |RepeatBytes(r)| && data == before + RepeatBytes(r)[..j]
    ensures ReadRepeat(data, |before|, r.Some?) == Overrun
  {
    hide OnDays, ShortBytes, DateWord;
  }

  lemma ExceptionsCut(data: seq<byte>, before: seq<byte>, dates: seq<Date>, j: nat)
    requires |dates| <= 0xffff && j < |ExceptionBytes(dates)| && data == before + ExceptionBytes(dates)[..j]
    ensures ReadExceptions(data, |before|, dates != []) == Overrun
  {
    hide Dates, ShortBytes, GetShort;
    DatesLength(dates, |dates|);
    if j >= 2 {
      var pos := |before|;
      assert data[pos..pos + 2] == ShortBytes(|dates|);
      ShortRoundTrip(data, pos, |dates|);
    }
  }

  lemma TextCut(data: seq<byte>, before: seq<byte>, t: Option<text>, j: nat)
    requires j < |TextBytes(t)| && data == before + TextBytes(t)[..j]
    ensures ReadText(data, |before|, t.Some?) == Overrun
  {
    if j > 0 {
      assert forall i :: |before| <= i < |data| ==> data[i] == t.value[i - |before|];
    }
  }

  /** A record that ends inside its sections. */
  lemma SectionsCut(data: seq<byte>, e: Event, k: nat)
    requires WellFormed(e) && FIXED <= k < |Front(e)| && data == Front(e)[..k]
    ensures ReadSections(data, Flags(e)) == Overrun
  {
    hide AlarmBytes, RepeatBytes, ExceptionBytes, TextBytes, Fixed, Flags, ReadAlarm, ReadRepeat, ReadExceptions,
         ReadText,
         Bit;
    var f, a, r, x := Fixed(e), AlarmBytes(e.alarm), RepeatBytes(e.repeat), ExceptionBytes(e.exceptions);
    var d, n, l := TextBytes(e.description), TextBytes(e.note), TextBytes(e.location);
    FlagsTell(e);
    Tails(f, a, r, x, d, n, l);
    CutAt(data, f, a, r + (x + (d + (n + (l + [])))), k);
    if k < |f + a| {
      AlarmCut(data, f, e.alarm, k - |f|);
      return;
    }
    AlarmReadsBack(data, f, e.alarm, (r + (x + (d + (n + (l + [])))))[..k - |f| - |a|]);
    CutAt(data, f + a, r, x + (d + (n + (l + []))), k);
    if k < |f + a + r| {
      RepeatCut(data, f + a, e.repeat, k - |f + a|);
      return;
    }
    RepeatReadsBack(data, f + a, e.repeat, (x + (d + (n + (l + []))))[..k - |f + a| - |r|]);
    CutAt(data, f + a + r, x, d + (n + (l + [])), k);
    if k < |f + a + r + x| {
      ExceptionsCut(data, f + a + r, e.exceptions, k - |f + a + r|);
      return;
    }
    ExceptionsReadBack(data, f + a + r, e.exceptions, (d + (n + (l + [])))[..k - |f + a + r| - |x|]);
    TextsCut(data, f + a + r + x, e, k);
  }

  /** A record that ends inside one of its three strings. */
  lemma TextsCut(data: seq<byte>, before: seq<byte>, e: Event, k: nat)
    requires var all := before + (TextBytes(e.description) + (TextBytes(e.note) + (TextBytes(e.location) + [])));
             |before| <= k < |all| && data == all[..k]
    ensures var d := ReadText(data, |before|, e.description.Some?);
            d == Overrun
            || (d.Part?
                && var n := ReadText(data, d.next, e.note.Some?);
                   n == Overrun || (n.Part? && ReadText(data, n.next, e.location.Some?) == Overrun))
  {
    hide TextBytes, ReadText;
    var d, n, l := TextBytes(e.description), TextBytes(e.note), TextBytes(e.location);
    CutAt(data, before, d, n + (l + []), k);
    if k < |before + d| {
      TextCut(data, before, e.description, k - |before|);
      return;
    }
    TextReadsBack(data, before, e.description, (n + (l + []))[..k - |before| - |d|]);
    CutAt(data, before + d, n, l + [], k);
    if k < |before + d + n| {
      TextCut(data, before + d, e.note, k - |before + d|);
      return;
    }
    TextReadsBack(data, before + d, e.note, (l + [])[..k - |before + d| - |n|]);
    CutAt(data, before + d + n, l, [], k);
    TextCut(data, before + d + n, e.location, k - |before + d + n|);
  }

  lemma Tails(f: seq<byte>, a: seq<byte>, r: seq<byte>, x: seq<byte>, d: seq<byte>, n: seq<byte>, l: seq<byte>)
    ensures f + a + r + x + d + n + l == f + (a + (r + (x + (d + (n + (l + []))))))
  {
    var t := d + (n + (l + []));
    assert f + a + r + x + d + n + l == f + a + r + x + t;
    assert f + a + r + x + t == f + (a + (r + (x + t)));
  }

  // ---- blobs -----------------------------------------------------------------------------------------------------

  /** The first `j` bytes of the blobs from slot `n` on end inside one of them, more than six bytes into it. */
  predicate InsideBlob(blobs: seq<Option<Blob>>, n: nat, j: nat)
    requires n <= |blobs|
    decreases |blobs| - n
  {
    n < |blobs| &&
    var size := |BlobBytes(blobs[n])|;
    if j < size then j > 6 else InsideBlob(blobs, n + 1, j - size)
  }

  lemma {:induction false} NotInsideAtStart(blobs: seq<Option<Blob>>, n: nat)
    requires n <= |blobs|
    ensures !InsideBlob(blobs, n, 0)
    decreases |blobs| - n
  {
    hide BlobBytes;
    if n < |blobs| {
      NotInsideAtStart(blobs, n + 1);
    }
  }

  lemma {:induction false} BlobsCut(data: seq<byte>, before: seq<byte>, blobs: seq<Option<Blob>>, n: nat,
                                    front: seq<Blob>, j: nat)
    requires n <= |blobs| && |front| + |blobs| - n <= MAX_BLOBS && ValidBlobs(blobs)
    requires j <= |BlobsFrom(blobs, n)| && data == before + BlobsFrom(blobs, n)[..j]
    ensures ReadBlobs(data, |before|, front).OverrunTail? <==> InsideBlob(blobs, n, j)
    decreases |blobs| - n
  {
    hide ReadBlobs, BlobBytes, BlobsFrom;
    if n == |blobs| {
      assert BlobsFrom(blobs, n) == [] by { NoBlobs(blobs); }
      assert data == before;
      ReadBlobsEnds(data, |before|, front);
    } else {
      var bytes, rest := BlobBytes(blobs[n]), BlobsFrom(blobs, n + 1);
      BlobsParts(blobs, n, before, j);
      if j < |bytes| {
        BlobCut(data, before, blobs[n].value, front, j);
      } else {
        if blobs[n].None? {
          NoBytes(blobs[n]);
          assert before + bytes == before;
          BlobsCut(data, before, blobs, n + 1, front, j);
        } else if j <= 6 {
          BlobLength(blobs[n]);
          NotInsideAtStart(blobs, n + 1);
          ReadBlobsEnds(data, |before|, front);
        } else {
          BlobReadsBack(data, before, blobs[n].value, rest[..j - |bytes|]);
          ReadBlobsStep(data, |before|, front);
          BlobsCut(data, before + bytes, blobs, n + 1, front + [blobs[n].value], j - |bytes|);
        }
      }
    }
  }

  lemma BlobsParts(blobs: seq<Option<Blob>>, n: nat, before: seq<byte>, j: nat)
    requires n < |blobs| && j <= |BlobsFrom(blobs, n)|
    ensures var bytes, rest := BlobBytes(blobs[n]), BlobsFrom(blobs, n + 1);
            && |BlobsFrom(blobs, n)| == |bytes| + |rest|
            && (j < |bytes| ==> blobs[n].Some? && before + BlobsFrom(blobs, n)[..j] == before + bytes[..j])
            && (j >= |bytes| ==> before + BlobsFrom(blobs, n)[..j] == before + bytes + rest[..j - |bytes|])
  {
    hide BlobBytes;
    var bytes, rest := BlobBytes(blobs[n]), BlobsFrom(blobs, n + 1);
    if j < |bytes| {
      assert (bytes + rest)[..j] == bytes[..j];
      NoBytes(blobs[n]);
    } else {
      assert (bytes + rest)[..j] == bytes + rest[..j - |bytes|];
      Associates(before, bytes, rest[..j - |bytes|]);
    }
  }

  lemma NoBytes(b: Option<Blob>)
    ensures b.None? ==> BlobBytes(b) == []
  {
  }

  lemma NoBlobs(blobs: seq<Option<Blob>>)
    ensures BlobsFrom(blobs, |blobs|) == []
  {
  }

  lemma ReadBlobsEnds(data: seq<byte>, pos: nat, front: seq<Blob>)
    requires |front| <= MAX_BLOBS
    ensures |data| <= pos + 6 ==> ReadBlobs(data, pos, front) == if pos < |data| then Bad else Tail(front)
    ensures |data| > pos + 6 && |front| < MAX_BLOBS && ReadBlob(data, pos) == Overrun ==>
              ReadBlobs(data, pos, front) == OverrunTail
  {
    hide ReadBlob;
  }

  lemma BlobCut(data: seq<byte>, before: seq<byte>, b: Blob, front: seq<Blob>, j: nat)
    requires ValidBlob(b) && |front| < MAX_BLOBS && j < |BlobBytes(Some(b))| && data == before + BlobBytes(Some(b))[..j]
    ensures ReadBlobs(data, |before|, front).OverrunTail? <==> j > 6
  {
    hide GetShort, ShortBytes, ReadBlobs;
    ReadBlobsEnds(data, |before|, front);
    if j > 6 {
      var pos := |before|;
      assert data[pos + 4..pos + 6] == ShortBytes(b.length);
      ShortRoundTrip(data, pos + 4, b.length);
    }
  }

  // ---- the whole record ------------------------------------------------------------------------------------------

  /** A record of an event that is cut off is read past its end, without notice, if and only if it has its fixed part
    and ends inside its sections, or more than six bytes into a blob. Otherwise the cut is noticed, or nothing is
    missing but whole blobs. */
  lemma CutIsOverrun(e: Event, k: nat)
    requires WellFormed(e) && ValidBlobs(e.blobs) && k <= |Packed(e)|
    ensures Unpack(Packed(e)[..k]).OverrunRecord?
       <==> FIXED <= k && (k < |Front(e)| || InsideBlob(e.blobs, 0, k - |Front(e)|))
  {
    hide Fixed, AlarmBytes, RepeatBytes, ExceptionBytes, TextBytes, Flags, ReadSections, ReadBlobs, BlobsFrom,
         ReadTimes, InsideBlob, Slots, ValidBlobs, WellFormed;
    var data, blobs := Packed(e)[..k], BlobsFrom(e.blobs, 0);
    assert Packed(e) == Front(e) + blobs;
    if k >= FIXED {
      assert data[6] == Fixed(e)[6] == Flags(e) by { FixedFlags(e); }
      if k < |Front(e)| {
        assert data == Front(e)[..k];
        SectionsCut(data, e, k);
      } else {
        var j := k - |Front(e)|;
        assert data == Front(e) + blobs[..j];
        SectionsReadBack(data, e, blobs[..j]);
        BlobsCut(data, Front(e), e.blobs, 0, [], j) by { WellFormedBlobs(e); }
      }
    }
  }

  lemma FixedFlags(e: Event)
    ensures Fixed(e)[6] == Flags(e)
  {
    hide Flags, ShortBytes, DateWord;
  }

  lemma WellFormedBlobs(e: Event)
    requires WellFormed(e)
    ensures |e.blobs| == MAX_BLOBS
  {
  }

  /** Eight bytes whose flags tell of an alarm. */
  lemma AlarmIsMissing()
    ensures Unpack([9, 0, 10, 0, 0, 33, ALARM, 0]).OverrunRecord?
  {
    hide GetShort, ReadRepeat, ReadExceptions, ReadText;
    assert Bit(ALARM, ALARM);
  }
}
