/** What becomes of a contact that is packed and unpacked. */
module ContactRoundTrip {
  import opened Bytes
  import opened Common
  import opened Bits
  import opened Fields
  import opened ContactFormat

  // ---- what comes back -------------------------------------------------------------------------------------------

  function NormalEntry(e: Option<text>): Option<text> { if Stored(e) then e else None }

  function NormalEntries(entries: seq<Option<text>>, n: nat): (r: seq<Option<text>>)
    requires n <= |entries|
    ensures |r| == n
  {
    seq(n, i requires 0 <= i < n => NormalEntry(entries[i]))
  }

  function NormalBirthday(c: Contact): Option<Birthday> {
    if c.birthday.None? then None
    else
      var b := c.birthday.value;
      Some(Birthday(NormalDate(b.date), if c.reminder.Some? then b.units % 256 else 0))
  }

  function NormalReminder(c: Contact): Option<int> {
    if c.birthday.Some? && c.reminder.Some? then Some(c.reminder.value % 256) else None
  }

  function NormalBlob(b: Blob): Blob
    requires |b.kind| == 4
  {
    Blob(CopiedKind(b.kind), b.data)
  }

  ghost predicate Kinds(blobs: seq<Option<Blob>>) {
    forall i :: 0 <= i < |blobs| && blobs[i].Some? ==> |blobs[i].value.kind| == 4 && |blobs[i].value.data| <= 0xffff
  }

  /** The blobs from slot `n` on, without the empty slots between them. */
  function Compact(blobs: seq<Option<Blob>>, n: nat): (r: seq<Blob>)
    requires n <= |blobs| && Kinds(blobs)
    ensures |r| <= |blobs| - n
    decreases |blobs| - n
  {
    if n == |blobs| then []
    else (if blobs[n].Some? then [NormalBlob(blobs[n].value)] else []) + Compact(blobs, n + 1)
  }

  function Low4(s: seq<int>): (r: seq<int>)
    ensures |r| == |s|
  {
    seq(|s|, i requires 0 <= i < |s| => s[i] % 16)
  }

  function Normal(c: Contact): Contact
    requires WellFormed(c)
  {
    Contact(c.showPhone % 16, Low4(c.phoneLabel), Low4(c.addressLabel), Low4(c.imLabel),
            NormalEntries(c.entries[..FIRST_FIELDS], FIRST_FIELDS)
            + NormalEntries(c.entries[FIRST_FIELDS..], OTHER_FIELDS),
            NormalBirthday(c), NormalReminder(c), Slots(Compact(c.blobs, 0)))
  }

  /** Every blob that is a picture has the two bytes in front of the image. */
  ghost predicate PicturesFit(c: Contact) { AllFit(c.blobs, 0) }

  // ---- strings ---------------------------------------------------------------------------------------------------

  lemma TextReadsBack(data: seq<byte>, before: seq<byte>, e: Option<text>, rest: seq<byte>)
    requires data == before + TextBytes(e) + rest
    ensures ReadText(data, |before|, Stored(e)) == Part(NormalEntry(e), |before| + |TextBytes(e)|)
  {
    if Stored(e) {
      var pos, k := |before|, |before| + |e.value|;
      assert data[pos..k] == e.value;
      assert forall i :: pos <= i < k ==> data[i] == e.value[i - pos];
      TerminatorIs(data, pos, k);
    }
  }

  lemma {:induction false} TextsReadBack(data: seq<byte>, before: seq<byte>, entries: seq<Option<text>>, n: nat,
                                         mask: nat, rest: seq<byte>)
    requires n <= |entries| && forall i :: 0 <= i < n ==> BitAt(mask, i) == Stored(entries[i])
    requires data == before + Texts(entries, n) + rest
    ensures ReadTexts(data, |before|, mask, n) == Part(NormalEntries(entries, n), |before| + |Texts(entries, n)|)
  {
    if n > 0 {
      hide Stored, ReadText, ReadTexts, Texts, TextBytes, NormalEntries, NormalEntry, BitAt;
      var front, last := Texts(entries, n - 1), TextBytes(entries[n - 1]);
      TextsStep(before, entries, n, rest);
      TextsReadBack(data, before, entries, n - 1, mask, last + rest);
      TextReadsBack(data, before + front, entries[n - 1], rest);
      ReadTextsStep(data, |before|, mask, n, NormalEntries(entries, n - 1), |before + front|,
                    NormalEntry(entries[n - 1]), |before + front| + |last|);
    } else {
      assert NormalEntries(entries, 0) == [];
    }
  }

  lemma TextsStep(before: seq<byte>, entries: seq<Option<text>>, n: nat, rest: seq<byte>)
    requires 0 < n <= |entries|
    ensures var front, last := Texts(entries, n - 1), TextBytes(entries[n - 1]);
            && before + Texts(entries, n) + rest == before + front + (last + rest) == before + front + last + rest
            && |Texts(entries, n)| == |front| + |last|
            && NormalEntries(entries, n) == NormalEntries(entries, n - 1) + [NormalEntry(entries[n - 1])]
  {
    hide TextBytes, NormalEntry;
  }

  lemma ReadTextsStep(data: seq<byte>, pos: nat, mask: nat, n: nat, front: seq<Option<text>>, at: nat, e: Option<text>,
                      next: nat)
    requires n > 0 && ReadTexts(data, pos, mask, n - 1) == Part(front, at)
    requires ReadText(data, at, BitAt(mask, n - 1)) == Part(e, next)
    ensures ReadTexts(data, pos, mask, n) == Part(front + [e], next)
  {
    hide ReadText, BitAt;
  }

  // ---- the birthday ----------------------------------------------------------------------------------------------

  lemma BirthdayReadsBack(data: seq<byte>, before: seq<byte>, c: Contact, mask: nat, rest: seq<byte>)
    requires BitAt(mask, 11) == BitAt(mask, 12) == c.birthday.Some?
    requires data == before + BirthdayBytes(c) + rest
    ensures ReadBirthday(data, |before|, mask)
         == Part(NormalBirthday(c), |before| + if c.birthday.Some? then 4 else 0)
  {
    hide ShortBytes, GetShort, DateWord, BitAt, BirthdayBytes;
    if c.birthday.Some? {
      BirthdayParts(data, before, c, rest);
      ShortRoundTrip(data, |before|, DateWord(c.birthday.value.date));
      DateReadsBack(c.birthday.value.date);
    }
  }

  lemma ReminderReadsBack(data: seq<byte>, before: seq<byte>, c: Contact, mask: nat, rest: seq<byte>)
    requires BitAt(mask, 13) == (c.birthday.Some? && c.reminder.Some?)
    requires data == before + BirthdayBytes(c) + rest
    ensures ReadReminder(data, |before| + (if c.birthday.Some? then 4 else 0), mask)
         == Part(NormalReminder(c), |before| + |BirthdayBytes(c)|)
  {
    hide BitAt, ShortBytes, DateWord;
    if c.birthday.Some? {
      BirthdayParts(data, before, c, rest);
    }
  }

  lemma BirthdayParts(data: seq<byte>, before: seq<byte>, c: Contact, rest: seq<byte>)
    requires c.birthday.Some? && data == before + BirthdayBytes(c) + rest
    ensures var b, pos := c.birthday.value, |before|;
            && pos + |BirthdayBytes(c)| <= |data| && |BirthdayBytes(c)| == (if c.reminder.Some? then 5 else 4)
            && data[pos..pos + 2] == ShortBytes(DateWord(b.date))
            && data[pos + 3] == (if c.reminder.Some? then b.units % 256 else 0)
            && (c.reminder.Some? ==> data[pos + 4] == c.reminder.value % 256)
  {
    hide ShortBytes, DateWord;
  }

  // ---- the blobs -------------------------------------------------------------------------------------------------

  /** A picture without the two bytes in front of the image, which are read all the same. */
  predicate Misfit(b: Option<Blob>) {
    b.Some? && |b.value.kind| == 4 && CopiedKind(b.value.kind) == PICTURE && |b.value.data| < 2
  }

  ghost predicate AllFit(blobs: seq<Option<Blob>>, n: nat) { forall i :: n <= i < |blobs| ==> !Misfit(blobs[i]) }

  lemma {:induction false} BlobsReadBack(data: seq<byte>, before: seq<byte>, blobs: seq<Option<Blob>>, n: nat,
                                         front: seq<Blob>)
    requires n <= |blobs| && |front| + |blobs| - n <= MAX_BLOBS && Kinds(blobs)
    requires data == before + BlobsFrom(blobs, n)
    ensures ReadBlobs(data, |before|, front)
         == if AllFit(blobs, n) then Part(front + Compact(blobs, n), |data|) else Overrun
    decreases |blobs| - n
  {
    hide CopiedKind, ReadBlobs, BlobBytes, Misfit, AllFit, Compact, BlobsFrom, NormalBlob;
    if n == |blobs| {
      NoBlobs(blobs);
      assert data == before + [] == before;
      ReadNothing(data, front);
      NothingCompact(blobs, front);
    } else {
      var bytes, rest := BlobBytes(blobs[n]), BlobsFrom(blobs, n + 1);
      FromStep(blobs, n, before);
      AllFitStep(blobs, n);
      Grouped(front, blobs, n);
      if blobs[n].Some? {
        OneBlob(data, before, blobs[n].value, rest, front);
        BlobsReadBack(data, before + bytes, blobs, n + 1, front + [NormalBlob(blobs[n].value)]);
      } else {
        NoBlob(before, blobs[n]);
        BlobsReadBack(data, before, blobs, n + 1, front);
      }
    }
  }

  lemma NoBlobs(blobs: seq<Option<Blob>>)
    ensures BlobsFrom(blobs, |blobs|) == [] && AllFit(blobs, |blobs|)
  {
    hide Misfit;
  }

  lemma NothingCompact(blobs: seq<Option<Blob>>, front: seq<Blob>)
    requires Kinds(blobs)
    ensures front + Compact(blobs, |blobs|) == front
  {
    hide Kinds;
    assert Compact(blobs, |blobs|) == [];
  }

  lemma ReadNothing(data: seq<byte>, front: seq<Blob>)
    requires |front| <= MAX_BLOBS
    ensures ReadBlobs(data, |data|, front) == Part(front, |data|)
  {
  }

  lemma FromStep(blobs: seq<Option<Blob>>, n: nat, before: seq<byte>)
    requires n < |blobs|
    ensures before + BlobsFrom(blobs, n) == before + BlobBytes(blobs[n]) + BlobsFrom(blobs, n + 1)
    ensures |BlobsFrom(blobs, n)| == |BlobBytes(blobs[n])| + |BlobsFrom(blobs, n + 1)|
  {
    hide BlobBytes;
    Associates(before, BlobBytes(blobs[n]), BlobsFrom(blobs, n + 1));
  }

  lemma AllFitStep(blobs: seq<Option<Blob>>, n: nat)
    requires n < |blobs|
    ensures AllFit(blobs, n) <==> !Misfit(blobs[n]) && AllFit(blobs, n + 1)
  {
    hide Misfit;
  }

  lemma Grouped(front: seq<Blob>, blobs: seq<Option<Blob>>, n: nat)
    requires n < |blobs| && Kinds(blobs)
    ensures front + Compact(blobs, n)
         == (if blobs[n].Some? then front + [NormalBlob(blobs[n].value)] else front) + Compact(blobs, n + 1)
  {
    hide NormalBlob;
  }

  lemma NoBlob(before: seq<byte>, b: Option<Blob>)
    requires b.None?
    ensures BlobBytes(b) == [] && before + BlobBytes(b) == before && !Misfit(b)
  {
  }

  lemma OneBlob(data: seq<byte>, before: seq<byte>, b: Blob, rest: seq<byte>, front: seq<Blob>)
    requires |b.kind| == 4 && |b.data| <= 0xffff && |front| < MAX_BLOBS
    requires data == before + BlobBytes(Some(b)) + rest
    ensures ReadBlobs(data, |before|, front)
         == if Misfit(Some(b)) then Overrun
            else ReadBlobs(data, |before + BlobBytes(Some(b))|, front + [NormalBlob(b)])
  {
    hide CopiedKind, ShortBytes, GetShort, BlobBytes;
    var pos := |before|;
    BlobParts(data, before, b, rest);
    ShortRoundTrip(data, pos + 4, |b.data|);
  }

  lemma BlobParts(data: seq<byte>, before: seq<byte>, b: Blob, rest: seq<byte>)
    requires |b.kind| == 4 && data == before + BlobBytes(Some(b)) + rest
    ensures var pos := |before|;
            && pos + 6 + |b.data| == |before + BlobBytes(Some(b))| <= |data|
            && data[pos..pos + 4] == b.kind && data[pos + 4..pos + 6] == ShortBytes(|b.data|)
            && data[pos + 6..pos + 6 + |b.data|] == b.data
  {
    hide ShortBytes;
  }

  // ---- the fixed part --------------------------------------------------------------------------------------------

  lemma LabelsReadBack(c: Contact, rest: seq<byte>)
    requires |c.phoneLabel| == 7 && |c.addressLabel| == 3 && |c.imLabel| == 2
    ensures Nibbles(Labels(c) + rest) == (c.showPhone % 16, Low4(c.phoneLabel), Low4(c.addressLabel), Low4(c.imLabel))
  {
    var data := Labels(c) + rest;
    PairsReadBack();
    var (showPhone, phoneLabel, addressLabel, imLabel) := Nibbles(data);
    assert phoneLabel == Low4(c.phoneLabel);
    assert addressLabel == Low4(c.addressLabel);
    assert imLabel == Low4(c.imLabel);
  }

  lemma PairsReadBack()
    ensures forall h: int, l: int {:trigger Pair(h, l)} :: Pair(h, l) / 16 == h % 16 && Pair(h, l) % 16 == l % 16
  {
  }

  lemma FlagsTell(c: Contact)
    requires WellFormed(c)
    ensures Contents1(c) < 0x1_0000_0000 && Contents2(c) < 0x1_0000_0000
    ensures forall i :: 0 <= i < FIRST_FIELDS ==> BitAt(Contents1(c), i) == Stored(c.entries[..FIRST_FIELDS][i])
    ensures forall i :: 0 <= i < OTHER_FIELDS ==> BitAt(Contents2(c), i) == Stored(c.entries[FIRST_FIELDS..][i])
    ensures BitAt(Contents2(c), 11) == BitAt(Contents2(c), 12) == c.birthday.Some?
    ensures BitAt(Contents2(c), 13) == (c.birthday.Some? && c.reminder.Some?)
  {
    hide BitAt, OrBit, Stored, Pow2, Mask;
    var first, other := Present(c.entries[..FIRST_FIELDS]), Present(c.entries[FIRST_FIELDS..]);
    Pow2Of32();
    MaskBelow(first, FIRST_FIELDS, 32);
    forall i | 0 <= i < FIRST_FIELDS ensures BitAt(Contents1(c), i) == Stored(c.entries[..FIRST_FIELDS][i]) {
      MaskTells(first, FIRST_FIELDS, i);
    }
    MaskBelow(other, OTHER_FIELDS, 32);
    var m := Mask(other, OTHER_FIELDS);
    OrBelow(m, 11, 32);
    OrBelow(OrBit(m, 11), 12, 32);
    OrBelow(OrBit(OrBit(m, 11), 12), 13, 32);
    forall i | 0 <= i <= 13
      ensures BitAt(Contents2(c), i) == if i < 11 then Stored(c.entries[FIRST_FIELDS..][i])
                                        else c.birthday.Some? && (i < 13 || c.reminder.Some?)
    {
      MaskTells(other, OTHER_FIELDS, i);
      OrSetsOneBit(m, 11, i);
      OrSetsOneBit(OrBit(m, 11), 12, i);
      OrSetsOneBit(OrBit(OrBit(m, 11), 12), 13, i);
    }
  }

  lemma FixedReadsBack(data: seq<byte>, c: Contact, rest: seq<byte>)
    requires WellFormed(c) && data == Fixed(c) + rest
    ensures GetLong(data, 8) == Contents1(c) && GetLong(data, 12) == Contents2(c)
    ensures Nibbles(data) == (c.showPhone % 16, Low4(c.phoneLabel), Low4(c.addressLabel), Low4(c.imLabel))
  {
    hide Labels, LongBytes, GetLong, Contents1, Contents2, Nibbles;
    FlagsTell(c);
    var head, company := Labels(c), [CompanyOffset(c) % 256];
    assert data[8..12] == LongBytes(Contents1(c));
    assert data[12..16] == LongBytes(Contents2(c));
    LongRoundTrip(data, 8, Contents1(c));
    LongRoundTrip(data, 12, Contents2(c));
    var tail := LongBytes(Contents1(c)) + LongBytes(Contents2(c)) + company + rest;
    assert data == head + tail;
    LabelsReadBack(c, tail);
  }

  // ---- the whole record ------------------------------------------------------------------------------------------

  /** For every contact: unpacking what it was packed to gives the contact back in normal form, with its last
    picture, and uses exactly the bytes that were packed, unless one of its pictures is too short; then it reads past
    that. */
  lemma ContactReadsBack(c: Contact)
    requires WellFormed(c)
    ensures Unpack(Packed(c))
         == if PicturesFit(c) then Done(Normal(c), PictureOf(Compact(c.blobs, 0)), |Packed(c)|) else OverrunRecord
  {
    hide Fixed, Texts, BirthdayBytes, BlobsFrom, GetLong, Nibbles, ReadTexts, ReadBirthday, ReadReminder, ReadBlobs,
         BitAt, Contents1, Contents2, NormalEntries, Stored, CopiedKind, Compact, PictureOf;
    var data := Packed(c);
    var fixed, first, other := Fixed(c), c.entries[..FIRST_FIELDS], c.entries[FIRST_FIELDS..];
    var t1, t2 := Texts(first, FIRST_FIELDS), Texts(other, OTHER_FIELDS);
    var b, l := BirthdayBytes(c), BlobsFrom(c.blobs, 0);
    Parts(fixed, t1, t2, b, l);
    FlagsTell(c);
    FixedReadsBack(data, c, t1 + t2 + b + l);
    TextsReadBack(data, fixed, first, FIRST_FIELDS, Contents1(c), t2 + b + l);
    TextsReadBack(data, fixed + t1, other, OTHER_FIELDS, Contents2(c), b + l);
    BirthdayReadsBack(data, fixed + t1 + t2, c, Contents2(c), l);
    ReminderReadsBack(data, fixed + t1 + t2, c, Contents2(c), l);
    BlobsReadBack(data, fixed + t1 + t2 + b, c.blobs, 0, []);
    assert [] + Compact(c.blobs, 0) == Compact(c.blobs, 0);
  }

  lemma Parts(f: seq<byte>, t: seq<byte>, u: seq<byte>, b: seq<byte>, l: seq<byte>)
    ensures f + t + u + b + l == f + (t + u + b + l) == f + t + (u + b + l) == f + t + u + (b + l)
  {
  }

  // ---- contacts in normal form -----------------------------------------------------------------------------------

  predicate Nibble(x: int) { 0 <= x < 16 }

  predicate Byte(x: int) { 0 <= x < 256 }

  predicate NotEmpty(e: Option<text>) { e.Some? ==> e.value != [] }

  /** Nothing but NULs behind a NUL */
  predicate Padded(kind: seq<byte>) { forall i, j :: 0 <= i < j < |kind| && kind[i] == 0 ==> kind[j] == 0 }

  ghost predicate NormalBlobs(blobs: seq<Option<Blob>>) {
    && (forall i, j :: 0 <= i < j < |blobs| && blobs[j].Some? ==> blobs[i].Some?)
    && (forall i :: 0 <= i < |blobs| && blobs[i].Some? ==> Padded(blobs[i].value.kind))
  }

  /** Labels fit their half bytes, no string is there and empty, the birthday is one the packed date has room for, its
    reminder is stored with it, and the blobs come first among their slots. */
  ghost predicate IsNormal(c: Contact)
    requires WellFormed(c)
  {
    && Nibble(c.showPhone) && (forall x <- c.phoneLabel :: Nibble(x)) && (forall x <- c.addressLabel :: Nibble(x))
    && (forall x <- c.imLabel :: Nibble(x))
    && (forall e <- c.entries :: NotEmpty(e))
    && (c.birthday.Some? ==>
          var b := c.birthday.value;
          && YearFits(b.date) && Byte(b.units) && (c.reminder.None? ==> b.units == 0))
    && (c.reminder.Some? ==> c.birthday.Some? && Byte(c.reminder.value))
    && NormalBlobs(c.blobs)
  }

  lemma Low4IsSame(s: seq<int>)
    ensures Low4(s) == s <==> forall x <- s :: Nibble(x)
  {
    if Low4(s) == s {
      forall x | x in s ensures Nibble(x) {
        var i :| 0 <= i < |s| && s[i] == x;
        assert Low4(s)[i] == x;
      }
    }
    if forall x <- s :: Nibble(x) {
      forall i | 0 <= i < |s| ensures Low4(s)[i] == s[i] {
        assert s[i] in s && Nibble(s[i]);
      }
    }
  }

  lemma EntriesAreSame(entries: seq<Option<text>>, m: nat)
    requires m <= |entries|
    ensures NormalEntries(entries[..m], m) + NormalEntries(entries[m..], |entries| - m) == entries
       <==> forall e <- entries :: NotEmpty(e)
  {
    var r := NormalEntries(entries[..m], m) + NormalEntries(entries[m..], |entries| - m);
    assert forall i :: 0 <= i < |entries| ==> r[i] == NormalEntry(entries[i]);
    if r == entries {
      forall e | e in entries ensures NotEmpty(e) {
        var i :| 0 <= i < |entries| && entries[i] == e;
        assert r[i] == e;
      }
    }
    if forall e <- entries :: NotEmpty(e) {
      forall i | 0 <= i < |entries| ensures r[i] == entries[i] {
        assert entries[i] in entries && NotEmpty(entries[i]);
      }
    }
  }

  lemma KindIsSame(kind: seq<byte>)
    requires |kind| == 4
    ensures CopiedKind(kind) == kind <==> Padded(kind)
    ensures Padded(CopiedKind(kind))
  {
    var r := CopiedKind(kind);
    if kind[0] == 0 || kind[1] == 0 || kind[2] == 0 {
      assert r[3] == 0;
    }
  }

  lemma {:induction false} NothingBehind(blobs: seq<Option<Blob>>, n: nat)
    requires n <= |blobs| && Kinds(blobs) && forall i :: n <= i < |blobs| ==> blobs[i].None?
    ensures Compact(blobs, n) == []
    decreases |blobs| - n
  {
    if n < |blobs| {
      NothingBehind(blobs, n + 1);
    }
  }

  lemma {:induction false} CompactDense(blobs: seq<Option<Blob>>, n: nat)
    requires n <= |blobs| && Kinds(blobs) && NormalBlobs(blobs)
    ensures var r := Compact(blobs, n);
            && (forall i :: 0 <= i < |r| ==> blobs[n + i] == Some(r[i]))
            && (forall i :: n + |r| <= i < |blobs| ==> blobs[i].None?)
    decreases |blobs| - n
  {
    if n < |blobs| {
      CompactDense(blobs, n + 1);
      var r, more := Compact(blobs, n), Compact(blobs, n + 1);
      if blobs[n].Some? {
        KindIsSame(blobs[n].value.kind);
        assert forall i :: 0 < i < |r| ==> r[i] == more[i - 1] && blobs[n + i] == blobs[n + 1 + (i - 1)];
      } else {
        forall i | n <= i < |blobs| ensures blobs[i].None? {
        }
        NothingBehind(blobs, n);
      }
    }
  }

  lemma {:induction false} CompactPadded(blobs: seq<Option<Blob>>, n: nat)
    requires n <= |blobs| && Kinds(blobs)
    ensures forall b <- Compact(blobs, n) :: Padded(b.kind)
    decreases |blobs| - n
  {
    if n < |blobs| {
      CompactPadded(blobs, n + 1);
      if blobs[n].Some? {
        KindIsSame(blobs[n].value.kind);
      }
    }
  }

  lemma BlobsAreSame(blobs: seq<Option<Blob>>)
    requires |blobs| == MAX_BLOBS && Kinds(blobs)
    ensures Slots(Compact(blobs, 0)) == blobs <==> NormalBlobs(blobs)
  {
    var r := Compact(blobs, 0);
    if Slots(r) == blobs {
      CompactPadded(blobs, 0);
      forall i | 0 <= i < |blobs| && blobs[i].Some? ensures Padded(blobs[i].value.kind) {
        assert blobs[i] == Slots(r)[i] && r[i] in r;
      }
      forall i, j | 0 <= i < j < |blobs| && blobs[j].Some? ensures blobs[i].Some? {
        assert blobs[j] == Slots(r)[j] && blobs[i] == Slots(r)[i];
      }
    }
    if NormalBlobs(blobs) {
      CompactDense(blobs, 0);
      assert forall i :: 0 <= i < |blobs| ==> Slots(r)[i] == blobs[i];
    }
  }

  lemma DatesAreSame(c: Contact)
    requires c.birthday.Some? ==> RealDay(c.birthday.value.date)
    ensures NormalBirthday(c) == c.birthday && NormalReminder(c) == c.reminder
       <==> && (c.birthday.Some? ==>
                  var b := c.birthday.value;
                  && YearFits(b.date) && Byte(b.units) && (c.reminder.None? ==> b.units == 0))
            && (c.reminder.Some? ==> c.birthday.Some? && Byte(c.reminder.value))
  {
  }

  /** A contact survives packing and unpacking unchanged if and only if it is in normal form and its pictures have
    the two bytes in front of the image. */
  lemma ReadsBackExactly(c: Contact)
    requires WellFormed(c)
    ensures Unpack(Packed(c)) == Done(c, PictureOf(Compact(c.blobs, 0)), |Packed(c)|)
       <==> IsNormal(c) && PicturesFit(c)
  {
    hide PicturesFit, Unpack, Packed, Low4, NormalEntries, NormalBirthday, NormalReminder, Compact, NormalBlobs,
         Nibble, Byte;
    ContactReadsBack(c);
    Low4IsSame(c.phoneLabel);
    Low4IsSame(c.addressLabel);
    Low4IsSame(c.imLabel);
    ShowPhoneIsSame(c.showPhone);
    EntriesAreSame(c.entries, FIRST_FIELDS);
    DatesAreSame(c);
    BlobsAreSame(c.blobs);
  }

  lemma ShowPhoneIsSame(x: int)
    ensures x % 16 == x <==> Nibble(x)
  {
  }
}
