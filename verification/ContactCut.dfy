/** Contact records that are cut off. `unpack_Contact` looks for one more byte before each part of a record, not for
  as many as the part has. */
module ContactCut {
  import opened Bytes
  import opened Common
  import opened Bits
  import opened Fields
  import opened ContactFormat
  import opened ContactRoundTrip

  // ---- strings ---------------------------------------------------------------------------------------------------

  /** The first `j` bytes of the first `n` strings end inside one of them, its terminator included. */
  predicate InsideText(entries: seq<Option<text>>, n: nat, j: nat)
    requires n <= |entries|
  {
    n > 0 &&
    var start := |Texts(entries, n - 1)|;
    if j < start then InsideText(entries, n - 1, j) else start < j < |Texts(entries, n)|
  }

  lemma TextCut(data: seq<byte>, before: seq<byte>, e: Option<text>, j: nat)
    requires j < |TextBytes(e)| && data == before + TextBytes(e)[..j]
    ensures Stored(e) && ReadText(data, |before|, true) == if j == 0 then Short else Overrun
  {
    if j > 0 {
      assert forall i :: |before| <= i < |data| ==> data[i] == e.value[i - |before|];
    }
  }

  lemma {:induction false} TextsCut(data: seq<byte>, before: seq<byte>, entries: seq<Option<text>>, n: nat, mask: nat,
                                    j: nat)
    requires n <= |entries| && forall i :: 0 <= i < n ==> BitAt(mask, i) == Stored(entries[i])
    requires j < |Texts(entries, n)| && data == before + Texts(entries, n)[..j]
    ensures ReadTexts(data, |before|, mask, n) == if InsideText(entries, n, j) then Overrun else Short
  {
    hide Stored, ReadText, ReadTexts, Texts, TextBytes, NormalEntries, NormalEntry, BitAt;
    NoTexts(entries);
    if n > 0 {
      var front, last := Texts(entries, n - 1), TextBytes(entries[n - 1]);
      MoreText(entries, n, before, j);
      if j < |front| {
        TextsCut(data, before, entries, n - 1, mask, j);
        FailureGoesOn(data, |before|, mask, n);
      } else {
        var i := j - |front|;
        TextsReadBack(data, before, entries, n - 1, mask, last[..i]);
        TextCut(data, before + front, entries[n - 1], i);
        LastFails(data, |before|, mask, n);
      }
    }
  }

  lemma NoTexts(entries: seq<Option<text>>)
    ensures Texts(entries, 0) == []
  {
  }

  lemma MoreText(entries: seq<Option<text>>, n: nat, before: seq<byte>, j: nat)
    requires 0 < n <= |entries| && j <= |Texts(entries, n)|
    ensures var front, last := Texts(entries, n - 1), TextBytes(entries[n - 1]);
            && |Texts(entries, n)| == |front| + |last|
            && (j < |front| ==> before + Texts(entries, n)[..j] == before + front[..j])
            && (j >= |front| ==> before + Texts(entries, n)[..j] == before + front + last[..j - |front|])
  {
    hide TextBytes;
    var front, last := Texts(entries, n - 1), TextBytes(entries[n - 1]);
    if j < |front| {
      assert (front + last)[..j] == front[..j];
    } else {
      assert (front + last)[..j] == front + last[..j - |front|];
      Associates(before, front, last[..j - |front|]);
    }
  }

  lemma FailureGoesOn(data: seq<byte>, pos: nat, mask: nat, n: nat)
    requires n > 0 && !ReadTexts(data, pos, mask, n - 1).Part?
    ensures ReadTexts(data, pos, mask, n) == ReadTexts(data, pos, mask, n - 1)
  {
    hide ReadText, BitAt;
  }

  lemma LastFails(data: seq<byte>, pos: nat, mask: nat, n: nat)
    requires n > 0 && ReadTexts(data, pos, mask, n - 1).Part?
    ensures var r := ReadText(data, ReadTexts(data, pos, mask, n - 1).next, BitAt(mask, n - 1));
            (r.Short? ==> ReadTexts(data, pos, mask, n) == Short)
            && (r.Overrun? ==> ReadTexts(data, pos, mask, n) == Overrun)
  {
    hide ReadText, BitAt;
  }

  // ---- the birthday ----------------------------------------------------------------------------------------------

  lemma BirthdayCut(data: seq<byte>, before: seq<byte>, c: Contact, mask: nat, j: nat)
    requires BitAt(mask, 11) == BitAt(mask, 12) == c.birthday.Some?
    requires BitAt(mask, 13) == (c.birthday.Some? && c.reminder.Some?)
    requires j < |BirthdayBytes(c)| && data == before + BirthdayBytes(c)[..j]
    ensures var b := ReadBirthday(data, |before|, mask);
            if 0 < j < 4 then b == Overrun
            else b == Short || (b.Part? && ReadReminder(data, b.next, mask) == Short)
  {
    hide ShortBytes, GetShort, DateWord, WordDate, BitAt;
  }

  // ---- blobs -----------------------------------------------------------------------------------------------------

  /** In the first `j` bytes of the blobs from slot `n` on there is a picture that is too short, or they end inside a
    blob, at least six bytes into it. */
  predicate PastBlob(blobs: seq<Option<Blob>>, n: nat, j: nat)
    requires n <= |blobs|
    decreases |blobs| - n
  {
    n < |blobs| &&
    var size := |BlobBytes(blobs[n])|;
    if j < size then j >= 6 else Misfit(blobs[n]) || PastBlob(blobs, n + 1, j - size)
  }

  lemma {:induction false} BlobsCut(data: seq<byte>, before: seq<byte>, blobs: seq<Option<Blob>>, n: nat,
                                    front: seq<Blob>, j: nat)
    requires n <= |blobs| && |front| + |blobs| - n <= MAX_BLOBS && Kinds(blobs)
    requires j <= |BlobsFrom(blobs, n)| && data == before + BlobsFrom(blobs, n)[..j]
    ensures ReadBlobs(data, |before|, front).Overrun? <==> PastBlob(blobs, n, j)
    decreases |blobs| - n
  {
    hide ReadBlobs, BlobBytes, BlobsFrom, Misfit, CopiedKind, NormalBlob;
    if n == |blobs| {
      NoBlobs(blobs);
      assert data == before;
      ReadNothing(data, front);
    } else {
      var bytes, rest := BlobBytes(blobs[n]), BlobsFrom(blobs, n + 1);
      BlobsParts(blobs, n, before, j);
      if j < |bytes| {
        BlobCut(data, before, blobs[n].value, front, j);
      } else if blobs[n].None? {
        NoBlob(before, blobs[n]);
        BlobsCut(data, before, blobs, n + 1, front, j);
      } else {
        OneBlob(data, before, blobs[n].value, rest[..j - |bytes|], front);
        BlobsCut(data, before + bytes, blobs, n + 1, front + [NormalBlob(blobs[n].value)], j - |bytes|);
      }
    }
  }

  lemma BlobsParts(blobs: seq<Option<Blob>>, n: nat, before: seq<byte>, j: nat)
    requires n < |blobs| && j <= |BlobsFrom(blobs, n)|
    ensures var bytes, rest := BlobBytes(blobs[n]), BlobsFrom(blobs, n + 1);
            && |BlobsFrom(blobs, n)| == |bytes| + |rest|
            && (j < |bytes| ==> blobs[n].Some? && before + BlobsFrom(blobs, n)[..j] == before + bytes[..j])
            && (j >= |bytes| ==> before + BlobsFrom(blobs, n)[..j] == before + bytes + rest[..j - |bytes|])
  {
    hide BlobBytes;
    var bytes, rest := BlobBytes(blobs[n]), BlobsFrom(blobs, n + 1);
    if j < |bytes| {
      assert (bytes + rest)[..j] == bytes[..j];
      NoBytes(blobs[n]);
    } else {
      assert (bytes + rest)[..j] == bytes + rest[..j - |bytes|];
      Associates(before, bytes, rest[..j - |bytes|]);
    }
  }

  lemma NoBytes(b: Option<Blob>)
    ensures b.None? ==> BlobBytes(b) == []
  {
  }

  lemma BlobCut(data: seq<byte>, before: seq<byte>, b: Blob, front: seq<Blob>, j: nat)
    requires |b.kind| == 4 && |b.data| <= 0xffff && |front| < MAX_BLOBS
    requires j < |BlobBytes(Some(b))| && data == before + BlobBytes(Some(b))[..j]
    ensures ReadBlobs(data, |before|, front).Overrun? <==> j >= 6
  {
    hide GetShort, ShortBytes, CopiedKind;
    if j >= 6 {
      var pos := |before|;
      assert data[pos + 4..pos + 6] == ShortBytes(|b.data|);
      ShortRoundTrip(data, pos + 4, |b.data|);
    }
  }

  // ---- the whole record ------------------------------------------------------------------------------------------

  /** Where a record of `k` bytes is read past its end. */
  predicate ReadsPast(c: Contact, k: nat)
    requires |c.entries| == FIELDS
  {
    var first, other := c.entries[..FIRST_FIELDS], c.entries[FIRST_FIELDS..];
    var at1 := FIXED + |Texts(first, FIRST_FIELDS)|;
    var at2 := at1 + |Texts(other, OTHER_FIELDS)|;
    var at3 := at2 + |BirthdayBytes(c)|;
    if k < FIXED then false
    else if k < at1 then InsideText(first, FIRST_FIELDS, k - FIXED)
    else if k < at2 then InsideText(other, OTHER_FIELDS, k - at1)
    else if k < at3 then 0 < k - at2 < 4
    else PastBlob(c.blobs, 0, k - at3)
  }

  /** A record of a contact that is cut off, or is not, is read past its end, without notice, if and only if it ends
    inside a string, inside the four bytes of the birthday, or six bytes or more into a blob, or has a picture that
    is too short. */
  lemma CutIsOverrun(c: Contact, k: nat)
    requires WellFormed(c) && k <= |Packed(c)|
    ensures Unpack(Packed(c)[..k]).OverrunRecord? <==> ReadsPast(c, k)
  {
    hide Fixed, Texts, BirthdayBytes, BlobsFrom, GetLong, Nibbles, ReadTexts, ReadBirthday, ReadReminder, ReadBlobs,
         BitAt, Contents1, Contents2, NormalEntries, NormalBirthday, NormalReminder, Stored, PictureOf, InsideText,
         PastBlob, Slots;
    var data := Packed(c)[..k];
    var f, first, other := Fixed(c), c.entries[..FIRST_FIELDS], c.entries[FIRST_FIELDS..];
    var t, u := Texts(first, FIRST_FIELDS), Texts(other, OTHER_FIELDS);
    var b, l := BirthdayBytes(c), BlobsFrom(c.blobs, 0);
    if k < FIXED {
      return;
    }
    Tails(f, t, u, b, l);
    FlagsTell(c);
    assert data == f + data[FIXED..];
    FixedReadsBack(data, c, data[FIXED..]);
    CutAt(data, f, t, u + (b + (l + [])), k);
    if k < |f + t| {
      TextsCut(data, f, first, FIRST_FIELDS, Contents1(c), k - |f|);
      return;
    }
    TextsReadBack(data, f, first, FIRST_FIELDS, Contents1(c), (u + (b + (l + [])))[..k - |f| - |t|]);
    CutAt(data, f + t, u, b + (l + []), k);
    if k < |f + t + u| {
      TextsCut(data, f + t, other, OTHER_FIELDS, Contents2(c), k - |f + t|);
      return;
    }
    TextsReadBack(data, f + t, other, OTHER_FIELDS, Contents2(c), (b + (l + []))[..k - |f + t| - |u|]);
    CutAt(data, f + t + u, b, l + [], k);
    if k < |f + t + u + b| {
      BirthdayCut(data, f + t + u, c, Contents2(c), k - |f + t + u|);
      return;
    }
    BirthdayReadsBack(data, f + t + u, c, Contents2(c), (l + [])[..k - |f + t + u| - |b|]);
    ReminderReadsBack(data, f + t + u, c, Contents2(c), (l + [])[..k - |f + t + u| - |b|]);
    assert l + [] == l;
    BlobsCut(data, f + t + u + b, c.blobs, 0, [], k - |f + t + u + b|);
  }

  lemma Tails(f: seq<byte>, t: seq<byte>, u: seq<byte>, b: seq<byte>, l: seq<byte>)
    ensures f + t + u + b + l == f + (t + (u + (b + (l + []))))
  {
  }

  /** Eighteen bytes: a mask that tells of one string, and one character of it. */
  function Unterminated(): seq<byte> { [0, 0, 0, 0, 0, 0, 0, 0, 0, 0, 0, 1, 0, 0, 0, 0, 0, 65] }

  lemma StringIsUnterminated()
    ensures Unpack(Unterminated()).OverrunRecord?
  {
    hide BitAt;
    var data := Unterminated();
    assert GetLong(data, 8) == 1;
    FirstBit();
    assert ReadText(data, FIXED, BitAt(1, 0)) == Overrun;
    assert ReadTexts(data, FIXED, 1, 0) == Part([], FIXED);
    OverrunStays(data, 1, FIRST_FIELDS);
  }

  lemma FirstBit()
    ensures BitAt(1, 0)
  {
  }

  lemma {:induction false} OverrunStays(data: seq<byte>, mask: nat, n: nat)
    requires 0 < n && ReadTexts(data, FIXED, mask, 1) == Overrun
    ensures ReadTexts(data, FIXED, mask, n) == Overrun
  {
    if n > 1 {
      OverrunStays(data, mask, n - 1);
    }
  }
}
