/** `pack_Contact` and `unpack_Contact` of libpisock/contact.c. */
module ContactCodec {
  import opened Bytes
  import opened Common
  import opened Bits
  import opened Fields
  import opened PiBuffer
  import opened ContactFormat

  /** The bytes behind the fixed part up to `at`. */
  ghost predicate Written(buf: Buffer, at: nat, bytes: seq<byte>)
    reads buf, buf.data
  {
    FIXED <= at <= buf.data.Length && buf.data[FIXED..at] == bytes
  }

  /** `memcpy` at the moving pointer. */
  method Put(buf: Buffer, at: nat, src: seq<byte>, ghost bytes: seq<byte>) returns (next: nat)
    requires buf.Valid() && Written(buf, at, bytes) && at + |src| <= buf.data.Length
    modifies buf.data
    ensures next == at + |src| && Written(buf, next, bytes + src)
  {
    hide Overlay;
    ghost var mem := buf.data[..];
    buf.Store(at, src);
    next := at + |src|;
    OverlayBehind(mem, at, src);
  }

  lemma OverlayBehind(mem: seq<byte>, at: nat, src: seq<byte>)
    requires FIXED <= at && at + |src| <= |mem|
    ensures Overlay(mem, at, src)[FIXED..at + |src|] == mem[FIXED..at] + src
  {
    var r := Overlay(mem, at, src);
    assert r[FIXED..at + |src|] == r[FIXED..at] + r[at..at + |src|];
    assert r[..at][FIXED..] == mem[..at][FIXED..];
  }

  // ---- packing ---------------------------------------------------------------------------------------------------

  lemma {:induction false} TextsGrow(entries: seq<Option<text>>, k: nat, n: nat)
    requires k <= n <= |entries|
    ensures |Texts(entries, k)| <= |Texts(entries, n)|
    decreases n - k
  {
    if k < n {
      TextsGrow(entries, k, n - 1);
    }
  }

  function Lengths(entries: seq<Option<text>>, n: nat): nat
    requires n <= |entries|
  {
    if n == 0 then 0 else Lengths(entries, n - 1) + Length(entries[n - 1])
  }

  lemma {:induction false} LengthsSuffice(entries: seq<Option<text>>, m: nat, n: nat)
    requires m <= |entries| && n <= |entries| - m
    ensures |Texts(entries[..m], m)| + |Texts(entries[m..], n)| <= Lengths(entries, m + n)
    decreases n, m
  {
    if n > 0 {
      LengthsSuffice(entries, m, n - 1);
    } else if m > 0 {
      LengthsSuffice(entries, m - 1, 0);
      SameTexts(entries[..m], entries[..m - 1], m - 1);
      assert Texts(entries[m..], 0) == [] == Texts(entries[m - 1..], 0);
    }
  }

  lemma {:induction false} SameTexts(a: seq<Option<text>>, b: seq<Option<text>>, n: nat)
    requires n <= |a| && n <= |b| && a[..n] == b[..n]
    ensures Texts(a, n) == Texts(b, n)
  {
    if n > 0 {
      assert a[..n - 1] == a[..n][..n - 1] == b[..n - 1];
      assert a[n - 1] == a[..n][n - 1] == b[n - 1];
      SameTexts(a, b, n - 1);
    }
  }

  /** The first part of `pack_Contact`: room for everything that will be written. */
  method Room(c: Contact) returns (room: nat)
    requires WellFormed(c)
    ensures room >= |Packed(c)|
  {
    hide TextBytes, BlobBytes, Texts, Fixed;
    room := FIXED;
    for i := 0 to FIELDS
      invariant room == FIXED + Lengths(c.entries, i)
    {
      if c.entries[i].Some? {
        room := room + |c.entries[i].value| + 1;
      }
    }
    if c.birthday.Some? {
      room := room + 3 + if c.reminder.Some? then 2 else 1;
    }
    ghost var before: nat := room;
    for i := 0 to MAX_BLOBS
      invariant room + |BlobsFrom(c.blobs, i)| == before + |BlobsFrom(c.blobs, 0)|
    {
      BlobLength(c.blobs[i]);
      if c.blobs[i].Some? {
        room := room + |c.blobs[i].value.data| + 6;
      }
    }
    LengthsSuffice(c.entries, FIRST_FIELDS, OTHER_FIELDS);
    assert |BirthdayBytes(c)| == if c.birthday.None? then 0 else if c.reminder.Some? then 5 else 4;
  }

  lemma BlobLength(b: Option<Blob>)
    ensures |BlobBytes(b)| == if b.Some? then |b.value.kind| + 2 + |b.value.data| else 0
  {
  }

  /** One of the two loops over the strings. */
  method PutTexts(buf: Buffer, start: nat, entries: seq<Option<text>>, n: nat, ghost bytes: seq<byte>)
    returns (at: nat, mask: nat)
    requires buf.Valid() && n <= |entries| && Written(buf, start, bytes)
    requires start + |Texts(entries, n)| <= buf.data.Length
    modifies buf.data
    ensures at == start + |Texts(entries, n)| && Written(buf, at, bytes + Texts(entries, n))
    ensures mask == Mask(Present(entries), n)
  {
    hide Written, OrBit, Mask, Texts, Present;
    at, mask := start, 0;
    TextsNone(entries, bytes);
    for i := 0 to n
      invariant at == start + |Texts(entries, i)| && Written(buf, at, bytes + Texts(entries, i))
      invariant mask == Mask(Present(entries), i)
    {
      TextsGrow(entries, i + 1, n);
      TextsNext(entries, i, bytes);
      if entries[i].Some? && |entries[i].value| > 0 {
        mask := OrBit(mask, i);
        at := Put(buf, at, entries[i].value + [0], bytes + Texts(entries, i));
      }
    }
  }

  lemma TextsNone(entries: seq<Option<text>>, bytes: seq<byte>)
    ensures Texts(entries, 0) == [] && bytes + Texts(entries, 0) == bytes && Mask(Present(entries), 0) == 0
  {
  }

  lemma TextsNext(entries: seq<Option<text>>, i: nat, bytes: seq<byte>)
    requires i < |entries|
    ensures var e := entries[i];
            if e.Some? && |e.value| > 0 then
              && |Texts(entries, i + 1)| == |Texts(entries, i)| + |e.value| + 1
              && bytes + Texts(entries, i + 1) == bytes + Texts(entries, i) + (e.value + [0])
              && Mask(Present(entries), i + 1) == OrBit(Mask(Present(entries), i), i)
            else
              && Texts(entries, i + 1) == Texts(entries, i)
              && Mask(Present(entries), i + 1) == Mask(Present(entries), i)
  {
    hide OrBit;
  }

  /** The birthday and its reminder. */
  method PutBirthday(buf: Buffer, start: nat, c: Contact, strings: nat, ghost bytes: seq<byte>)
    returns (at: nat, contents2: nat)
    requires buf.Valid() && WellFormed(c) && Written(buf, start, bytes)
    requires start + |BirthdayBytes(c)| <= buf.data.Length
    requires strings == Mask(Present(c.entries[FIRST_FIELDS..]), OTHER_FIELDS)
    modifies buf.data
    ensures at == start + |BirthdayBytes(c)| && Written(buf, at, bytes + BirthdayBytes(c)) && contents2 == Contents2(c)
  {
    hide Written, OrBit, ShortBytes, DateWord, Mask;
    at, contents2 := start, strings;
    assert bytes + [] == bytes;
    if c.birthday.Some? {
      contents2 := OrBit(OrBit(contents2, 11), 12);
      var b := c.birthday.value;
      var date := ShortBytes(DateWord(b.date));
      at := Put(buf, at, date, bytes);
      at := Put(buf, at, [0], bytes + date);
      ghost var so := bytes + date + [0];
      if c.reminder.Some? {
        contents2 := OrBit(contents2, 13);
        at := Put(buf, at, [b.units % 256], so);
        at := Put(buf, at, [c.reminder.value % 256], so + [b.units % 256]);
        assert so + [b.units % 256] + [c.reminder.value % 256] == bytes + BirthdayBytes(c);
      } else {
        at := Put(buf, at, [0], so);
        assert so + [0] == bytes + BirthdayBytes(c);
      }
    }
  }

  /** The loop over the blobs. */
  method PutBlobs(buf: Buffer, start: nat, blobs: seq<Option<Blob>>, ghost bytes: seq<byte>) returns (at: nat)
    requires buf.Valid() && Written(buf, start, bytes) && start + |BlobsFrom(blobs, 0)| <= buf.data.Length
    modifies buf.data
    ensures at == start + |BlobsFrom(blobs, 0)| && Written(buf, at, bytes + BlobsFrom(blobs, 0))
  {
    hide Written, ShortBytes;
    at := start;
    ghost var so, all := bytes, bytes + BlobsFrom(blobs, 0);
    for i := 0 to |blobs|
      invariant at + |BlobsFrom(blobs, i)| == start + |BlobsFrom(blobs, 0)|
      invariant Written(buf, at, so) && so + BlobsFrom(blobs, i) == all
    {
      ghost var bytes', rest := BlobBytes(blobs[i]), BlobsFrom(blobs, i + 1);
      assert so + (bytes' + rest) == so + bytes' + rest;
      if blobs[i].Some? {
        var b := blobs[i].value;
        at := Put(buf, at, b.kind, so);
        at := Put(buf, at, ShortBytes(|b.data|), so + b.kind);
        at := Put(buf, at, b.data, so + b.kind + ShortBytes(|b.data|));
        assert so + b.kind + ShortBytes(|b.data|) + b.data == so + bytes';
      } else {
        assert so + [] == so;
      }
      so := so + bytes';
    }
    assert so + [] == so;
  }

  /** The fixed part, written last, in front of everything else. */
  method PutFixed(buf: Buffer, c: Contact, contents1: nat, contents2: nat, end: nat, ghost bytes: seq<byte>)
    requires buf.Valid() && WellFormed(c) && Written(buf, end, bytes)
    requires contents1 == Contents1(c) && contents2 == Contents2(c)
    modifies buf.data
    ensures end <= buf.data.Length && buf.data[..end] == Fixed(c) + bytes
  {
    hide LongBytes, Contents1, Contents2, Labels, Overlay;
    var offset := 0;
    if c.entries[2].Some? {
      offset := 1;
      if c.entries[0].Some? {
        offset := offset + |c.entries[0].value| + 1;
      }
      if c.entries[1].Some? {
        offset := offset + |c.entries[1].value| + 1;
      }
    }
    var head := LabelBytes(c) + LongBytes(contents1) + LongBytes(contents2) + [offset % 256];
    ghost var mem := buf.data[..];
    buf.Store(0, head);
    OverlayFront(mem, head, end);
  }

  lemma OverlayFront(mem: seq<byte>, head: seq<byte>, end: nat)
    requires |head| == FIXED <= end <= |mem|
    ensures Overlay(mem, 0, head)[..end] == head + mem[FIXED..end]
  {
    var r := Overlay(mem, 0, head);
    assert r[..end] == r[0..FIXED] + r[FIXED..end];
  }

  /** The two words of labels, put together by shifts. */
  function LabelBytes(c: Contact): (s: seq<byte>)
    requires |c.phoneLabel| == 7 && |c.addressLabel| == 3 && |c.imLabel| == 2
    ensures s == Labels(c)
  {
    var p, a, m := c.phoneLabel, c.addressLabel, c.imLabel;
    var phoneflag := p[0] % 16 + p[1] % 16 * 0x10 + p[2] % 16 * 0x100 + p[3] % 16 * 0x1000 + p[4] % 16 * 0x1_0000
                     + p[5] % 16 * 0x10_0000 + p[6] % 16 * 0x100_0000 + c.showPhone % 16 * 0x1000_0000;
    var typesflag := m[0] % 16 + m[1] % 16 * 0x10 + a[0] % 16 * 0x1_0000 + a[1] % 16 * 0x10_0000
                     + a[2] % 16 * 0x100_0000;
    FourPairs(p[0] % 16, p[1] % 16, p[2] % 16, p[3] % 16, p[4] % 16, p[5] % 16, p[6] % 16, c.showPhone % 16);
    FourPairs(m[0] % 16, m[1] % 16, 0, 0, a[0] % 16, a[1] % 16, a[2] % 16, 0);
    LongBytes(phoneflag) + LongBytes(typesflag)
  }

  /** Eight half bytes in a word. */
  lemma FourPairs(l0: nat, l1: nat, l2: nat, l3: nat, l4: nat, l5: nat, l6: nat, l7: nat)
    requires l0 < 16 && l1 < 16 && l2 < 16 && l3 < 16 && l4 < 16 && l5 < 16 && l6 < 16 && l7 < 16
    ensures LongBytes(l0 + l1 * 0x10 + l2 * 0x100 + l3 * 0x1000 + l4 * 0x1_0000 + l5 * 0x10_0000 + l6 * 0x100_0000
                      + l7 * 0x1000_0000)
         == [l7 * 16 + l6, l5 * 16 + l4, l3 * 16 + l2, l1 * 16 + l0]
  {
    var b0, b1, b2, b3 := l1 * 16 + l0, l3 * 16 + l2, l5 * 16 + l4, l7 * 16 + l6;
    var v := b0 + 0x100 * (b1 + 0x100 * (b2 + 0x100 * b3));
    assert v / 0x100 == b1 + 0x100 * (b2 + 0x100 * b3);
    assert v / 0x100 / 0x100 == b2 + 0x100 * b3;
    assert v / 0x100 / 0x100 / 0x100 == b3;
  }

  /** `pack_Contact`. Whatever the buffer held is overwritten. */
  method Pack(c: Contact, buf: Buffer) returns (used: nat)
    requires WellFormed(c) && buf.Valid()
    modifies buf, buf.data
    ensures buf.Valid() && buf.Contents() == Packed(c) && used == |Packed(c)|
  {
    hide Texts, BirthdayBytes, BlobsFrom, Fixed, Contents1, Contents2, Mask, Written;
    var room := Room(c);
    buf.Expect(room);
    var first, other := c.entries[..FIRST_FIELDS], c.entries[FIRST_FIELDS..];
    var at, contents1, contents2;
    ghost var t1, t2, b, l := Texts(first, FIRST_FIELDS), Texts(other, OTHER_FIELDS), BirthdayBytes(c),
                              BlobsFrom(c.blobs, 0);
    assert Written(buf, FIXED, []) by { NothingWritten(buf); }
    assert [] + t1 == t1;
    at, contents1 := PutTexts(buf, FIXED, first, FIRST_FIELDS, []);
    at, contents2 := PutTexts(buf, at, other, OTHER_FIELDS, t1);
    at, contents2 := PutBirthday(buf, at, c, contents2, t1 + t2);
    at := PutBlobs(buf, at, c.blobs, t1 + t2 + b);
    assert contents1 == Contents1(c) by { ContentsIs(c); }
    PutFixed(buf, c, contents1, contents2, at, t1 + t2 + b + l);
    buf.used := at;
    assert Fixed(c) + (t1 + t2 + b + l) == Packed(c);
    used := at;
  }

  lemma NothingWritten(buf: Buffer)
    requires buf.data.Length >= FIXED
    ensures Written(buf, FIXED, [])
  {
  }

  lemma ContentsIs(c: Contact)
    requires |c.entries| == FIELDS
    ensures Contents1(c) == Mask(Present(c.entries[..FIRST_FIELDS]), FIRST_FIELDS)
  {
  }

  // ---- unpacking -------------------------------------------------------------------------------------------------

  lemma {:induction false} FailureStays(data: seq<byte>, pos: nat, mask: nat, i: nat, n: nat)
    requires i <= n && !ReadTexts(data, pos, mask, i).Part?
    ensures ReadTexts(data, pos, mask, n) == ReadTexts(data, pos, mask, i)
    decreases n
  {
    hide ReadText, BitAt;
    if i < n {
      FailureStays(data, pos, mask, i, n - 1);
    }
  }

  /** One of the two loops over the strings. */
  method TakeTexts(data: seq<byte>, start: nat, mask: nat, n: nat) returns (r: Part<seq<Option<text>>>)
    ensures r == ReadTexts(data, start, mask, n)
  {
    hide BitAt;
    var entries: seq<Option<text>>, pos: nat := [], start;
    for i := 0 to n
      invariant ReadTexts(data, start, mask, i) == Part(entries, pos)
    {
      if BitAt(mask, i) {
        if pos >= |data| {
          FailureStays(data, start, mask, i + 1, n);
          return Short;
        }
        var k := FindTerminator(data, pos);
        if k == |data| {
          FailureStays(data, start, mask, i + 1, n);
          return Overrun;
        }
        var e: text := data[pos..k];
        entries, pos := entries + [Some(e)], k + 1;
      } else {
        entries := entries + [None];
      }
    }
    r := Part(entries, pos);
  }

  /** The loop over the blobs, with the picture among them. */
  method TakeBlobs(data: seq<byte>, start: nat) returns (r: Part<seq<Blob>>, picture: Option<Picture>)
    ensures r == ReadBlobs(data, start, [])
    ensures r.Part? ==> picture == PictureOf(r.value)
  {
    hide GetShort, CopiedKind, ReadBlobs, PictureOf;
    var blobs, pos: nat := [], start;
    picture := None;
    NoPicture();
    while |data| >= pos + 6
      invariant |blobs| <= MAX_BLOBS && picture == PictureOf(blobs)
      invariant ReadBlobs(data, start, []) == ReadBlobs(data, pos, blobs)
      decreases |data| - pos
    {
      ReadBlobsStep(data, pos, blobs);
      if |blobs| >= MAX_BLOBS {
        break;
      }
      var kind, length := CopiedKind(data[pos..pos + 4]), GetShort(data, pos + 4);
      if pos + 6 + length > |data| {
        return Overrun, None;
      }
      var b := Blob(kind, data[pos + 6..pos + 6 + length]);
      if kind == PICTURE {
        if length < 2 {
          return Overrun, None;
        }
        picture := Some(Picture(GetShort(b.data, 0), b.data[2..]));
      }
      PictureStep(blobs, b);
      blobs := blobs + [b];
      pos := pos + 6 + length;
    }
    ReadBlobsStep(data, pos, blobs);
    r := Part(blobs, pos);
  }

  lemma NoPicture()
    ensures PictureOf([]) == None
  {
  }

  lemma PictureStep(blobs: seq<Blob>, b: Blob)
    ensures PictureOf(blobs + [b])
         == if b.kind == PICTURE && |b.data| >= 2 then Some(Picture(GetShort(b.data, 0), b.data[2..]))
            else PictureOf(blobs)
  {
    hide GetShort;
    assert (blobs + [b])[..|blobs|] == blobs;
  }

  lemma ReadBlobsStep(data: seq<byte>, pos: nat, front: seq<Blob>)
    requires |front| <= MAX_BLOBS
    ensures |data| < pos + 6 || |front| == MAX_BLOBS ==> ReadBlobs(data, pos, front) == Part(front, pos)
    ensures |data| >= pos + 6 && |front| < MAX_BLOBS ==>
              var kind, end := CopiedKind(data[pos..pos + 4]), pos + 6 + GetShort(data, pos + 4);
              ReadBlobs(data, pos, front)
              == if end > |data| || (kind == PICTURE && GetShort(data, pos + 4) < 2) then Overrun
                 else ReadBlobs(data, end, front + [Blob(kind, data[pos + 6..end])])
  {
    hide GetShort, CopiedKind;
  }

  /** `unpack_Contact` */
  method Extract(data: seq<byte>) returns (r: Unpacked)
    ensures r == Unpack(data)
  {
    hide GetLong, GetShort, BitAt, ReadTexts, ReadBlobs, PictureOf;
    if |data| < FIXED {
      return Failed(-1);
    }
    var (showPhone, phoneLabel, addressLabel, imLabel) := Nibbles(data);
    var contents1, contents2 := GetLong(data, 8), GetLong(data, 12);
    var first := TakeTexts(data, FIXED, contents1, FIRST_FIELDS);
    if !first.Part? {
      return if first.Short? then Failed(0) else OverrunRecord;
    }
    var other := TakeTexts(data, first.next, contents2, OTHER_FIELDS);
    if !other.Part? {
      return if other.Short? then Failed(0) else OverrunRecord;
    }
    var pos, birthday, reminder := other.next, None, None;
    if BitAt(contents2, 11) || BitAt(contents2, 12) {
      if pos >= |data| {
        return Failed(0);
      }
      if pos + 4 > |data| {
        return OverrunRecord;
      }
      birthday := Some(Birthday(WordDate(GetShort(data, pos)), data[pos + 3]));
      pos := pos + 4;
    }
    if BitAt(contents2, 13) {
      if pos >= |data| {
        return Failed(0);
      }
      reminder := Some(data[pos] as int);
      pos := pos + 1;
    }
    var blobs, picture := TakeBlobs(data, pos);
    if blobs.Overrun? {
      return OverrunRecord;
    }
    r := Done(Contact(showPhone, phoneLabel, addressLabel, imLabel, first.value + other.value, birthday, reminder,
                      Slots(blobs.value)), picture, blobs.next);
  }
}
