/** The record format of libpisock/contact.c: what a contact is packed to, and what a record is unpacked to. */
module ContactFormat {
  import opened Bytes
  import opened Common
  import opened Bits
  import opened Fields

  const FIXED := 17
  const FIRST_FIELDS := 28
  const OTHER_FIELDS := 11
  const FIELDS := 39
  const PICTURE: seq<byte> := [66, 100, 48, 48]  // "Bd00"

  datatype Blob = Blob(kind: seq<byte>, data: seq<byte>)

  /** A birthday and the unit of the reminder's advance. */
  datatype Birthday = Birthday(date: Date, units: int)

  /** `struct Contact`. The reminder holds its advance; it is stored with a birthday only. */
  datatype Contact = Contact(showPhone: int, phoneLabel: seq<int>, addressLabel: seq<int>, imLabel: seq<int>,
                             entries: seq<Option<text>>, birthday: Option<Birthday>, reminder: Option<int>,
                             blobs: seq<Option<Blob>>)

  ghost predicate WellFormed(c: Contact) {
    && |c.phoneLabel| == 7 && |c.addressLabel| == 3 && |c.imLabel| == 2 && |c.entries| == FIELDS
    && |c.blobs| == MAX_BLOBS && (c.birthday.Some? ==> RealDay(c.birthday.value.date))
    && forall i :: 0 <= i < MAX_BLOBS && c.blobs[i].Some? ==>
         |c.blobs[i].value.kind| == 4 && |c.blobs[i].value.data| <= 0xffff
  }

  // ---- packing ---------------------------------------------------------------------------------------------------

  /** `pair`: two labels in a byte */
  function Pair(high: int, low: int): byte { high % 16 * 16 + low % 16 }

  function Labels(c: Contact): (s: seq<byte>)
    requires |c.phoneLabel| == 7 && |c.addressLabel| == 3 && |c.imLabel| == 2
    ensures |s| == 8
  {
    [Pair(c.showPhone, c.phoneLabel[6]), Pair(c.phoneLabel[5], c.phoneLabel[4]),
     Pair(c.phoneLabel[3], c.phoneLabel[2]), Pair(c.phoneLabel[1], c.phoneLabel[0]),
     Pair(0, c.addressLabel[2]), Pair(c.addressLabel[1], c.addressLabel[0]), 0, Pair(c.imLabel[1], c.imLabel[0])]
  }

  /** An empty string is not stored. */
  predicate Stored(e: Option<text>) { e.Some? && e.value != [] }

  function Present(entries: seq<Option<text>>): (r: seq<bool>)
    ensures |r| == |entries|
  {
    seq(|entries|, i requires 0 <= i < |entries| => Stored(entries[i]))
  }

  function TextBytes(e: Option<text>): seq<byte> { if Stored(e) then e.value + [0] else [] }

  /** The first `n` strings. */
  function Texts(entries: seq<Option<text>>, n: nat): seq<byte>
    requires n <= |entries|
  {
    if n == 0 then [] else Texts(entries, n - 1) + TextBytes(entries[n - 1])
  }

  function BirthdayBytes(c: Contact): seq<byte> {
    if c.birthday.None? then []
    else
      ShortBytes(DateWord(c.birthday.value.date)) + [0]
      + (if c.reminder.Some? then [c.birthday.value.units % 256, c.reminder.value % 256] else [0])
  }

  /** The second word of flags: eleven strings, two bits for a birthday and one for its reminder. */
  function Contents2(c: Contact): nat
    requires |c.entries| == FIELDS
  {
    var strings := Mask(Present(c.entries[FIRST_FIELDS..]), OTHER_FIELDS);
    if c.birthday.None? then strings
    else
      var dated := OrBit(OrBit(strings, 11), 12);
      if c.reminder.Some? then OrBit(dated, 13) else dated
  }

  function Contents1(c: Contact): nat
    requires |c.entries| == FIELDS
  {
    Mask(Present(c.entries[..FIRST_FIELDS]), FIRST_FIELDS)
  }

  function Length(e: Option<text>): nat { if e.Some? then |e.value| + 1 else 0 }

  /** The distance to the company field, which is not used on reading. */
  function CompanyOffset(c: Contact): nat
    requires |c.entries| == FIELDS
  {
    if c.entries[2].Some? then 1 + Length(c.entries[0]) + Length(c.entries[1]) else 0
  }

  function Fixed(c: Contact): (s: seq<byte>)
    requires WellFormed(c)
    ensures |s| == FIXED
  {
    Labels(c) + LongBytes(Contents1(c)) + LongBytes(Contents2(c)) + [CompanyOffset(c) % 256]
  }

  function BlobBytes(b: Option<Blob>): seq<byte> {
    if b.Some? then b.value.kind + ShortBytes(|b.value.data|) + b.value.data else []
  }

  /** The blobs from slot `n` on. */
  function BlobsFrom(blobs: seq<Option<Blob>>, n: nat): seq<byte>
    requires n <= |blobs|
    decreases |blobs| - n
  {
    if n == |blobs| then [] else BlobBytes(blobs[n]) + BlobsFrom(blobs, n + 1)
  }

  /** `pack_Contact` */
  function Packed(c: Contact): seq<byte>
    requires WellFormed(c)
  {
    Fixed(c) + Texts(c.entries[..FIRST_FIELDS], FIRST_FIELDS) + Texts(c.entries[FIRST_FIELDS..], OTHER_FIELDS)
    + BirthdayBytes(c) + BlobsFrom(c.blobs, 0)
  }

  // ---- unpacking -------------------------------------------------------------------------------------------------

  function ReadText(data: seq<byte>, pos: nat, present: bool): Part<Option<text>> {
    if !present then Part(None, pos)
    else if pos >= |data| then Short
    else
      var k := Terminator(data, pos);
      if k == |data| then Overrun else Part(Some(data[pos..k]), k + 1)
  }

  /** `n` strings, those that the mask tells of. */
  function ReadTexts(data: seq<byte>, pos: nat, mask: nat, n: nat): (r: Part<seq<Option<text>>>)
    ensures r.Part? ==> |r.value| == n
  {
    if n == 0 then Part([], pos)
    else
      match ReadTexts(data, pos, mask, n - 1)
      case Short => Short
      case Overrun => Overrun
      case Part(front, at) =>
        match ReadText(data, at, BitAt(mask, n - 1))
        case Short => Short
        case Overrun => Overrun
        case Part(e, next) => Part(front + [e], next)
  }

  function ReadBirthday(data: seq<byte>, pos: nat, contents2: nat): Part<Option<Birthday>> {
    if !BitAt(contents2, 11) && !BitAt(contents2, 12) then Part(None, pos)
    else if pos >= |data| then Short
    else if pos + 4 > |data| then Overrun
    else
      Part(Some(Birthday(WordDate(GetShort(data, pos)), data[pos + 3])), pos + 4)
  }

  function ReadReminder(data: seq<byte>, pos: nat, contents2: nat): Part<Option<int>> {
    if !BitAt(contents2, 13) then Part(None, pos)
    else if pos >= |data| then Short
    else Part(Some(data[pos]), pos + 1)
  }

  /** `strncpy` of four characters: what follows a NUL becomes NUL. */
  function CopiedKind(s: seq<byte>): (r: seq<byte>)
    requires |s| == 4
    ensures |r| == 4
  {
    if s[0] == 0 then [0, 0, 0, 0]
    else if s[1] == 0 then [s[0], 0, 0, 0]
    else if s[2] == 0 then [s[0], s[1], 0, 0]
    else s
  }

  /** Blobs behind the ones read, as long as there is room for a head and for a blob. A picture has two bytes of its own
    in front of the image. */
  function ReadBlobs(data: seq<byte>, pos: nat, front: seq<Blob>): (r: Part<seq<Blob>>)
    requires |front| <= MAX_BLOBS
    ensures !r.Short? && (r.Part? ==> |r.value| <= MAX_BLOBS)
    decreases MAX_BLOBS - |front|
  {
    if |data| < pos + 6 || |front| >= MAX_BLOBS then Part(front, pos)
    else
      var kind, length := CopiedKind(data[pos..pos + 4]), GetShort(data, pos + 4);
      var end := pos + 6 + length;
      if end > |data| || (kind == PICTURE && length < 2) then Overrun
      else ReadBlobs(data, end, front + [Blob(kind, data[pos + 6..end])])
  }

  datatype Picture = Picture(dirty: nat, data: seq<byte>)

  /** The last picture among the blobs. */
  function PictureOf(blobs: seq<Blob>): Option<Picture> {
    if blobs == [] then None
    else
      var b := blobs[|blobs| - 1];
      if b.kind == PICTURE && |b.data| >= 2 then Some(Picture(GetShort(b.data, 0), b.data[2..]))
      else PictureOf(blobs[..|blobs| - 1])
  }

  /** What `unpack_Contact` yields: a contact with its picture and the number of bytes used, or an error. `Failed(0)` is
    the return value 0, after which the contact is filled in part. */
  datatype Unpacked = Done(contact: Contact, picture: Option<Picture>, used: nat) | Failed(code: int) | OverrunRecord

  function Nibbles(data: seq<byte>): (int, seq<int>, seq<int>, seq<int>)
    requires |data| >= 8
  {
    (data[0] / 16,
     [data[3] % 16, data[3] / 16, data[2] % 16, data[2] / 16, data[1] % 16, data[1] / 16, data[0] % 16],
     [data[5] % 16, data[5] / 16, data[4] % 16],
     [data[7] % 16, data[7] / 16])
  }

  function Unpack(data: seq<byte>): Unpacked {
    if |data| < FIXED then Failed(-1)
    else
      var contents1, contents2 := GetLong(data, 8), GetLong(data, 12);
      match ReadTexts(data, FIXED, contents1, FIRST_FIELDS)
      case Short => Failed(0)
      case Overrun => OverrunRecord
      case Part(first, at1) =>
        match ReadTexts(data, at1, contents2, OTHER_FIELDS)
        case Short => Failed(0)
        case Overrun => OverrunRecord
        case Part(other, at2) =>
          match ReadBirthday(data, at2, contents2)
          case Short => Failed(0)
          case Overrun => OverrunRecord
          case Part(birthday, at3) =>
            match ReadReminder(data, at3, contents2)
            case Short => Failed(0)
            case Overrun => OverrunRecord
            case Part(reminder, at4) =>
              match ReadBlobs(data, at4, [])
              case Overrun => OverrunRecord
              case Part(blobs, at5) =>
                var (showPhone, phoneLabel, addressLabel, imLabel) := Nibbles(data);
                Done(Contact(showPhone, phoneLabel, addressLabel, imLabel, first + other, birthday, reminder,
                             Slots(blobs)),
                     PictureOf(blobs), at5)
  }
}
