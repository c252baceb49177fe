/** The record layout the decoders read, written out as an encoder: a leader,
    a directory of 12-byte entries closed by a field terminator, and the
    fields, each closed by a field terminator, then the record terminator.
    The decoders undo it: on an encoded record they give back the base
    address, the directory entries, and each field's tag and content. */
module RecordLayout {
  import opened Wrappers
  import opened Php
  import opened MarcRecordReader

  // ----------------------------------------------------------------------
  // Fixed-width numbers

  function DigitChar(d: nat): char
    requires d < 10
  {
    ('0' as int + d) as char
  }

  /** `n` as `width` decimal digits with leading zeros (the low digits only
      when `n` does not fit). */
  function ZeroPad(n: nat, width: nat): (r: string)
    ensures |r| == width
    decreases width
  {
    if width == 0 then "" else ZeroPad(n / 10, width - 1) + [DigitChar(n % 10)]
  }

  lemma {:induction false} ZeroPadDigits(n: nat, width: nat)
    ensures AllDigits(ZeroPad(n, width))
    decreases width
  {
    if width > 0 {
      ZeroPadDigits(n / 10, width - 1);
    }
  }

  /** A number that fits reads back from its padded digits. */
  lemma {:induction false} DecimalOfZeroPad(n: nat, width: nat)
    requires n < Pow10(width)
    ensures Decimal(ZeroPad(n, width)) == n
    decreases width
  {
    if width > 0 {
      var s := ZeroPad(n, width);
      assert s[..width - 1] == ZeroPad(n / 10, width - 1);
      assert n / 10 < Pow10(width - 1);
      DecimalOfZeroPad(n / 10, width - 1);
    }
  }

  /** A digit string is the padded form of its value. */
  lemma {:induction false} ZeroPadOfDecimal(s: string)
    requires AllDigits(s)
    ensures Decimal(s) >= 0
    ensures ZeroPad(Decimal(s), |s|) == s
    decreases |s|
  {
    DecimalBound(s);
    if s != "" {
      var init := s[..|s| - 1];
      assert AllDigits(init);
      ZeroPadOfDecimal(init);
      var d := Decimal(init);
      var c := s[|s| - 1] as int - '0' as int;
      assert Decimal(s) == d * 10 + c;
      assert Decimal(s) / 10 == d && Decimal(s) % 10 == c;
      assert s == init + [s[|s| - 1]];
    }
  }

  // ----------------------------------------------------------------------
  // Directory entries

  /** A 12-byte directory entry: tag, four digits of length, five digits of
      starting position. */
  function EncodeEntry(tag: string, length: nat, position: nat): string
  {
    tag + ZeroPad(length, 4) + ZeroPad(position, 5)
  }

  /** getEntryAsAssocArray reads back what EncodeEntry wrote. */
  lemma EntryRoundTrip(tag: string, length: nat, position: nat)
    requires |tag| == DIR_TAG_SIZE && length < 10000 && position < 100000
    ensures |EncodeEntry(tag, length, position)| == DIR_ENTRY_LENGTH
    ensures EntryAsAssocArray(EncodeEntry(tag, length, position)) == Entry(tag, length, position)
  {
    var entry := EncodeEntry(tag, length, position);
    ZeroPadDigits(length, 4);
    ZeroPadDigits(position, 5);
    assert entry[..3] == tag;
    assert entry[3..7] == ZeroPad(length, 4);
    assert entry[7..] == ZeroPad(position, 5);
    assert AllDigits(entry[3..]) by {
      assert entry[3..] == ZeroPad(length, 4) + ZeroPad(position, 5);
    }
    EntryFields(entry);
    assert Pow10(4) == 10000 && Pow10(5) == 100000;
    DecimalOfZeroPad(length, 4);
    DecimalOfZeroPad(position, 5);
  }

  /** And every 12-byte entry with digits after its tag is the encoding of
      what getEntryAsAssocArray reads from it. */
  lemma EntryOfDecode(entry: string)
    requires |entry| == DIR_ENTRY_LENGTH && AllDigits(entry[3..])
    ensures DirLength(entry) >= 0 && DirPosition(entry) >= 0
    ensures EncodeEntry(DirTag(entry), DirLength(entry), DirPosition(entry)) == entry
  {
    EntryFields(entry);
    assert AllDigits(entry[3..7]) && AllDigits(entry[7..]) by {
      assert forall i :: 0 <= i < 4 ==> entry[3..7][i] == entry[3..][i];
      assert forall i :: 0 <= i < 5 ==> entry[7..][i] == entry[3..][i + 4];
    }
    ZeroPadOfDecimal(entry[3..7]);
    ZeroPadOfDecimal(entry[7..]);
    assert entry == entry[..3] + entry[3..7] + entry[7..];
  }

  // ----------------------------------------------------------------------
  // Whole records

  /** A field to encode: its tag and its content without terminator. */
  datatype Field = Field(tag: string, content: string)

  /** Where field `i` starts in the data area: every earlier field and its
      terminator come first. */
  function Offset(fs: seq<Field>, i: nat): nat
    requires i <= |fs|
  {
    if i == 0 then 0 else Offset(fs, i - 1) + |fs[i - 1].content| + 1
  }

  /** The data area of the first `i` fields, each closed by a field
      terminator. */
  function DataArea(fs: seq<Field>, i: nat): (r: string)
    requires i <= |fs|
    ensures |r| == Offset(fs, i)
  {
    if i == 0 then "" else DataArea(fs, i - 1) + fs[i - 1].content + [FT]
  }

  /** The directory entries of the first `i` fields. */
  function Entries(fs: seq<Field>, i: nat): (r: seq<string>)
    requires i <= |fs|
    ensures |r| == i
  {
    if i == 0 then []
    else Entries(fs, i - 1) + [EntryOf(fs, i - 1)]
  }

  /** The directory entry of field `i`: its tag, its length with terminator
      and its offset. */
  function EntryOf(fs: seq<Field>, i: nat): string
    requires i < |fs|
  {
    EncodeEntry(fs[i].tag, |fs[i].content| + 1, Offset(fs, i))
  }

  /** Fields the layout can hold: a non-empty list of three-byte tags, each
      field's length (with terminator) in four digits, and the whole record
      length in five. */
  predicate Encodable(fs: seq<Field>)
  {
    && |fs| >= 1
    && (forall k :: 0 <= k < |fs| ==> |fs[k].tag| == DIR_TAG_SIZE && |fs[k].content| + 1 < 10000)
    && RecordLength(fs) < 100000
  }

  function BaseOf(fs: seq<Field>): nat
  {
    LEADER_LENGTH + DIR_ENTRY_LENGTH * |fs| + 1
  }

  function RecordLength(fs: seq<Field>): nat
  {
    BaseOf(fs) + Offset(fs, |fs|) + 1
  }

  /** A leader with the given record length and base address; the other
      positions hold a fixed status, type and entry map. */
  function Leader(recordLength: nat, base: nat): string
  {
    ZeroPad(recordLength, 5) + "nam a22" + ZeroPad(base, 5) + "   4500"
  }

  /** The whole record. */
  function EncodeRecord(fs: seq<Field>): string
  {
    Leader(RecordLength(fs), BaseOf(fs))
      + Concat(Entries(fs, |fs|)) + [FT]
      + DataArea(fs, |fs|) + [RT]
  }

  lemma {:induction false} OffsetMonotone(fs: seq<Field>, i: nat, j: nat)
    requires i <= j <= |fs|
    ensures Offset(fs, i) <= Offset(fs, j)
    decreases j
  {
    if i < j {
      OffsetMonotone(fs, i, j - 1);
    }
  }

  /** Field `j` sits in the data area at its offset, followed by a
      terminator. */
  lemma {:induction false} DataAreaAt(fs: seq<Field>, i: nat, j: nat)
    requires j < i <= |fs|
    ensures Offset(fs, j) + |fs[j].content| < |DataArea(fs, i)|
    ensures DataArea(fs, i)[Offset(fs, j) .. Offset(fs, j) + |fs[j].content|] == fs[j].content
    decreases i
  {
    var prev := DataArea(fs, i - 1);
    var area := DataArea(fs, i);
    assert area == prev + fs[i - 1].content + [FT];
    if j < i - 1 {
      DataAreaAt(fs, i - 1, j);
      assert area[..|prev|] == prev;
    } else {
      assert |prev| == Offset(fs, j);
    }
  }

  /** Entry `j` of the directory. */
  lemma {:induction false} EntriesAt(fs: seq<Field>, i: nat, j: nat)
    requires j < i <= |fs|
    ensures Entries(fs, i)[j] == EntryOf(fs, j)
    decreases i
  {
    var prev := Entries(fs, i - 1);
    var last := EntryOf(fs, i - 1);
    assert Entries(fs, i) == prev + [last];
    if j < i - 1 {
      EntriesAt(fs, i - 1, j);
      assert (prev + [last])[j] == prev[j];
    }
  }

  /** The directory entries of encodable fields are 12 bytes each. */
  lemma EntriesLength(fs: seq<Field>)
    requires Encodable(fs)
    ensures forall j :: 0 <= j < |fs| ==> |Entries(fs, |fs|)[j]| == DIR_ENTRY_LENGTH
  {
    var es := Entries(fs, |fs|);
    forall j | 0 <= j < |fs| ensures |es[j]| == DIR_ENTRY_LENGTH {
      EntriesAt(fs, |fs|, j);
    }
  }

  /** So the directory of encodable fields is 12 bytes per field. */
  lemma DirectoryLength(fs: seq<Field>)
    requires Encodable(fs)
    ensures |Concat(Entries(fs, |fs|))| == DIR_ENTRY_LENGTH * |fs|
  {
    EntriesLength(fs);
    ConcatFixed(Entries(fs, |fs|), DIR_ENTRY_LENGTH);
  }

  /** The directory entries of encodable fields decode to the tag, the length
      with terminator and the offset of each field. */
  lemma EntriesDecode(fs: seq<Field>, j: nat)
    requires Encodable(fs) && j < |fs|
    ensures EntryAsAssocArray(Entries(fs, |fs|)[j]) == Entry(fs[j].tag, |fs[j].content| + 1, Offset(fs, j))
  {
    EntriesAt(fs, |fs|, j);
    OffsetMonotone(fs, j, |fs|);
    EntryRoundTrip(fs[j].tag, |fs[j].content| + 1, Offset(fs, j));
  }

  /** How a record made of a leader, a directory, a data area and the
      terminators is sliced: the directory ends at `dirEnd`, the data area
      starts at `base` and ends at `areaEnd`. */
  lemma {:induction false} Slices(record: string, leader: string, dir: string, area: string,
                                  dirEnd: nat, base: nat, areaEnd: nat)
    requires record == leader + dir + [FT] + area + [RT]
    requires |leader| == LEADER_LENGTH && |dir| >= DIR_ENTRY_LENGTH
    requires dirEnd == LEADER_LENGTH + |dir| && base == dirEnd + 1 && areaEnd == base + |area|
    ensures |record| == areaEnd + 1
    ensures record[12..17] == leader[12..17]
    ensures record[LEADER_LENGTH .. LEADER_LENGTH + DIR_ENTRY_LENGTH] == dir[..DIR_ENTRY_LENGTH]
  {
    assert record == leader + (dir + [FT] + area + [RT]);
    assert record[LEADER_LENGTH..] == dir + [FT] + area + [RT];
  }

  /** The leader is 24 bytes with the base address at bytes 12 to 16. */
  lemma LeaderSlices(recordLength: nat, base: nat)
    ensures |Leader(recordLength, base)| == LEADER_LENGTH
    ensures Leader(recordLength, base)[12..17] == ZeroPad(base, 5)
  {
  }

  /** An encoded record has the record length the leader announces, and the
      base address in bytes 12 to 16. */
  lemma RecordLeaderPart(fs: seq<Field>)
    requires Encodable(fs)
    ensures |EncodeRecord(fs)| == RecordLength(fs)
    ensures EncodeRecord(fs)[12..17] == ZeroPad(BaseOf(fs), 5)
  {
    DirectoryLength(fs);
    LeaderSlices(RecordLength(fs), BaseOf(fs));
    Slices(EncodeRecord(fs), Leader(RecordLength(fs), BaseOf(fs)), Concat(Entries(fs, |fs|)),
           DataArea(fs, |fs|), BaseOf(fs) - 1, BaseOf(fs), BaseOf(fs) + Offset(fs, |fs|));
  }

  /** The first 12 bytes after the leader of an encoded record are the first
      directory entry. */
  lemma RecordFirstEntryPart(fs: seq<Field>)
    requires Encodable(fs)
    ensures |EncodeRecord(fs)| >= LEADER_LENGTH + DIR_ENTRY_LENGTH
    ensures |Concat(Entries(fs, |fs|))| >= DIR_ENTRY_LENGTH
    ensures EncodeRecord(fs)[LEADER_LENGTH .. LEADER_LENGTH + DIR_ENTRY_LENGTH]
            == Concat(Entries(fs, |fs|))[..DIR_ENTRY_LENGTH]
  {
    DirectoryLength(fs);
    LeaderSlices(RecordLength(fs), BaseOf(fs));
    Slices(EncodeRecord(fs), Leader(RecordLength(fs), BaseOf(fs)), Concat(Entries(fs, |fs|)),
           DataArea(fs, |fs|), BaseOf(fs) - 1, BaseOf(fs), BaseOf(fs) + Offset(fs, |fs|));
  }

  /** getBaseAddress on an encoded record: the leader, the directory and its
      terminator come before the data. */
  lemma EncodedBaseAddress(fs: seq<Field>)
    requires Encodable(fs)
    ensures BaseAddress(EncodeRecord(fs)) == BaseOf(fs)
    ensures HasDirectory(EncodeRecord(fs))
  {
    RecordLeaderPart(fs);
    ZeroPadDigits(BaseOf(fs), 5);
    BaseAddressOfLeader(EncodeRecord(fs));
    assert Pow10(5) == 100000;
    DecimalOfZeroPad(BaseOf(fs), 5);
  }

  /** The raw directory of an encoded record is its entries, concatenated. */
  lemma EncodedDirectoryRaw(fs: seq<Field>)
    requires Encodable(fs)
    ensures HasDirectory(EncodeRecord(fs))
    ensures DirectoryRaw(EncodeRecord(fs)) == Concat(Entries(fs, |fs|))
  {
    EncodedAssembled(fs);
    DirectoryRawOfParts(EncodeRecord(fs), Leader(RecordLength(fs), BaseOf(fs)),
                        Concat(Entries(fs, |fs|)), DataArea(fs, |fs|));
  }

  /** `record` is `leader`, `dir`, a field terminator, `area` and a record
      terminator, with a 24-byte leader whose base address points just past
      the directory's terminator. */
  predicate Assembled(record: string, leader: string, dir: string, area: string)
  {
    && record == leader + dir + [FT] + area + [RT]
    && |leader| == LEADER_LENGTH
    && BaseAddress(record) == LEADER_LENGTH + |dir| + 1
  }

  /** An encoded record is assembled from its leader, its directory and its
      data area. */
  lemma EncodedAssembled(fs: seq<Field>)
    requires Encodable(fs)
    ensures Assembled(EncodeRecord(fs), Leader(RecordLength(fs), BaseOf(fs)),
                      Concat(Entries(fs, |fs|)), DataArea(fs, |fs|))
  {
    EncodedBaseAddress(fs);
    DirectoryLength(fs);
    LeaderSlices(RecordLength(fs), BaseOf(fs));
  }

  /** An assembled record has its directory as its raw directory. */
  lemma DirectoryRawOfParts(record: string, leader: string, dir: string, area: string)
    requires Assembled(record, leader, dir, area)
    ensures HasDirectory(record)
    ensures DirectoryRaw(record) == dir
  {
    assert record == leader + (dir + [FT] + area + [RT]);
    assert record[LEADER_LENGTH..] == dir + [FT] + area + [RT];
    assert record[LEADER_LENGTH .. LEADER_LENGTH + |dir|] == record[LEADER_LENGTH..][..|dir|];
  }

  /** getDirectory on an encoded record gives back the entries, in order. */
  lemma EncodedDirectory(fs: seq<Field>)
    requires Encodable(fs)
    ensures HasDirectory(EncodeRecord(fs))
    ensures Directory(EncodeRecord(fs)) == Entries(fs, |fs|)
  {
    EncodedDirectoryRaw(fs);
    EntriesLength(fs);
    StrSplitConcat(Entries(fs, |fs|), DIR_ENTRY_LENGTH);
  }

  /** getRawField on the k-th directory entry of an encoded record gives
      back the k-th field's content, and getDirTag its tag. */
  lemma EncodedRawField(fs: seq<Field>, k: nat)
    requires Encodable(fs) && k < |fs|
    ensures HasDirectory(EncodeRecord(fs))
    ensures |Directory(EncodeRecord(fs))| == |fs|
    ensures DirTag(Directory(EncodeRecord(fs))[k]) == fs[k].tag
    ensures FieldInRange(Directory(EncodeRecord(fs))[k], EncodeRecord(fs), -1)
    ensures RawField(Directory(EncodeRecord(fs))[k], EncodeRecord(fs), -1) == fs[k].content
  {
    EncodedEntry(fs, k);
    EntriesDecode(fs, k);
    EncodedContent(fs, k, Entries(fs, |fs|)[k]);
  }

  /** The k-th directory entry of an encoded record is the k-th encoded
      entry, with the k-th field's tag. */
  lemma EncodedEntry(fs: seq<Field>, k: nat)
    requires Encodable(fs) && k < |fs|
    ensures HasDirectory(EncodeRecord(fs))
    ensures |Directory(EncodeRecord(fs))| == |fs|
    ensures Directory(EncodeRecord(fs))[k] == Entries(fs, |fs|)[k]
    ensures DirTag(Entries(fs, |fs|)[k]) == fs[k].tag
  {
    EncodedDirectory(fs);
    EntriesDecode(fs, k);
  }

  /** An entry with the k-th field's position and length reads the k-th
      field's content from an encoded record. */
  lemma EncodedContent(fs: seq<Field>, k: nat, entry: string)
    requires Encodable(fs) && k < |fs|
    requires DirPosition(entry) == Offset(fs, k) && DirLength(entry) == |fs[k].content| + 1
    ensures FieldInRange(entry, EncodeRecord(fs), -1)
    ensures RawField(entry, EncodeRecord(fs), -1) == fs[k].content
  {
    EncodedAssembled(fs);
    DataAreaCovers(fs, k);
    RawFieldOfParts(EncodeRecord(fs), Leader(RecordLength(fs), BaseOf(fs)), Concat(Entries(fs, |fs|)),
                    DataArea(fs, |fs|), entry, fs[k].content);
  }

  /** `content` lies in `area` at `position`. */
  predicate Covers(area: string, position: int, content: string)
  {
    0 <= position && position + |content| <= |area| && area[position .. position + |content|] == content
  }

  /** Field k lies in the data area at its offset. */
  lemma DataAreaCovers(fs: seq<Field>, k: nat)
    requires k < |fs|
    ensures Covers(DataArea(fs, |fs|), Offset(fs, k), fs[k].content)
  {
    DataAreaAt(fs, |fs|, k);
  }

  /** In an assembled record, an entry that points at `content` in the data
      area, with a length one more than it, reads back `content`. */
  lemma RawFieldOfParts(record: string, leader: string, dir: string, area: string,
                        entry: string, content: string)
    requires Assembled(record, leader, dir, area)
    requires DirLength(entry) == |content| + 1 && Covers(area, DirPosition(entry), content)
    ensures FieldInRange(entry, record, -1)
    ensures RawField(entry, record, -1) == content
  {
    var base := LEADER_LENGTH + |dir| + 1;
    var position := DirPosition(entry);
    assert record == (leader + dir + [FT]) + (area + [RT]);
    assert record[base..] == area + [RT];
    assert record[base + position .. base + position + |content|] == record[base..][position .. position + |content|];
  }

  /** get001 on an encoded record whose first field is 001 gives back that
      field's content (the first field starts at position 0). */
  lemma EncodedGet001(fs: seq<Field>)
    requires Encodable(fs) && fs[0].tag == "001"
    ensures Get001Defined(EncodeRecord(fs))
    ensures Get001(EncodeRecord(fs)) == Ok(fs[0].content)
  {
    var record := EncodeRecord(fs);
    EncodedRawField(fs, 0);
    EncodedDirectory(fs);
    EntriesLength(fs);
    var entry := Directory(record)[0];
    assert DirPosition(entry) == 0 by { EntriesDecode(fs, 0); }
    RecordFirstEntryPart(fs);
    var dir := Concat(Entries(fs, |fs|));
    assert dir == entry + Concat(Entries(fs, |fs|)[1..]);
    assert dir[..DIR_ENTRY_LENGTH] == entry;
    assert FirstEntry(record) == entry;
    assert StartsWith(entry, "001") by { assert entry[..3] == DirTag(entry); }
    Get001IsFirstRawField(record);
  }

  /** get001 ignores the entry's starting position: in this record the 001
      entry says "length 3, position 2", yet get001 reads from the base
      address ("xy") where getRawField reads at position 2 ("ab"). */
  lemma Get001IgnoresPosition()
    ensures Get001Defined("00043nam a2200037   4500001000300002\U{1E}xyab\U{1E}\U{1D}")
    ensures Get001("00043nam a2200037   4500001000300002\U{1E}xyab\U{1E}\U{1D}") == Ok("xy")
    ensures FieldInRange("001000300002", "00043nam a2200037   4500001000300002\U{1E}xyab\U{1E}\U{1D}", -1)
    ensures RawField("001000300002", "00043nam a2200037   4500001000300002\U{1E}xyab\U{1E}\U{1D}", -1) == "ab"
  {
    SmallGet001();
    SmallRawField();
  }

  /** get001 on the record above reads "xy". */
  lemma SmallGet001()
    ensures Get001Defined("00043nam a2200037   4500001000300002\U{1E}xyab\U{1E}\U{1D}")
    ensures Get001("00043nam a2200037   4500001000300002\U{1E}xyab\U{1E}\U{1D}") == Ok("xy")
  {
    var record := "00043nam a2200037   4500001000300002\U{1E}xyab\U{1E}\U{1D}";
    var entry := "001000300002";
    assert record == "00043nam a2200037   4500" + entry + "\U{1E}xyab\U{1E}\U{1D}";
    assert record[24..36] == entry;
    assert FirstEntry(record) == entry;
    SmallEntry();
    SmallBaseAddress();
    assert record[37..39] == "xy";
  }

  /** getRawField on the entry of the record above reads "ab". */
  lemma SmallRawField()
    ensures FieldInRange("001000300002", "00043nam a2200037   4500001000300002\U{1E}xyab\U{1E}\U{1D}", -1)
    ensures RawField("001000300002", "00043nam a2200037   4500001000300002\U{1E}xyab\U{1E}\U{1D}", -1) == "ab"
  {
    var record := "00043nam a2200037   4500001000300002\U{1E}xyab\U{1E}\U{1D}";
    SmallEntry();
    SmallBaseAddress();
    assert record[39..41] == "ab";
  }

  lemma DecimalExample()
    ensures Decimal("00037") == 37
  {
    DecimalZeros();
    assert Decimal("0003") == 3 by { assert "0003"[..3] == "000"; }
    assert "00037"[..4] == "0003";
  }

  /** The entry of the record above: tag 001, length 3, position 2. */
  lemma SmallEntry()
    ensures EntryAsAssocArray("001000300002") == Entry("001", 3, 2)
  {
    var entry := "001000300002";
    EntryFields(entry);
    assert entry[..3] == "001";
    DecimalZeros();
    assert entry[3..7] == "0003" && Decimal("0003") == 3 by { assert "0003"[..3] == "000"; }
    assert entry[7..] == "00002" && Decimal("00002") == 2 by { assert "00002"[..4] == "0000"; }
  }

  /** The base address of the record above: 37, the leader, one entry and
      the directory's terminator. */
  lemma SmallBaseAddress()
    ensures BaseAddress("00043nam a2200037   4500001000300002\U{1E}xyab\U{1E}\U{1D}") == 37
  {
    var leader := "00043nam a2200037   4500";
    var record := "00043nam a2200037   4500001000300002\U{1E}xyab\U{1E}\U{1D}";
    assert record == leader + "001000300002\U{1E}xyab\U{1E}\U{1D}";
    assert leader[12..17] == "00037";
    assert record[12..17] == "00037";
    BaseAddressOfLeader(record);
    DecimalExample();
  }
}
