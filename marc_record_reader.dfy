/** The decoders of one raw MARC 21 record in the ISO 2709 layout: the leader's
    base address, the directory and its 12-byte entries, control fields, data
    fields, indicators and subfields, and the whole record. All of them are
    functions of the record bytes; the ones the PHP code writes as `foreach`
    loops are methods proved against a specification function. */
module MarcRecordReader {
  import opened Wrappers
  import opened Php

  const FT: char := '\U{1E}'
  const RT: char := '\U{1D}'
  const DELIMITER: char := '\U{1F}'

  const LEADER_LENGTH: nat := 24
  const LEADER_BASE_ADDRESS_OF_DATA: nat := 12
  const LEADER_BASE_ADDRESS_OF_DATA_SIZE: nat := 5

  const DIR_ENTRY_LENGTH: nat := 12
  const DIR_TAG: nat := 0
  const DIR_TAG_SIZE: nat := 3
  const DIR_LENGTH_OF_FIELD: nat := 3
  const DIR_LENGTH_OF_FIELD_SIZE: nat := 4
  const DIR_STARTING_CHARACTER_POSITION: nat := 7
  const DIR_STARTING_CHARACTER_POSITION_SIZE: nat := 5

  // ----------------------------------------------------------------------
  // Leader and directory

  /** getBaseAddress: `intval` of the five leader bytes at offset 12. */
  function BaseAddress(record: string): int
  {
    IntVal(Substr(record, LEADER_BASE_ADDRESS_OF_DATA, LEADER_BASE_ADDRESS_OF_DATA_SIZE))
  }

  /** On a leader whose bytes 12..17 are digits, the base address is their
      decimal value, a number below 100000. */
  lemma BaseAddressOfLeader(record: string)
    requires |record| >= 17 && AllDigits(record[12..17])
    ensures BaseAddress(record) == Decimal(record[12..17])
    ensures 0 <= BaseAddress(record) < 100000
  {
    assert Substr(record, LEADER_BASE_ADDRESS_OF_DATA, LEADER_BASE_ADDRESS_OF_DATA_SIZE) == record[12..17];
    IntValOfDigits(record[12..17]);
    assert Pow10(5) == 100000;
  }

  /** The leader of the record the test suite decodes has base address 433. */
  lemma BaseAddressExample()
    ensures BaseAddress("01732cam a2200433   4500") == 433
  {
    var leader := "01732cam a2200433   4500";
    assert leader[12..17] == "00433";
    BaseAddressOfLeader(leader);
    assert "00433"[..4] == "0043" && "0043"[..3] == "004" && "004"[..2] == "00" && "00"[..1] == "0";
  }

  /** What getDirectoryRaw needs of a record: a whole leader, and a base
      address past it (otherwise PHP's `substr` gets a negative length). */
  predicate HasDirectory(record: string)
  {
    |record| >= LEADER_LENGTH && BaseAddress(record) > LEADER_LENGTH
  }

  /** getDirectoryRaw: the bytes from the end of the leader up to the byte
      before the base address, so without the directory's own field
      terminator; clamped to the record. */
  function DirectoryRaw(record: string): (r: string)
    requires HasDirectory(record)
    ensures |record| >= BaseAddress(record) - 1 ==>
              r == record[LEADER_LENGTH .. BaseAddress(record) - 1]
    ensures |record| < BaseAddress(record) - 1 ==> r == record[LEADER_LENGTH..]
  {
    Substr(record, LEADER_LENGTH, BaseAddress(record) - LEADER_LENGTH - 1)
  }

  /** getDirectory: the raw directory cut into 12-byte entries, in order; a
      directory whose length is not a multiple of 12 keeps a short last entry,
      and an empty one gives a single empty entry. */
  function Directory(record: string): (r: seq<string>)
    requires HasDirectory(record)
    ensures |r| >= 1 && Concat(r) == DirectoryRaw(record)
    ensures forall k :: 0 <= k < |r| - 1 ==> |r[k]| == DIR_ENTRY_LENGTH
    ensures 0 < |r[|r| - 1]| <= DIR_ENTRY_LENGTH || (DirectoryRaw(record) == "" && r == [""])
  {
    StrSplit(DirectoryRaw(record), DIR_ENTRY_LENGTH)
  }

  /** A raw directory of `count` whole entries splits into exactly `count`
      12-byte entries. */
  lemma DirectoryEntryCount(record: string, count: nat)
    requires HasDirectory(record) && count >= 1
    requires |DirectoryRaw(record)| == DIR_ENTRY_LENGTH * count
    ensures |Directory(record)| == count
    ensures forall k :: 0 <= k < count ==> |Directory(record)[k]| == DIR_ENTRY_LENGTH
  {
    StrSplitExact(DirectoryRaw(record), DIR_ENTRY_LENGTH, count);
  }

  // ----------------------------------------------------------------------
  // Directory entries

  /** getDirTag: the first three bytes of an entry (fewer for a short entry). */
  function DirTag(entry: string): (r: string)
    ensures |r| == Min(|entry|, DIR_TAG_SIZE) && r == entry[..|r|]
  {
    Substr(entry, DIR_TAG, DIR_TAG_SIZE)
  }

  /** getDirLength: `intval` of entry bytes 3..7, the field length including
      the field's terminator. */
  function DirLength(entry: string): int
  {
    IntVal(Substr(entry, DIR_LENGTH_OF_FIELD, DIR_LENGTH_OF_FIELD_SIZE))
  }

  /** getDirPosition: `intval` of entry bytes 7..12, the field's offset from
      the base address. */
  function DirPosition(entry: string): int
  {
    IntVal(Substr(entry, DIR_STARTING_CHARACTER_POSITION, DIR_STARTING_CHARACTER_POSITION_SIZE))
  }

  /** A decoded directory entry (getEntryAsAssocArray's array). */
  datatype Entry = Entry(tag: string, length: int, position: int)

  /** getEntryAsAssocArray: the tag, length and position of an entry. */
  function EntryAsAssocArray(entry: string): Entry
  {
    Entry(DirTag(entry), DirLength(entry), DirPosition(entry))
  }

  /** On a 12-byte entry with digits after the tag, the three parts are bytes
      0..3, the decimal value of bytes 3..7 (below 10000) and that of bytes
      7..12 (below 100000). */
  lemma EntryFields(entry: string)
    requires |entry| == DIR_ENTRY_LENGTH && AllDigits(entry[3..])
    ensures EntryAsAssocArray(entry).tag == entry[..3]
    ensures EntryAsAssocArray(entry).length == Decimal(entry[3..7]) < 10000
    ensures EntryAsAssocArray(entry).position == Decimal(entry[7..]) < 100000
    ensures DirLength(entry) >= 0 && DirPosition(entry) >= 0
  {
    assert Substr(entry, DIR_LENGTH_OF_FIELD, DIR_LENGTH_OF_FIELD_SIZE) == entry[3..7];
    assert Substr(entry, DIR_STARTING_CHARACTER_POSITION, DIR_STARTING_CHARACTER_POSITION_SIZE) == entry[7..];
    assert forall i :: 0 <= i < 4 ==> entry[3..7][i] == entry[3..][i];
    assert forall i :: 0 <= i < 5 ==> entry[7..][i] == entry[3..][i + 4];
    IntValOfDigits(entry[3..7]);
    IntValOfDigits(entry[7..]);
    assert Pow10(4) == 10000 && Pow10(5) == 100000;
  }

  /** Entry 1 of the test record: tag 003, length 6, position 13. */
  lemma EntryExample()
    ensures EntryAsAssocArray("003000600013") == Entry("003", 6, 13)
  {
    var entry := "003000600013";
    EntryFields(entry);
    ExampleLength();
    ExamplePosition();
    assert entry[..3] == "003" && entry[3..7] == "0006" && entry[7..] == "00013";
  }

  lemma ExampleLength()
    ensures Decimal("0006") == 6
  {
    DecimalZeros();
    assert "0006"[..3] == "000";
  }

  lemma ExamplePosition()
    ensures Decimal("00013") == 13
  {
    DecimalZeros();
    assert Decimal("0001") == 1 by { assert "0001"[..3] == "000"; }
    assert "00013"[..4] == "0001";
  }

  // ----------------------------------------------------------------------
  // Raw fields and the 001 fast path

  /** The base address getRawField uses: the one passed in, or the leader's
      when the one passed in is not positive (the default is -1). */
  function EffectiveBase(record: string, baseAddress: int): int
  {
    if baseAddress <= 0 then BaseAddress(record) else baseAddress
  }

  /** What getRawField needs: a start inside the record and a field length of
      at least one (PHP's `substr` gets a negative start or length otherwise). */
  predicate FieldInRange(entry: string, record: string, baseAddress: int)
  {
    && 0 <= EffectiveBase(record, baseAddress) + DirPosition(entry) <= |record|
    && DirLength(entry) >= 1
  }

  /** getRawField: the `length - 1` bytes at `base + position`, that is the
      field without its terminator; cut short at the end of the record, where
      it is the whole rest of the record. */
  function RawField(entry: string, record: string, baseAddress: int): (r: string)
    requires FieldInRange(entry, record, baseAddress)
    ensures var start := EffectiveBase(record, baseAddress) + DirPosition(entry);
            && |r| <= DirLength(entry) - 1
            && start + |r| <= |record|
            && r == record[start .. start + |r|]
            && |r| == Min(DirLength(entry) - 1, |record| - start)
  {
    var start := EffectiveBase(record, baseAddress) + DirPosition(entry);
    var len := DirLength(entry) - 1;
    if start >= |record| then "" else record[start .. Min(start + len, |record|)]
  }

  /** Omitting the base address (or passing one that is not positive) reads
      the same field as passing the leader's base address. */
  lemma RawFieldDefaultBase(entry: string, record: string, baseAddress: int)
    requires baseAddress <= 0 && FieldInRange(entry, record, baseAddress)
    ensures FieldInRange(entry, record, BaseAddress(record))
    ensures RawField(entry, record, baseAddress) == RawField(entry, record, BaseAddress(record))
  {
  }

  /** The first directory entry, as get001 reads it. */
  function FirstEntry(record: string): string
  {
    Substr(record, LEADER_LENGTH, DIR_ENTRY_LENGTH)
  }

  /** What get001 needs: a whole leader and, when the first entry is an 001
      entry, a field length of at least one and a base address inside the
      record. */
  predicate Get001Defined(record: string)
  {
    && |record| >= LEADER_LENGTH
    && (StartsWith(FirstEntry(record), "001") ==>
          DirLength(FirstEntry(record)) >= 1 && 0 <= BaseAddress(record) <= |record|)
  }

  /** get001: throws unless the directory begins with an 001 entry; otherwise
      reads that entry's length minus one bytes from the base address on, or
      the rest of the record when fewer remain. It does not look at the
      entry's starting position. */
  function Get001(record: string): (r: Result<string>)
    requires Get001Defined(record)
    ensures r.Err? <==> !StartsWith(record[LEADER_LENGTH..], "001")
    ensures r.Err? ==> r.error == RuntimeException
    ensures r.Ok? ==> StartsWith(record[BaseAddress(record)..], r.value)
    ensures r.Ok? ==> |r.value| == Min(DirLength(FirstEntry(record)) - 1, |record| - BaseAddress(record))
  {
    var entry := FirstEntry(record);
    assert entry == record[LEADER_LENGTH .. Min(LEADER_LENGTH + DIR_ENTRY_LENGTH, |record|)];
    assert StartsWith(entry, "001") <==> StartsWith(record[LEADER_LENGTH..], "001") by {
      if |record| >= LEADER_LENGTH + 3 {
        assert entry[..3] == record[LEADER_LENGTH..][..3];
      }
    }
    if !StartsWith(entry, "001") then Err(RuntimeException)
    else
      var value := Substr(record, BaseAddress(record), DirLength(entry) - 1);
      assert value == record[BaseAddress(record)..][..|value|];
      Ok(value)
  }

  /** When the 001 entry is first and starts at position 0, the fast path
      reads the same bytes as getRawField on that first entry. */
  lemma Get001IsFirstRawField(record: string)
    requires HasDirectory(record) && Get001Defined(record)
    requires |DirectoryRaw(record)| >= DIR_ENTRY_LENGTH
    requires StartsWith(FirstEntry(record), "001")
    requires DirPosition(FirstEntry(record)) == 0
    ensures Directory(record)[0] == FirstEntry(record)
    ensures DirTag(Directory(record)[0]) == "001"
    ensures FieldInRange(Directory(record)[0], record, -1)
    ensures Get001(record) == Ok(RawField(Directory(record)[0], record, -1))
  {
    var raw := DirectoryRaw(record);
    assert raw[..DIR_ENTRY_LENGTH] == record[LEADER_LENGTH .. LEADER_LENGTH + DIR_ENTRY_LENGTH];
    assert FirstEntry(record) == record[LEADER_LENGTH .. LEADER_LENGTH + DIR_ENTRY_LENGTH];
    if |raw| > DIR_ENTRY_LENGTH {
      assert Directory(record)[0] == raw[..DIR_ENTRY_LENGTH];
    } else {
      assert Directory(record) == [raw];
      assert raw == raw[..DIR_ENTRY_LENGTH];
    }
  }

  // ----------------------------------------------------------------------
  // Tag patterns

  /** `preg_match('/^00[0-9]$/', $tag)`: a control field tag. */
  predicate IsControlTag(tag: string)
  {
    |tag| == 3 && tag[0] == '0' && tag[1] == '0' && IsDigit(tag[2])
  }

  /** `preg_match('/^[0-9]{3}$/', $tag)`: three digits. */
  predicate IsNumericTag(tag: string)
  {
    |tag| == 3 && AllDigits(tag)
  }

  /** `preg_match('/00[0-9]/', $tag)`: a control field tag anywhere in `tag`. */
  predicate ContainsControlTag(tag: string)
    decreases |tag|
  {
    |tag| >= 3 && (IsControlTag(tag[..3]) || ContainsControlTag(tag[1..]))
  }

  /** On a tag of at most three bytes (every DirTag is one) the unanchored
      pattern matches exactly when the anchored one does. */
  lemma {:induction false} ContainsControlTagShort(tag: string)
    requires |tag| <= DIR_TAG_SIZE
    ensures ContainsControlTag(tag) <==> IsControlTag(tag)
  {
    if |tag| == 3 {
      assert tag[..3] == tag;
      assert !ContainsControlTag(tag[1..]);
    }
  }

  /** On longer strings the unanchored pattern also matches inside. */
  lemma ContainsControlTagUnanchored()
    ensures ContainsControlTag("1001") && !IsControlTag("1001")
  {
    assert "1001"[1..][..3] == "001";
  }

  /** getDataFields' rejection test, written with `&&` as in the source: a tag
      is refused only if it is not three digits AND its `intval` is below 10. */
  predicate DataTagRejected(tag: string)
  {
    !IsNumericTag(tag) && IntVal(tag) < 10
  }

  /** The rejection test turns away "abc", "9" and the empty tag. */
  lemma DataTagRejectedExamples()
    ensures DataTagRejected("abc") && DataTagRejected("9") && DataTagRejected("")
  {
    assert LeadingDigits("abc") == "";
    assert LeadingDigits("9") == "9" by { assert "9"[1..] == ""; }
    assert Decimal("9") == 9 by { assert "9"[..0] == ""; }
  }

  /** Three-digit tags pass the rejection test. */
  lemma DataTagAcceptedNumeric()
    ensures !DataTagRejected("650") && !DataTagRejected("008")
  {
  }

  /** So does any tag whose `intval` is at least 10, three digits or not:
      "12" and "6500" are let through. */
  lemma DataTagAcceptedLong()
    ensures !DataTagRejected("12") && !DataTagRejected("6500")
  {
    IntValTwelve();
    IntValSixtyFiveHundred();
  }

  lemma IntValTwelve()
    ensures IntVal("12") == 12
  {
    IntValOfDigits("12");
    assert "12"[..1] == "1";
  }

  lemma IntValSixtyFiveHundred()
    ensures IntVal("6500") == 6500
  {
    IntValOfDigits("6500");
    assert Decimal("65") == 65 by { assert "65"[..1] == "6"; }
    assert Decimal("650") == 650 by { assert "650"[..2] == "65"; }
    assert "6500"[..3] == "650";
  }

  /** `intval` skips leading blanks and stops at the first non-digit, so
      " 99x" is let through too. */
  lemma DataTagAcceptedPadded()
    ensures !DataTagRejected(" 99x")
  {
    IntValPadded();
  }

  /** With PHP 7.0's `intval`, which stops at the first byte that is not a
      digit, the tag `1e5` reads as 1 and is refused. */
  lemma DataTagRejectedExponent()
    ensures IntVal("1e5") == 1
    ensures DataTagRejected("1e5")
  {
    assert "1e5"[1..] == "e5";
    assert LeadingDigits("e5") == "";
    assert LeadingDigits("1e5") == "1";
    assert Decimal("1") == 1 by { assert "1"[..0] == ""; }
  }

  lemma IntValPadded()
    ensures IntVal(" 99x") == 99
  {
    SkipBlank();
    DigitsOfNinetyNine();
    assert Decimal("99") == 99 by { assert "99"[..1] == "9"; }
  }

  lemma SkipBlank()
    ensures SkipWhitespace(" 99x") == "99x"
  {
    assert " 99x"[1..] == "99x";
  }

  lemma DigitsOfNinetyNine()
    ensures LeadingDigits("99x") == "99"
  {
    assert "99x"[1..] == "9x" && "9x"[1..] == "x";
    assert LeadingDigits("x") == "";
  }

  // ----------------------------------------------------------------------
  // Control fields

  /** The index of the first directory entry whose tag is `tag`, if any. */
  function FindTag(dir: seq<string>, tag: string): (r: Option<nat>)
    ensures r.None? <==> forall k :: 0 <= k < |dir| ==> DirTag(dir[k]) != tag
    ensures r.Some? ==> r.value < |dir| && DirTag(dir[r.value]) == tag
    ensures r.Some? ==> forall k :: 0 <= k < r.value ==> DirTag(dir[k]) != tag
    decreases |dir|
  {
    if dir == [] then None
    else if DirTag(dir[0]) == tag then Some(0)
    else
      match FindTag(dir[1..], tag)
      case None => None
      case Some(i) => Some(i + 1)
  }

  /** FindTag finds nothing before index `i`. */
  predicate NotBefore(dir: seq<string>, tag: string, i: nat)
  {
    FindTag(dir, tag).None? || FindTag(dir, tag).value >= i
  }

  /** One step of getControlField's loop: a matching entry at `i` is the one
      FindTag finds; past any other entry the search goes on. */
  lemma FindTagStep(dir: seq<string>, tag: string, i: nat)
    requires i < |dir| && NotBefore(dir, tag, i)
    ensures DirTag(dir[i]) == tag ==> FindTag(dir, tag) == Some(i)
    ensures DirTag(dir[i]) != tag ==> NotBefore(dir, tag, i + 1)
  {
  }

  /** What getControlField needs: for 001, what get001 needs; for another
      control tag, a directory whose first entry with that tag lies in the
      record. An invalid tag needs nothing: it is refused first. */
  predicate ControlFieldDefined(tag: string, record: string)
  {
    IsControlTag(tag) ==>
      if tag == "001" then Get001Defined(record)
      else
        && HasDirectory(record)
        && var found := FindTag(Directory(record), tag);
           found.Some? ==> FieldInRange(Directory(record)[found.value], record, -1)
  }

  /** getControlField. A tag that is not `00` and a digit throws
      InvalidArgumentException; 001 takes the get001 fast path; any other
      control tag gives the raw field of the FIRST directory entry with that
      tag, or throws RuntimeException when there is none. (The source's
      `$tag == '001'` is a loose comparison, but on a tag that passed the
      pattern it coincides with string equality.) */
  method GetControlField(tag: string, record: string) returns (r: Result<string>)
    requires ControlFieldDefined(tag, record)
    ensures !IsControlTag(tag) ==> r == Err(InvalidArgumentException)
    ensures tag == "001" ==> r == Get001(record)
    ensures IsControlTag(tag) && tag != "001" ==>
              r == match FindTag(Directory(record), tag)
                   case None => Err(RuntimeException)
                   case Some(i) => Ok(RawField(Directory(record)[i], record, -1))
  {
    if !IsControlTag(tag) {
      return Err(InvalidArgumentException);
    }
    if tag == "001" {
      return Get001(record);
    }
    var dir := Directory(record);
    for i := 0 to |dir|
      invariant NotBefore(dir, tag, i)
    {
      FindTagStep(dir, tag, i);
      if DirTag(dir[i]) == tag {
        return Ok(RawField(dir[i], record, -1));
      }
    }
    return Err(RuntimeException);
  }

  /** Control tags that are not of the form `00` and a digit ("abc", "999")
      are refused as invalid arguments, whatever the record. */
  lemma ControlTagRefused()
    ensures !IsControlTag("abc") && !IsControlTag("999") && !IsControlTag("0010")
    ensures IsControlTag("001") && IsControlTag("008")
  {
  }

  // ----------------------------------------------------------------------
  // Data fields

  /** The entries of `dir` whose tag is `tag`, in directory order. */
  function MatchingEntries(dir: seq<string>, tag: string): (r: seq<string>)
    ensures |r| <= |dir|
    ensures forall e :: e in r <==> e in dir && DirTag(e) == tag
    decreases |dir|
  {
    if dir == [] then []
    else
      var init := dir[..|dir| - 1];
      var last := dir[|dir| - 1];
      var front := MatchingEntries(init, tag);
      assert dir == init + [last];
      front + (if DirTag(last) == tag then [last] else [])
  }

  /** Scanning one more entry appends it to the matches if its tag matches. */
  lemma MatchingEntriesStep(dir: seq<string>, i: nat, tag: string)
    requires i < |dir|
    ensures MatchingEntries(dir[..i + 1], tag)
            == MatchingEntries(dir[..i], tag) + (if DirTag(dir[i]) == tag then [dir[i]] else [])
  {
    assert dir[..i + 1][..i] == dir[..i];
  }

  /** Matching distributes over directory concatenation: the matches keep
      directory order. */
  lemma {:induction false} MatchingEntriesAppend(a: seq<string>, b: seq<string>, tag: string)
    ensures MatchingEntries(a + b, tag) == MatchingEntries(a, tag) + MatchingEntries(b, tag)
    decreases |b|
  {
    if b == [] {
      assert a + b == a;
      assert MatchingEntries(b, tag) == [];
    } else {
      var b' := b[..|b| - 1];
      var last := b[|b| - 1];
      assert (a + b)[..|a + b| - 1] == a + b';
      assert (a + b)[|a + b| - 1] == last;
      MatchingEntriesAppend(a, b', tag);
      var tail := if DirTag(last) == tag then [last] else [];
      assert MatchingEntries(a + b, tag) == MatchingEntries(a + b', tag) + tail;
      assert MatchingEntries(b, tag) == MatchingEntries(b', tag) + tail;
    }
  }

  /** No entry matches exactly when the list of matches is empty. */
  lemma MatchingEntriesEmpty(dir: seq<string>, tag: string)
    ensures MatchingEntries(dir, tag) == [] <==> forall k :: 0 <= k < |dir| ==> DirTag(dir[k]) != tag
  {
    var matches := MatchingEntries(dir, tag);
    if matches == [] {
      forall k | 0 <= k < |dir| ensures DirTag(dir[k]) != tag {
        assert dir[k] !in matches;
      }
    } else {
      assert matches[0] in matches;
      var j :| 0 <= j < |dir| && dir[j] == matches[0];
      assert DirTag(dir[j]) == tag;
    }
  }

  /** The raw fields of a list of entries, in order. */
  function RawFields(entries: seq<string>, record: string, baseAddress: int): (r: seq<string>)
    requires forall e :: e in entries ==> FieldInRange(e, record, baseAddress)
    ensures |r| == |entries|
    decreases |entries|
  {
    if entries == [] then []
    else
      RawFields(entries[..|entries| - 1], record, baseAddress)
        + [RawField(entries[|entries| - 1], record, baseAddress)]
  }

  /** Appending an entry appends its raw field. */
  lemma RawFieldsSnoc(entries: seq<string>, entry: string, record: string, baseAddress: int)
    requires forall e :: e in entries + [entry] ==> FieldInRange(e, record, baseAddress)
    ensures RawFields(entries + [entry], record, baseAddress)
            == RawFields(entries, record, baseAddress) + [RawField(entry, record, baseAddress)]
  {
    assert (entries + [entry])[..|entries|] == entries;
  }

  /** The k-th raw field is the raw field of the k-th entry. */
  lemma {:induction false} RawFieldsAt(entries: seq<string>, record: string, baseAddress: int, k: nat)
    requires forall e :: e in entries ==> FieldInRange(e, record, baseAddress)
    requires k < |entries|
    ensures RawFields(entries, record, baseAddress)[k] == RawField(entries[k], record, baseAddress)
    decreases |entries|
  {
    if k < |entries| - 1 {
      RawFieldsAt(entries[..|entries| - 1], record, baseAddress, k);
    }
  }

  /** What getDataFields needs: for an accepted tag, a directory whose entries
      with that tag lie in the record. */
  predicate DataFieldsDefined(tag: string, record: string)
  {
    !DataTagRejected(tag) ==>
      && HasDirectory(record)
      && forall e :: e in Directory(record) && DirTag(e) == tag ==>
           FieldInRange(e, record, BaseAddress(record))
  }

  /** getDataFields: throws InvalidArgumentException exactly when the tag is
      rejected; otherwise the raw fields of ALL entries with that tag, in
      directory order (possibly none). */
  method GetDataFields(tag: string, record: string) returns (r: Result<seq<string>>)
    requires DataFieldsDefined(tag, record)
    ensures r.Err? <==> DataTagRejected(tag)
    ensures r.Err? ==> r.error == InvalidArgumentException
    ensures r.Ok? ==>
              var matches := MatchingEntries(Directory(record), tag);
              && (forall e :: e in matches ==> FieldInRange(e, record, BaseAddress(record)))
              && r.value == RawFields(matches, record, BaseAddress(record))
  {
    if DataTagRejected(tag) {
      return Err(InvalidArgumentException);
    }
    var fields: seq<string> := [];
    var dir := Directory(record);
    var base := BaseAddress(record);
    for i := 0 to |dir|
      invariant forall e :: e in MatchingEntries(dir[..i], tag) ==> FieldInRange(e, record, base)
      invariant fields == RawFields(MatchingEntries(dir[..i], tag), record, base)
    {
      var entry := dir[i];
      var before := MatchingEntries(dir[..i], tag);
      MatchingEntriesStep(dir, i, tag);
      if DirTag(entry) == tag {
        assert entry in dir;
        assert FieldInRange(entry, record, base);
        RawFieldsSnoc(before, entry, record, base);
        fields := fields + [RawField(entry, record, base)];
      } else {
        assert before + [] == before;
      }
    }
    assert dir[..|dir|] == dir;
    return Ok(fields);
  }

  // ----------------------------------------------------------------------
  // Indicators and subfields

  /** getFirstIndicator: the first byte of a data field. */
  function FirstIndicator(field: string): (r: string)
    ensures |r| == Min(1, |field|)
    ensures field != "" ==> r == [field[0]]
  {
    Substr(field, 0, 1)
  }

  /** getSecondIndicator: the second byte of a data field (empty for a
      one-byte field). */
  function SecondIndicator(field: string): (r: string)
    requires field != ""
    ensures |field| >= 2 ==> r == [field[1]]
    ensures |field| == 1 ==> r == ""
  {
    Substr(field, 1, 1)
  }

  /** getSubfields: the data field after its two indicators and the first
      delimiter. */
  function Subfields(field: string): (r: string)
    requires |field| >= 3
    ensures field[..3] + r == field
  {
    SubstrFrom(field, 3)
  }

  /** One subfield: its code (getSubfieldsAsAssocArray calls it `tag`) and
      its content. */
  datatype Subfield = Subfield(tag: string, content: string)

  /** One exploded element: the first byte is the code, the rest the content. */
  function SubfieldOf(element: string): (r: Subfield)
    ensures r.tag + r.content == element
    ensures |r.tag| == Min(1, |element|)
    ensures r.content == element[|r.tag|..]
  {
    Subfield(Substr(element, 0, 1), SubstrFrom(element, 1))
  }

  /** The subfields of a list of exploded elements, one each, in order. */
  function SubfieldsOf(elements: seq<string>): (r: seq<Subfield>)
    ensures |r| == |elements|
    decreases |elements|
  {
    if elements == [] then []
    else SubfieldsOf(elements[..|elements| - 1]) + [SubfieldOf(elements[|elements| - 1])]
  }

  /** The element a subfield stands for: its code followed by its content. */
  function Elements(list: seq<Subfield>): (r: seq<string>)
    ensures |r| == |list|
    decreases |list|
  {
    if list == [] then []
    else Elements(list[..|list| - 1]) + [list[|list| - 1].tag + list[|list| - 1].content]
  }

  /** What getSubfieldsAsAssocArray returns for a raw subfield string. */
  function SubfieldList(subfields: string): seq<Subfield>
  {
    SubfieldsOf(Explode(subfields, DELIMITER))
  }

  /** The raw subfield string a list stands for: the elements joined by the
      delimiter. */
  function JoinSubfields(list: seq<Subfield>): string
  {
    Join(Elements(list), DELIMITER)
  }

  /** Each subfield comes from the element at the same index: a code of at
      most one byte and a content with no byte the element lacks. */
  lemma {:induction false} SubfieldsOfAt(elements: seq<string>, k: nat)
    requires k < |elements|
    ensures SubfieldsOf(elements)[k] == SubfieldOf(elements[k])
    decreases |elements|
  {
    if k < |elements| - 1 {
      SubfieldsOfAt(elements[..|elements| - 1], k);
    }
  }

  /** Elements undoes SubfieldsOf. */
  lemma {:induction false} ElementsOfSubfields(elements: seq<string>)
    ensures Elements(SubfieldsOf(elements)) == elements
    decreases |elements|
  {
    if elements != [] {
      var init := elements[..|elements| - 1];
      ElementsOfSubfields(init);
      var last := elements[|elements| - 1];
      var list := SubfieldsOf(elements);
      assert list == SubfieldsOf(init) + [SubfieldOf(last)];
      assert list[..|list| - 1] == SubfieldsOf(init);
      assert list[|list| - 1] == SubfieldOf(last);
      assert Elements(list) == elements by {
        assert Elements(list) == Elements(SubfieldsOf(init)) + [last];
        assert elements == init + [last];
      }
    }
  }

  /** SubfieldsOf undoes Elements on subfields whose codes are one byte. */
  lemma {:induction false} SubfieldsOfElements(list: seq<Subfield>)
    requires forall k :: 0 <= k < |list| ==> |list[k].tag| == 1
    ensures SubfieldsOf(Elements(list)) == list
    decreases |list|
  {
    if list != [] {
      var init := list[..|list| - 1];
      var last := list[|list| - 1];
      var e := last.tag + last.content;
      SubfieldsOfElements(init);
      var es := Elements(list);
      assert es == Elements(init) + [e];
      assert es[..|es| - 1] == Elements(init);
      assert es[|es| - 1] == e;
      assert SubfieldOf(e) == last by {
        assert SubfieldOf(e).tag == e[..1] == last.tag;
      }
      assert SubfieldsOf(es) == list by {
        assert SubfieldsOf(es) == SubfieldsOf(Elements(init)) + [SubfieldOf(e)];
        assert list == init + [last];
      }
    }
  }

  /** Joining the decoded subfields gives back the raw subfield string; there
      is one more subfield than there are delimiters, and none holds one. */
  lemma SubfieldListJoin(subfields: string)
    ensures JoinSubfields(SubfieldList(subfields)) == subfields
    ensures |SubfieldList(subfields)| == Count(subfields, DELIMITER) + 1
    ensures forall k :: 0 <= k < |SubfieldList(subfields)| ==>
              |SubfieldList(subfields)[k].tag| <= 1 && DELIMITER !in SubfieldList(subfields)[k].content
  {
    var elements := Explode(subfields, DELIMITER);
    ExplodeParts(subfields, DELIMITER);
    ElementsOfSubfields(elements);
    forall k | 0 <= k < |elements|
      ensures |SubfieldList(subfields)[k].tag| <= 1 && DELIMITER !in SubfieldList(subfields)[k].content
    {
      SubfieldsOfAt(elements, k);
    }
  }

  /** Decoding undoes joining: subfields with one-byte codes and no delimiter
      in them come back unchanged. */
  lemma SubfieldListOfJoin(list: seq<Subfield>)
    requires |list| >= 1
    requires forall k :: 0 <= k < |list| ==> |list[k].tag| == 1 && DELIMITER !in list[k].tag + list[k].content
    ensures SubfieldList(JoinSubfields(list)) == list
  {
    var es := Elements(list);
    forall k | 0 <= k < |es| ensures DELIMITER !in es[k] {
      ElementsAt(list, k);
    }
    ExplodeJoin(es, DELIMITER);
    SubfieldsOfElements(list);
  }

  /** The k-th element is the k-th subfield's code and content. */
  lemma {:induction false} ElementsAt(list: seq<Subfield>, k: nat)
    requires k < |list|
    ensures Elements(list)[k] == list[k].tag + list[k].content
    decreases |list|
  {
    if k < |list| - 1 {
      ElementsAt(list[..|list| - 1], k);
    }
  }

  /** getSubfieldsAsAssocArray: one subfield per delimiter-separated element,
      so one more than the number of delimiters; no content holds a delimiter,
      and joining them gives back the input. */
  method GetSubfieldsAsAssocArray(subfields: string) returns (r: seq<Subfield>)
    ensures r == SubfieldList(subfields)
    ensures |r| == Count(subfields, DELIMITER) + 1
    ensures forall k :: 0 <= k < |r| ==> |r[k].tag| <= 1 && DELIMITER !in r[k].content
    ensures JoinSubfields(r) == subfields
  {
    r := [];
    var elements := Explode(subfields, DELIMITER);
    for i := 0 to |elements|
      invariant r == SubfieldsOf(elements[..i])
    {
      assert elements[..i + 1][..i] == elements[..i];
      r := r + [SubfieldOf(elements[i])];
    }
    assert elements[..|elements|] == elements;
    SubfieldListJoin(subfields);
  }

  /** A decoded data field (getDataFieldAsAssocArray's array). */
  datatype DataField = DataField(ind1: string, ind2: string, subfields: seq<Subfield>)

  /** What getDataFieldAsAssocArray returns. As written, BOTH indicators are
      taken with getFirstIndicator. */
  function DataFieldOf(field: string): DataField
    requires |field| >= 3
  {
    DataField(FirstIndicator(field), FirstIndicator(field), SubfieldList(Subfields(field)))
  }

  /** getDataFieldAsAssocArray: the first byte as both indicators, and the
      subfields of everything after byte 3. */
  method GetDataFieldAsAssocArray(field: string) returns (r: DataField)
    requires |field| >= 3
    ensures r == DataFieldOf(field)
    ensures r.ind1 == [field[0]] && r.ind2 == [field[0]]
    ensures JoinSubfields(r.subfields) == field[3..]
  {
    var subfields := GetSubfieldsAsAssocArray(Subfields(field));
    r := DataField(FirstIndicator(field), FirstIndicator(field), subfields);
  }

  /** The second indicator of the decoded field is the first byte, not the
      byte getSecondIndicator reads: for " 0" + delimiter + "aCattle" the
      decoded ind2 is " " while the field's second indicator is "0". */
  lemma SecondIndicatorIgnored()
    ensures DataFieldOf(" 0\U{1F}aCattle").ind2 == " "
    ensures SecondIndicator(" 0\U{1F}aCattle") == "0"
  {
  }

  // ----------------------------------------------------------------------
  // Whole record

  /** One decoded field of getRecordAsAssocArray: a control field with its
      raw content, or a data field with indicators and subfields. */
  datatype FieldValue =
    | ControlFieldValue(tag: string, content: string)
    | DataFieldValue(tag: string, ind1: string, ind2: string, subfields: seq<Subfield>)

  /** What getRecordAsAssocArray needs of one entry: the field lies in the
      record and, for a data field, has its two indicators and a delimiter. */
  predicate EntryDecodable(entry: string, record: string, baseAddress: int)
  {
    && FieldInRange(entry, record, baseAddress)
    && (!ContainsControlTag(DirTag(entry)) ==> |RawField(entry, record, baseAddress)| >= 3)
  }

  predicate RecordDecodable(record: string)
  {
    && HasDirectory(record)
    && forall e :: e in Directory(record) ==> EntryDecodable(e, record, BaseAddress(record))
  }

  /** One iteration of getRecordAsAssocArray. */
  function DecodeEntry(entry: string, record: string, baseAddress: int): FieldValue
    requires EntryDecodable(entry, record, baseAddress)
  {
    var tag := DirTag(entry);
    var raw := RawField(entry, record, baseAddress);
    if ContainsControlTag(tag) then ControlFieldValue(tag, raw)
    else
      var f := DataFieldOf(raw);
      DataFieldValue(tag, f.ind1, f.ind2, f.subfields)
  }

  /** A decoded field keeps its entry's tag, and it is a control field
      exactly when the tag is a control tag. */
  lemma DecodeEntryShape(entry: string, record: string, baseAddress: int)
    requires EntryDecodable(entry, record, baseAddress)
    ensures DecodeEntry(entry, record, baseAddress).tag == DirTag(entry)
    ensures DecodeEntry(entry, record, baseAddress).ControlFieldValue? <==> IsControlTag(DirTag(entry))
  {
    ContainsControlTagShort(DirTag(entry));
  }

  /** The decoded fields of the first `i` entries of `dir`, one each, in
      order. */
  function DecodeEntries(dir: seq<string>, i: nat, record: string, baseAddress: int): (r: seq<FieldValue>)
    requires i <= |dir|
    requires forall k :: 0 <= k < |dir| ==> EntryDecodable(dir[k], record, baseAddress)
    ensures |r| == i
  {
    if i == 0 then []
    else DecodeEntries(dir, i - 1, record, baseAddress) + [DecodeEntry(dir[i - 1], record, baseAddress)]
  }

  /** The k-th decoded field comes from the k-th entry. */
  lemma {:induction false} DecodeEntriesAt(dir: seq<string>, i: nat, record: string, baseAddress: int, k: nat)
    requires i <= |dir|
    requires forall k :: 0 <= k < |dir| ==> EntryDecodable(dir[k], record, baseAddress)
    requires k < i
    ensures DecodeEntries(dir, i, record, baseAddress)[k] == DecodeEntry(dir[k], record, baseAddress)
    decreases i
  {
    var prev := DecodeEntries(dir, i - 1, record, baseAddress);
    var last := DecodeEntry(dir[i - 1], record, baseAddress);
    assert DecodeEntries(dir, i, record, baseAddress) == prev + [last];
    if k < i - 1 {
      DecodeEntriesAt(dir, i - 1, record, baseAddress, k);
      assert (prev + [last])[k] == prev[k];
    }
  }

  /** What getRecordAsAssocArray returns: one decoded field per directory
      entry, in directory order. */
  function DecodedRecord(record: string): seq<FieldValue>
    requires RecordDecodable(record)
  {
    DecodeEntries(Directory(record), |Directory(record)|, record, BaseAddress(record))
  }

  /** One output per directory entry, in directory order, with the entry's
      tag; control tags give control fields, every other tag a data field. */
  lemma DecodedRecordShape(record: string)
    requires RecordDecodable(record)
    ensures |DecodedRecord(record)| == |Directory(record)|
    ensures forall k :: 0 <= k < |DecodedRecord(record)| ==>
              && DecodedRecord(record)[k].tag == DirTag(Directory(record)[k])
              && (DecodedRecord(record)[k].ControlFieldValue? <==> IsControlTag(DecodedRecord(record)[k].tag))
  {
    var dir := Directory(record);
    var base := BaseAddress(record);
    var fields := DecodedRecord(record);
    assert forall k :: 0 <= k < |dir| ==> EntryDecodable(dir[k], record, base) by {
      forall k | 0 <= k < |dir| ensures EntryDecodable(dir[k], record, base) {
        assert dir[k] in dir;
      }
    }
    forall k | 0 <= k < |dir|
      ensures fields[k].tag == DirTag(dir[k])
      ensures fields[k].ControlFieldValue? <==> IsControlTag(DirTag(dir[k]))
    {
      DecodeEntriesAt(dir, |dir|, record, base, k);
      DecodeEntryShape(dir[k], record, base);
    }
  }

  /** getRecordAsAssocArray, looping over the directory. */
  method GetRecordAsAssocArray(record: string) returns (r: seq<FieldValue>)
    requires RecordDecodable(record)
    ensures r == DecodedRecord(record)
  {
    r := [];
    var dir := Directory(record);
    var base := BaseAddress(record);
    for i := 0 to |dir|
      invariant r == DecodeEntries(dir, i, record, base)
    {
      assert dir[i] in dir;
      var temp := GetFieldAsAssocArray(dir[i], record, base);
      r := r + [temp];
    }
  }

  /** The body of getRecordAsAssocArray's loop for one entry: a control tag
      keeps the raw field, any other tag is decoded as a data field. */
  method GetFieldAsAssocArray(entry: string, record: string, base: int) returns (temp: FieldValue)
    requires EntryDecodable(entry, record, base)
    ensures temp == DecodeEntry(entry, record, base)
  {
    var tag := DirTag(entry);
    if ContainsControlTag(tag) {
      temp := ControlFieldValue(tag, RawField(entry, record, base));
    } else {
      var f := GetDataFieldAsAssocArray(RawField(entry, record, base));
      temp := DataFieldValue(tag, f.ind1, f.ind2, f.subfields);
    }
  }

  /** get: the alias of getRecordAsAssocArray. */
  method Get(record: string) returns (r: seq<FieldValue>)
    requires RecordDecodable(record)
    ensures r == DecodedRecord(record)
  {
    r := GetRecordAsAssocArray(record);
  }
}
