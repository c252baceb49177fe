# MARC record reader, modelled in Dafny

This project models the core of a small PHP library for MARC 21 bibliographic
records. Such a record is a byte string with four parts:

- a 24-byte leader whose bytes 12 to 16 hold the base address of the data;
- a directory of 12-byte entries (three bytes of tag, four of field length,
  five of starting position), closed by a field terminator (0x1E);
- the fields, each closed by a field terminator;
- a record terminator (0x1D).

Two PHP classes make up the core:

- `MarcRecordReader` is a set of static decoders. They read the base address,
  the directory and its entries, and a raw field. They fetch control fields
  (tags `00x`, with a fast path for `001`) and data fields by tag. They split
  a data field into its indicators and its subfields (separated by 0x1F), and
  decode a whole record into one value per directory entry.
- `MarcReader` hands out raw records one at a time. It is modelled in
  string-source mode: the constructor's type switch and `nextRaw`.

The model keeps the code's behaviour as written, including these quirks:

- `getDataFieldAsAssocArray` takes BOTH indicators from byte 0.
- `getDataFields` refuses a tag only when it is not three digits AND its
  `intval` is below 10, so "12", "6500" and " 99x" are accepted.
- `get001` reads from the base address and ignores the entry's starting
  position.
- `str_split` keeps a short trailing chunk of a directory whose length is no
  multiple of 12, and turns an empty directory into one empty entry.
- `getRecordAsAssocArray` tests a tag with the unanchored pattern `/00[0-9]/`.
  This is proved to agree with the anchored test on directory tags, which are
  at most three bytes.
- From its second call on, `nextRaw` reads at a position into a source that
  has already been cut. The position grows by the index of the terminator
  while the source loses one byte more. So the second value need not be a
  record.

The model has five modules:

- `Wrappers` holds `Option` (PHP's `false`) and `Result` (a value or the
  exception thrown).
- `Php` gives the semantics of the PHP built-ins the code relies on: `substr`,
  `strpos`, `explode`, `str_split`, `intval`, `empty`.
- `MarcRecordReader` holds the decoders. Each `foreach` loop is a method
  proved against a specification function.
- `MarcReader` holds the reader: a class with the source, the position and
  the source type, plus a ghost copy of the original input.
- `RecordLayout` is an encoder that writes records in the layout the decoders
  read. It is the decoders' partner: on every encoded record, getting the base
  address, the directory, an entry or a raw field gives back what was
  encoded, and so does `get001` when the record's first field is 001.

## Model

| member | source | states |
|---|---|---|
| Php.StrPos | src/MarcReader.php:80-81 | `strpos` finds nothing exactly when the character is absent; otherwise it gives the index of its first occurrence |
| Php.ExplodeParts | src/MarcRecordReader.php:315 | `explode` gives one piece more than the delimiter occurs; no piece holds the delimiter; the pieces joined with it give back the string |
| Php.ExplodeJoin | src/MarcRecordReader.php:315 | exploding the join of delimiter-free pieces gives back the pieces |
| Php.StrSplit | src/MarcRecordReader.php:145 | `str_split` pieces concatenate to the input; all but the last have the chunk length; the last is non-empty and no longer, or the input is empty and the result is one empty piece |
| Php.StrSplitExact | src/MarcRecordReader.php:145 | a string of k whole chunks splits into exactly k chunks of full length |
| Php.StrSplitConcat | src/MarcRecordReader.php:145 | splitting the concatenation of equal-length chunks gives back the chunks |
| Php.IntValOfDigits | src/MarcRecordReader.php:55-59 | `intval` (`Php.IntVal`) of a digit string is its decimal value, below 10 to the power of its length |
| MarcRecordReader.BaseAddressOfLeader | src/MarcRecordReader.php:54-60 | with digits at leader bytes 12 to 16, the base address (`BaseAddress`) is their decimal value, below 100000 |
| MarcRecordReader.BaseAddressExample | tests/MarcRecordReaderTest.php:29-35 | the leader `01732cam a2200433   4500` has base address 433 |
| MarcRecordReader.DirectoryRaw | src/MarcRecordReader.php:68-74 | the raw directory is the bytes from the end of the leader to just before the base address, cut short at the end of the record |
| MarcRecordReader.Directory | src/MarcRecordReader.php:143-146 | the entries concatenate to the raw directory; all but the last are 12 bytes; the last is 1 to 12 bytes, or the directory is empty and there is one empty entry |
| MarcRecordReader.DirectoryEntryCount | src/MarcRecordReader.php:143-146 | a raw directory of 12·n bytes gives exactly n entries of 12 bytes |
| MarcRecordReader.DirTag | src/MarcRecordReader.php:82-88 | the tag is the first three bytes of the entry, or all of a shorter one, as the clamped `Php.Substr` gives |
| MarcRecordReader.EntryFields | src/MarcRecordReader.php:96-135 | on a 12-byte entry with digits after the tag, `EntryAsAssocArray` (from `DirTag`, `DirLength`, `DirPosition`) gives: tag = bytes 0-2, length = decimal of bytes 3-6 (below 10000), position = decimal of bytes 7-11 (below 100000) |
| MarcRecordReader.EntryExample | tests/MarcRecordReaderTest.php:44-55 | the entry `003000600013` decodes to tag 003, length 6, position 13 |
| MarcRecordReader.RawField | src/MarcRecordReader.php:189-200 | the raw field is the bytes at base + position: exactly length − 1 of them, or the whole rest of the record when fewer remain |
| MarcRecordReader.RawFieldDefaultBase | src/MarcRecordReader.php:191-193 | a base address that is not positive (the default −1) reads the same field as the leader's base address |
| MarcRecordReader.Get001 | src/MarcRecordReader.php:158-179 | RuntimeException exactly when the 12 bytes after the leader do not start with `001`; otherwise the bytes at the base address, exactly the entry's length − 1 of them or the rest of the record when fewer remain, whatever the entry's position |
| MarcRecordReader.Get001IsFirstRawField | src/MarcRecordReader.php:158-179 | when the first entry is an 001 entry at position 0, get001 equals getRawField on the first directory entry |
| MarcRecordReader.ContainsControlTagShort | src/MarcRecordReader.php:341 | on a tag of at most three bytes the unanchored `/00[0-9]/` matches exactly when `/^00[0-9]$/` does |
| MarcRecordReader.ContainsControlTagUnanchored | src/MarcRecordReader.php:341 | on longer strings it does not: `1001` matches the unanchored pattern only |
| MarcRecordReader.DataTagRejectedExamples | src/MarcRecordReader.php:241-243 | the data-field tag test (`DataTagRejected`) refuses `abc`, `9` and the empty tag |
| MarcRecordReader.DataTagAcceptedNumeric | src/MarcRecordReader.php:241 | it accepts the three-digit tags `650` and `008` |
| MarcRecordReader.DataTagAcceptedLong | src/MarcRecordReader.php:241 | because of `&&` it also accepts `12` and `6500`, whose `intval` is at least 10 |
| MarcRecordReader.DataTagAcceptedPadded | src/MarcRecordReader.php:241 | and ` 99x`: `intval` skips the blank and stops at the letter |
| MarcRecordReader.DataTagRejectedExponent | src/MarcRecordReader.php:241-243 | with PHP 7.0's `intval` the tag `1e5` reads as 1, so getDataFields refuses it |
| MarcRecordReader.FindTag | src/MarcRecordReader.php:221-225 | nothing exactly when no entry has the tag; otherwise the index of the first entry that has it |
| MarcRecordReader.FindTagStep | src/MarcRecordReader.php:221-225 | one iteration of the search: a matching entry is the first match, a non-matching one moves the first match past it |
| MarcRecordReader.GetControlField | src/MarcRecordReader.php:209-229 | InvalidArgumentException for a tag other than `00` and a digit; `001` gives get001; another control tag gives the raw field of its first entry, or RuntimeException when no entry has it |
| MarcRecordReader.ControlTagRefused | src/MarcRecordReader.php:212-214 | `abc`, `999` and `0010` fail the control-tag test; `001` and `008` pass it |
| MarcRecordReader.MatchingEntries | src/MarcRecordReader.php:249-253 | an entry is among the matches exactly when it is in the directory with the requested tag |
| MarcRecordReader.MatchingEntriesStep | src/MarcRecordReader.php:249-253 | one iteration appends the entry exactly when its tag matches |
| MarcRecordReader.MatchingEntriesAppend | src/MarcRecordReader.php:249-253 | the matches of two directory parts are the matches of each, in order |
| MarcRecordReader.MatchingEntriesEmpty | src/MarcRecordReader.php:249-255 | there are no matches exactly when no entry has the tag |
| MarcRecordReader.RawFieldsAt | src/MarcRecordReader.php:251 | the k-th collected field is the raw field of the k-th matching entry |
| MarcRecordReader.GetDataFields | src/MarcRecordReader.php:238-256 | InvalidArgumentException exactly when the tag is refused; otherwise the raw fields of all entries with that tag, in directory order, read with the leader's base address |
| MarcRecordReader.FirstIndicator | src/MarcRecordReader.php:283-285 | byte 0 of the field, or nothing for an empty field |
| MarcRecordReader.SecondIndicator | src/MarcRecordReader.php:293-295 | byte 1 of the field, or nothing for a one-byte field |
| MarcRecordReader.Subfields | src/MarcRecordReader.php:303-305 | what follows the two indicators and the first delimiter: the first three bytes and it make up the field |
| MarcRecordReader.SubfieldOf | src/MarcRecordReader.php:319-320 | a subfield's code is the element's first byte (none for an empty element), and code followed by content is the element |
| MarcRecordReader.ElementsOfSubfields | src/MarcRecordReader.php:317-322 | rejoining each subfield's code and content gives back the exploded elements |
| MarcRecordReader.SubfieldsOfElements | src/MarcRecordReader.php:317-322 | and subfields with one-byte codes are recovered from their elements |
| MarcRecordReader.SubfieldListJoin | src/MarcRecordReader.php:313-324 | the subfields joined with the delimiter give back the input; there is one more subfield than delimiters; no code is longer than one byte and no content holds a delimiter |
| MarcRecordReader.SubfieldListOfJoin | src/MarcRecordReader.php:313-324 | decoding the join of delimiter-free subfields with one-byte codes gives them back |
| MarcRecordReader.GetSubfieldsAsAssocArray | src/MarcRecordReader.php:313-324 | the loop builds the subfield list, with the count, shape and join facts above |
| MarcRecordReader.GetDataFieldAsAssocArray | src/MarcRecordReader.php:265-275 | the decoded data field (`DataFieldOf`) takes both indicators from byte 0 of the field, and the subfields join back to the field from byte 3 on |
| MarcRecordReader.SecondIndicatorIgnored | src/MarcRecordReader.php:269 | on ` 0␟aCattle` the decoded second indicator is a blank, although getSecondIndicator gives `0` |
| MarcRecordReader.DecodeEntryShape | src/MarcRecordReader.php:339-352 | a decoded field (`DecodeEntry`) keeps its entry's tag, and it is a control field exactly when that tag is `00` and a digit |
| MarcRecordReader.DecodeEntriesAt | src/MarcRecordReader.php:338-354 | the k-th value collected by the loop is the decoding of the k-th entry |
| MarcRecordReader.DecodedRecordShape | src/MarcRecordReader.php:332-357 | one value per directory entry, in order, with that entry's tag, a control field exactly for `00x` tags |
| MarcRecordReader.GetFieldAsAssocArray | src/MarcRecordReader.php:339-352 | one iteration: the content alone for a control tag, indicators and subfields otherwise |
| MarcRecordReader.GetRecordAsAssocArray | src/MarcRecordReader.php:332-357 | the loop computes the decoded record, so DecodedRecordShape applies |
| MarcRecordReader.Get | src/MarcRecordReader.php:365-367 | the same result as getRecordAsAssocArray |
| MarcReader.SourceKindOf | src/MarcReader.php:31-53 | type 1 selects a file and 2 a string; any other type is InvalidArgumentException |
| MarcReader.MarcReader.FromString | src/MarcReader.php:26-29 | a string reader starts on the whole input at position 0 |
| MarcReader.MarcReader.Open | src/MarcReader.php:26-53 | a non-file type gives a fresh string reader on the input at position 0, whose recorded input is that input, or InvalidArgumentException exactly when the type is unknown |
| MarcReader.NoTerminatorNoChange | src/MarcReader.php:80-81 | with no record terminator left, nextRaw returns false and changes nothing |
| MarcReader.StepFound | src/MarcReader.php:80-85 | with the first terminator at idx: the source is cut after it and the position grows by idx; the value is the idx + 1 bytes at the position, or false when `empty` holds for them |
| MarcReader.StepAtTerminator | src/MarcReader.php:80-94 | the same, and the source gets strictly shorter |
| MarcReader.StepKeepsSuffix | src/MarcReader.php:82-84 | the source stays a suffix of the input, and the position never passes the number of bytes cut off |
| MarcReader.StepMonotone | src/MarcReader.php:82-84 | the position never goes back, and a returned record shortens the source |
| MarcReader.FirstCallWholeRecord | src/MarcReader.php:80-84 | the first call returns the source up to and including its first terminator |
| MarcReader.DrainStep | tests/MarcReaderTest.php:50 | the `while` loop stops at the first false and otherwise continues from the new state |
| MarcReader.DoubledRecord | tests/MarcReaderTest.php:42-56 | a string holding one record twice yields the whole record, then only the terminator |
| MarcReader.MisalignedSecondRecord | src/MarcReader.php:82-84 | on `a␝bc␝d` the loop yields `a␝` and then `c␝d`, which straddles a record boundary |
| MarcReader.ZeroSliceEndsLoop | src/MarcReader.php:82-94 | on `a␝␝0` the second call reads the slice `0`, which `empty` reports as empty like the null string, so `nextRaw` gives false and the loop ends after one record although a terminator was consumed; the reader is left at source `0`, position 1 |
| MarcReader.MarcReader.NextRaw | src/MarcReader.php:66-97 | the value returned and the new source and position are those of one nextRaw step (`NextRawStep`), the input and source type are kept, and the reader stays valid |
| MarcReader.ReadStep | tests/MarcReaderTest.php:50 | one iteration of the loop appends the value returned or ends the list, and a value shortens the source |
| MarcReader.ReadAll | tests/MarcReaderTest.php:50-56 | the loop terminates, collects exactly the values Drain lists, leaves the reader in the state DrainEnd gives (the one after the call that returned false), and keeps the input and source type |
| RecordLayout.DecimalOfZeroPad | src/MarcRecordReader.php:96-121 | a number written with leading zeros in a field wide enough for it reads back as that number |
| RecordLayout.ZeroPadOfDecimal | src/MarcRecordReader.php:96-121 | a digit string is the zero-padded form of its value |
| RecordLayout.EntryRoundTrip | src/MarcRecordReader.php:129-135 | getEntryAsAssocArray reads back the tag, length and position an encoded entry holds |
| RecordLayout.EntryOfDecode | src/MarcRecordReader.php:129-135 | every 12-byte entry with digits after its tag is the encoding of what getEntryAsAssocArray reads from it |
| RecordLayout.EncodedBaseAddress | src/MarcRecordReader.php:54-60 | the base address of an encoded record points just past the directory's terminator |
| RecordLayout.EncodedDirectoryRaw | src/MarcRecordReader.php:68-74 | the raw directory of an encoded record is its entries, concatenated |
| RecordLayout.EncodedDirectory | src/MarcRecordReader.php:143-146 | getDirectory on an encoded record gives back its entries, in order |
| RecordLayout.EncodedRawField | src/MarcRecordReader.php:189-200 | the k-th directory entry of an encoded record has the k-th field's tag, and getRawField on it gives back the k-th field's content |
| RecordLayout.EncodedGet001 | src/MarcRecordReader.php:158-179 | get001 on an encoded record whose first field is 001 gives back that field's content |
| RecordLayout.Get001IgnoresPosition | src/MarcRecordReader.php:178 | in a record whose 001 entry has position 2, get001 reads `xy` at the base address, while getRawField reads `ab` at position 2 |

## Left out

- The SOURCE_FILE branch of `MarcReader` is not modelled: opening and checking
  a file, `stream_get_line` and MAX_RECORD_LENGTH. File I/O is outside a pure
  model, so `Open` requires a type other than SOURCE_FILE.
- Encodings: records are strings of characters, one per byte. There is no
  multibyte handling. This matches PHP's byte strings.
- PCRE details: the patterns are modelled as the predicates they denote on
  strings. The `$` anchor's acceptance of one trailing newline is left out.
- Failures PHP reports as a `TypeError` under `strict_types` are
  preconditions, not modelled errors: a data field of fewer than three bytes
  (`EntryDecodable`; `substr` gives false, which `getSubfieldsAsAssocArray`
  refuses), a record shorter than the leader (`Get001Defined`,
  `HasDirectory`), and a field or 001 start past the end of the record
  (`FieldInRange`, `Get001Defined`; `substr` gives false, which the declared
  `string` return type refuses), and an empty field passed to
  `getSecondIndicator` (`SecondIndicator` requires a non-empty field, because
  `substr("", 1, 1)` gives false, which the `string` return type refuses).
- FieldInRange, HasDirectory and Get001Defined also exclude malformed records
  on which `substr` gets a negative start or length. PHP does not fail there:
  a negative start counts from the end of the string, and a negative length
  leaves that many bytes off the end. For example, an entry with length `0000`
  makes getRawField return the record from the field's start minus its last
  byte, and a base address below 25 makes getDirectoryRaw drop bytes from the
  end of the record. The model says nothing about these inputs.
- Substr: where PHP 7 returns false (a start past the end) the model returns
  the empty string. The difference is only observable in an empty subfield
  element's content. In the other places it occurs (`nextRaw` with a position
  past the end of the cut source, `DirLength` or `DirPosition` of a short last
  entry) the value goes to `empty` or `intval`, which treat false and the
  empty string alike.
- IntVal: follows PHP 7.0, where `intval` of a string reads blanks, an
  optional sign and the longest run of digits. From PHP 7.1 on it also reads a
  decimal fraction and an exponent (`intval("1e5")` is 100000); this is not
  modelled.
- IntVal: is unbounded, while PHP's `intval` saturates at the integer limits
  in every version (`intval("420000000000000000000")` is 9223372036854775807).
  This cannot be observed here. The base address, length and position fields
  have 4 or 5 digits. A saturated tag value is still at least 10, or below 10
  for a negative one, exactly as the unbounded value is. So `IntValOfDigits`
  agrees with PHP on every digit string of up to 18 digits, which covers all
  the fields the code reads.
- DataTagRejected: inherits that difference. PHP 7.1 and later accept the tag
  `1e5` in getDataFields, because its `intval` is 100000; the model refuses it,
  because its `IntVal` is 1.
- GetDataFields: the same difference as DataTagRejected.
- BaseAddress, DirLength and DirPosition: on a leader or entry whose number
  field is not all digits, such as the base address `01e03`, PHP 7.1 and later
  read 1000 where the model reads 1. On digit fields they agree.
- The leader constants the code declares but never uses (record length,
  status, type, coding scheme, indicator count, subfield code length, entry
  map) are not declared.
- The tests call `getLeader` and `getControlFields`. Neither exists in
  `MarcRecordReader`, so neither is modelled.
- Facts about the test data file cattle.mrc cannot be checked here: 34
  entries, the 001 content `crle00532681`, two 650 fields. cattle.mrc is not
  part of this model. The leader, the entry `003000600013` and `DoubledRecord`
  stand in for them.
- The data-field test expects a second indicator of `0`. The code takes it from
  byte 0 (`src/MarcRecordReader.php:269`). The model follows the code; see
  `SecondIndicatorIgnored`.
- getControlField never reports the tag `999` as not found: it refuses it as
  an invalid argument before searching, because the tag fails `/^00[0-9]$/`
  (`src/MarcRecordReader.php:212-214`). See `ControlTagRefused`.
- The reader's `$type` field is named `sourceType`, because `type` is a Dafny
  keyword.
