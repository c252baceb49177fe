/** The record reader over a source string: a cursor that hands out one raw
    record, up to and including its record terminator, per call. The state
    is the remaining source and a position into it; each call trims the
    source past the first terminator but advances the position by the index
    of that terminator, so from the second call on the position points into a
    string that has already been cut. */
module MarcReader {
  import opened Wrappers
  import opened Php

  const SOURCE_FILE: int := 1
  const SOURCE_STRING: int := 2

  const RT: char := '\U{1D}'

  /** The kinds of source the constructor accepts. */
  datatype SourceKind = FileSource | StringSource

  /** The constructor's `switch` on the type: 1 is a file, 2 a string, and
      anything else throws InvalidArgumentException. */
  function SourceKindOf(sourceType: int): (r: Result<SourceKind>)
    ensures r.Ok? <==> sourceType == SOURCE_FILE || sourceType == SOURCE_STRING
    ensures r.Err? ==> r.error == InvalidArgumentException
    ensures r == Ok(StringSource) <==> sourceType == SOURCE_STRING
  {
    if sourceType == SOURCE_FILE then Ok(FileSource)
    else if sourceType == SOURCE_STRING then Ok(StringSource)
    else Err(InvalidArgumentException)
  }

  /** The part of the reader's state that nextRaw reads and writes. */
  datatype Cursor = Cursor(source: string, pos: int)

  /** What one nextRaw call returns (None for PHP's false) and the state it
      leaves behind. */
  datatype Step = Step(record: Option<string>, next: Cursor)

  /** One nextRaw call on a string source. With no terminator left it returns
      false and changes nothing. Otherwise, with `idx` the index of the first
      terminator, it takes `idx + 1` bytes at `pos`, drops the source up to
      and including the terminator, and adds `idx` to `pos`; a slice that PHP's
      `empty()` accepts ("" or "0") is reported as false. */
  function NextRawStep(c: Cursor): Step
    requires c.pos >= 0
  {
    match StrPos(c.source, RT)
    case None => Step(None, c)
    case Some(idx) =>
      var record := Substr(c.source, c.pos, idx + 1);
      var next := Cursor(SubstrFrom(c.source, idx + 1), c.pos + idx);
      Step(if Empty(record) then None else Some(record), next)
  }

  /** The step once strpos has found the terminator at `idx`, in the terms
      nextRaw computes it. */
  lemma StepFound(c: Cursor, idx: nat)
    requires c.pos >= 0 && StrPos(c.source, RT) == Some(idx)
    ensures NextRawStep(c).next == Cursor(SubstrFrom(c.source, idx + 1), c.pos + idx)
    ensures Empty(Substr(c.source, c.pos, idx + 1)) ==> NextRawStep(c).record == None
    ensures !Empty(Substr(c.source, c.pos, idx + 1)) ==> NextRawStep(c).record == Some(Substr(c.source, c.pos, idx + 1))
  {
  }

  /** `idx` is the index of the first record terminator of `s`. */
  predicate FirstTerminator(s: string, idx: nat)
  {
    idx < |s| && s[idx] == RT && RT !in s[..idx]
  }

  /** Without a terminator nextRaw returns false and leaves the state alone. */
  lemma NoTerminatorNoChange(c: Cursor)
    requires c.pos >= 0 && RT !in c.source
    ensures NextRawStep(c) == Step(None, c)
  {
  }

  /** With the first terminator at `idx`: the new source is everything after
      it (so it is shorter), the position grows by `idx`, and the value is
      the `idx + 1` bytes at the old position unless PHP's `empty()` holds
      for them. */
  lemma {:induction false} StepAtTerminator(c: Cursor, idx: nat)
    requires c.pos >= 0 && FirstTerminator(c.source, idx)
    ensures NextRawStep(c).next == Cursor(c.source[idx + 1..], c.pos + idx)
    ensures |NextRawStep(c).next.source| < |c.source|
    ensures NextRawStep(c).record.Some? <==> !Empty(Substr(c.source, c.pos, idx + 1))
    ensures NextRawStep(c).record.Some? ==> NextRawStep(c).record.value == Substr(c.source, c.pos, idx + 1)
  {
    FirstTerminatorIsStrPos(c.source, idx);
  }

  /** The first terminator is the one strpos finds. */
  lemma FirstTerminatorIsStrPos(s: string, idx: nat)
    requires FirstTerminator(s, idx)
    ensures StrPos(s, RT) == Some(idx)
  {
  }

  /** `c` reads a suffix of `input`, with a position that has not passed the
      number of bytes cut off in front of it. */
  predicate SuffixOf(input: string, c: Cursor)
  {
    && |c.source| <= |input|
    && c.source == input[|input| - |c.source|..]
    && 0 <= c.pos <= |input| - |c.source|
  }

  /** nextRaw keeps the cursor a suffix of the input: the source loses
      `idx + 1` bytes while the position gains only `idx`. */
  lemma StepKeepsSuffix(input: string, c: Cursor)
    requires SuffixOf(input, c)
    ensures SuffixOf(input, NextRawStep(c).next)
  {
    match StrPos(c.source, RT)
    case None =>
    case Some(idx) =>
      StepAtTerminator(c, idx);
      var cut := |input| - |c.source|;
      assert input[cut + idx + 1..] == c.source[idx + 1..];
  }

  /** The position never goes back, and a call that returns a record has
      consumed part of the source. */
  lemma StepMonotone(c: Cursor)
    requires c.pos >= 0
    ensures NextRawStep(c).next.pos >= c.pos
    ensures NextRawStep(c).record.Some? ==> |NextRawStep(c).next.source| < |c.source|
    ensures NextRawStep(c).record.None? ==> NextRawStep(c).next == c || |NextRawStep(c).next.source| < |c.source|
  {
  }

  /** On the first call (position 0) the value is exactly the source up to
      and including its first terminator, so it ends with the terminator. */
  lemma {:induction false} FirstCallWholeRecord(source: string, idx: nat)
    requires FirstTerminator(source, idx)
    ensures NextRawStep(Cursor(source, 0)).record == Some(source[..idx + 1])
    ensures source[..idx + 1][idx] == RT
  {
    StepAtTerminator(Cursor(source, 0), idx);
    assert Substr(source, 0, idx + 1) == source[..idx + 1];
    assert source[..idx + 1][idx] == RT;
  }

  /** The records a `while ($raw = $reader->nextRaw())` loop collects: it
      stops at the first call that returns false. */
  function Drain(c: Cursor): seq<string>
    requires c.pos >= 0
    decreases |c.source|
  {
    var step := NextRawStep(c);
    match step.record
    case None => []
    case Some(record) =>
      StepMonotone(c);
      [record] + Drain(step.next)
  }

  /** Where that loop leaves the reader: the state after the call that
      returned false. The position never goes back and the source never
      grows. */
  function DrainEnd(c: Cursor): (r: Cursor)
    requires c.pos >= 0
    ensures r.pos >= c.pos && |r.source| <= |c.source|
    decreases |c.source|
  {
    var step := NextRawStep(c);
    StepMonotone(c);
    match step.record
    case None => step.next
    case Some(_) => DrainEnd(step.next)
  }

  /** DrainEnd takes one step at a time. */
  lemma DrainEndStep(c: Cursor)
    requires c.pos >= 0
    ensures NextRawStep(c).record.None? ==> DrainEnd(c) == NextRawStep(c).next
    ensures NextRawStep(c).record.Some? ==> NextRawStep(c).next.pos >= 0 && DrainEnd(c) == DrainEnd(NextRawStep(c).next)
  {
  }

  /** Drain takes one step at a time. */
  lemma DrainStep(c: Cursor)
    requires c.pos >= 0
    ensures NextRawStep(c).record.None? ==> Drain(c) == []
    ensures NextRawStep(c).record.Some? ==>
              NextRawStep(c).next.pos >= 0 &&
              Drain(c) == [NextRawStep(c).record.value] + Drain(NextRawStep(c).next)
  {
  }

  /** Two calls that return records followed by one that returns false. */
  lemma DrainTwo(c1: Cursor, c2: Cursor, c3: Cursor, r1: string, r2: string)
    requires c1.pos >= 0 && c2.pos >= 0 && c3.pos >= 0
    requires NextRawStep(c1) == Step(Some(r1), c2)
    requires NextRawStep(c2) == Step(Some(r2), c3)
    requires NextRawStep(c3).record.None?
    ensures Drain(c1) == [r1, r2]
  {
    DrainStep(c1);
    DrainStep(c2);
    DrainStep(c3);
  }

  /** A source holding the same record twice gives back the whole record and
      then only its terminator: the second call reads at the first record's
      length minus one in a source that already starts at the second record.
      */
  lemma {:induction false} DoubledRecord(body: string)
    requires RT !in body
    ensures Drain(Cursor(body + [RT] + body + [RT], 0)) == [body + [RT], [RT]]
  {
    var n := |body|;
    DoubledRecordFirst(body);
    DoubledRecordSecond(body);
    NoTerminatorNoChange(Cursor("", n + n));
    DrainTwo(Cursor(body + [RT] + body + [RT], 0), Cursor(body + [RT], n), Cursor("", n + n), body + [RT], [RT]);
  }

  /** The first call DoubledRecord makes: the whole first copy. */
  lemma DoubledRecordFirst(body: string)
    requires RT !in body
    ensures NextRawStep(Cursor(body + [RT] + body + [RT], 0)) == Step(Some(body + [RT]), Cursor(body + [RT], |body|))
  {
    var record := body + [RT];
    var n := |body|;
    var source := body + [RT] + body + [RT];
    assert source[..n] == body && source[..n + 1] == record && source[n + 1..] == record;
    FirstCallWholeRecord(source, n);
    StepAtTerminator(Cursor(source, 0), n);
  }

  /** The second call: `pos` is the length of the body, so only the
      terminator of the second copy is read. */
  lemma DoubledRecordSecond(body: string)
    requires RT !in body
    ensures NextRawStep(Cursor(body + [RT], |body|)) == Step(Some([RT]), Cursor("", |body| + |body|))
  {
    var record := body + [RT];
    var n := |body|;
    assert record[..n] == body;
    StepAtTerminator(Cursor(record, n), n);
    assert Substr(record, n, n + 1) == [RT];
    assert record[n + 1..] == "";
  }

  /** From the second call on, the value need not be a record: it can start
      inside one and run past its terminator. */
  lemma MisalignedSecondRecord()
    ensures Drain(Cursor("a\U{1D}bc\U{1D}d", 0)) == ["a\U{1D}", "c\U{1D}d"]
  {
    OneByteRecordFirst("bc\U{1D}d");
    assert "a\U{1D}" + "bc\U{1D}d" == "a\U{1D}bc\U{1D}d";
    MisalignedSecondStep();
    NoTerminatorNoChange(Cursor("d", 3));
    DrainTwo(Cursor("a\U{1D}bc\U{1D}d", 0), Cursor("bc\U{1D}d", 1), Cursor("d", 3), "a\U{1D}", "c\U{1D}d");
  }

  /** The first call on a source that starts with the one-byte record `a␝`:
      whatever follows, it returns that record and leaves the rest at
      position 1. */
  lemma OneByteRecordFirst(rest: string)
    ensures NextRawStep(Cursor("a\U{1D}" + rest, 0)) == Step(Some("a\U{1D}"), Cursor(rest, 1))
  {
    var source := "a\U{1D}" + rest;
    assert source[..1] == "a";
    StepAtTerminator(Cursor(source, 0), 1);
    assert Substr(source, 0, 2) == "a\U{1D}";
    assert source[2..] == rest;
  }

  lemma MisalignedSecondStep()
    ensures NextRawStep(Cursor("bc\U{1D}d", 1)) == Step(Some("c\U{1D}d"), Cursor("d", 3))
  {
    var rest := "bc\U{1D}d";
    assert rest[..2] == "bc";
    StepAtTerminator(Cursor(rest, 1), 2);
    assert Substr(rest, 1, 3) == "c\U{1D}d";
    assert rest[3..] == "d";
  }

  /** PHP's `empty()` also holds for "0": on `a␝␝0` the second call reads the
      one byte "0" at position 1 of the cut source `␝0`, so the loop ends
      after the first record although a terminator was consumed. */
  lemma ZeroSliceEndsLoop()
    ensures Drain(Cursor("a\U{1D}\U{1D}0", 0)) == ["a\U{1D}"]
    ensures DrainEnd(Cursor("a\U{1D}\U{1D}0", 0)) == Cursor("0", 1)
  {
    OneByteRecordFirst("\U{1D}0");
    assert "a\U{1D}" + "\U{1D}0" == "a\U{1D}\U{1D}0";
    ZeroSliceSecondStep();
    DrainStep(Cursor("a\U{1D}\U{1D}0", 0));
    DrainStep(Cursor("\U{1D}0", 1));
    DrainEndStep(Cursor("a\U{1D}\U{1D}0", 0));
    DrainEndStep(Cursor("\U{1D}0", 1));
  }

  lemma ZeroSliceSecondStep()
    ensures NextRawStep(Cursor("\U{1D}0", 1)) == Step(None, Cursor("0", 1))
  {
    var rest := "\U{1D}0";
    assert rest[..0] == "";
    StepAtTerminator(Cursor(rest, 1), 0);
    assert Substr(rest, 1, 1) == "0";
    assert rest[1..] == "0";
  }

  /** The reader. Only the string-source mode is modelled: `source` is the
      not yet consumed rest of the input, `pos` the read position, `sourceType` the
      source type (`$type`; `type` is a Dafny keyword). `original` is the input the reader was opened on. */
  class MarcReader {
    var source: string
    var pos: int
    var sourceType: int
    ghost var original: string

    /** A string reader's source is always a suffix of the input, and its
        position never passes the number of bytes already cut off. */
    ghost predicate Valid()
      reads this
    {
      sourceType == SOURCE_STRING && SuffixOf(original, Current())
    }

    function Current(): Cursor
      reads this
    {
      Cursor(source, pos)
    }

    /** The SOURCE_STRING branch of the constructor: the source as given and
        a position of 0. */
    constructor FromString(input: string)
      ensures Valid()
      ensures source == input && pos == 0 && sourceType == SOURCE_STRING && original == input
    {
      source := input;
      pos := 0;
      sourceType := SOURCE_STRING;
      original := input;
    }

    /** `new MarcReader($source, $type)` for a type other than a file: a
        fresh string reader for SOURCE_STRING, InvalidArgumentException for
        anything else. */
    static method Open(input: string, kind: int) returns (r: Result<MarcReader>)
      requires kind != SOURCE_FILE
      ensures r.Err? <==> SourceKindOf(kind).Err?
      ensures r.Err? ==> r.error == InvalidArgumentException
      ensures r.Ok? ==> fresh(r.value) && r.value.Valid() && r.value.Current() == Cursor(input, 0)
      ensures r.Ok? ==> r.value.original == input && r.value.sourceType == SOURCE_STRING
    {
      var checked := SourceKindOf(kind);
      if checked.Err? {
        return Err(checked.error);
      }
      var reader := new MarcReader.FromString(input);
      return Ok(reader);
    }

    /** nextRaw in SOURCE_STRING mode: the value and the new state are those
        of one NextRawStep, and the reader stays valid. */
    method NextRaw() returns (r: Option<string>)
      requires Valid()
      modifies this
      ensures Valid()
      ensures Step(r, Current()) == NextRawStep(old(Current()))
      ensures sourceType == old(sourceType) && original == old(original)
    {
      ghost var before := Current();
      StepKeepsSuffix(original, before);
      var length := StrPos(source, RT);
      if length.None? {
        return None;
      }
      var idx := length.value;
      StepFound(before, idx);
      var record := Substr(source, pos, idx + 1);
      source := SubstrFrom(source, idx + 1);
      pos := pos + idx;
      if Empty(record) {
        return None;
      }
      return Some(record);
    }
  }

  /** One call of ReadAll's loop: a false return ends the list, a record is
      appended and the rest is read from a strictly shorter source. */
  lemma ReadStep(records: seq<string>, before: Cursor, raw: Option<string>, after: Cursor)
    requires before.pos >= 0 && Step(raw, after) == NextRawStep(before)
    ensures after.pos >= 0
    ensures raw.None? ==> records + Drain(before) == records
    ensures raw.Some? ==> |after.source| < |before.source|
    ensures raw.Some? ==> records + Drain(before) == (records + [raw.value]) + Drain(after)
  {
    DrainStep(before);
    StepMonotone(before);
    if raw.None? {
      assert records + [] == records;
    }
  }

  /** The loop `while ($raw = $reader->nextRaw()) { ... }`: it ends, and it
      collects exactly the records Drain lists. */
  method ReadAll(reader: MarcReader) returns (records: seq<string>)
    requires reader.Valid()
    modifies reader
    ensures reader.Valid()
    ensures records == Drain(old(reader.Current()))
    ensures reader.Current() == DrainEnd(old(reader.Current()))
    ensures reader.original == old(reader.original) && reader.sourceType == old(reader.sourceType)
  {
    records := [];
    ghost var start := reader.Current();
    while true
      invariant reader.Valid()
      invariant records + Drain(reader.Current()) == Drain(start)
      invariant DrainEnd(reader.Current()) == DrainEnd(start)
      invariant reader.original == old(reader.original) && reader.sourceType == old(reader.sourceType)
      decreases |reader.source|
    {
      ghost var before := reader.Current();
      var raw := reader.NextRaw();
      ReadStep(records, before, raw, reader.Current());
      DrainEndStep(before);
      if raw.None? {
        return;
      }
      records := records + [raw.value];
    }
  }
}
