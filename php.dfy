/** The PHP 7 string built-ins that the decoder and the reader call (`substr`,
    `strpos`, `intval`, `explode`, `str_split`, `empty`), each on the inputs
    where the callers use it. */
module Php {
  import opened Wrappers

  function Min(a: int, b: int): int { if a <= b then a else b }

  /** `substr($s, $start, $len)` for a non-negative start and length: the at most
      `len` characters from `start` on, clamped to the end of `s`. Where PHP 7
      returns false (a start past the end) this is the empty string. */
  function Substr(s: string, start: nat, len: nat): string
  {
    if start >= |s| then "" else s[start .. Min(start + len, |s|)]
  }

  /** `substr($s, $start)`: everything from `start` on. */
  function SubstrFrom(s: string, start: nat): string
  {
    if start > |s| then "" else s[start..]
  }

  /** `strpos($s, $prefix) === 0`. */
  predicate StartsWith(s: string, prefix: string)
  {
    |prefix| <= |s| && s[..|prefix|] == prefix
  }

  /** `strpos($s, $c)` for a one-character needle: the index of the first
      occurrence of `c`, or false. */
  function StrPos(s: string, c: char): (r: Option<nat>)
    ensures r.None? <==> c !in s
    ensures r.Some? ==> r.value < |s| && s[r.value] == c && c !in s[..r.value]
    decreases |s|
  {
    if s == "" then None
    else if s[0] == c then Some(0)
    else
      assert s == [s[0]] + s[1..];
      match StrPos(s[1..], c)
      case None => None
      case Some(i) =>
        assert s[..i + 1] == [s[0]] + s[1..][..i];
        Some(i + 1)
  }

  /** PHP's `empty()` on a string: true for "" and for "0". */
  predicate Empty(s: string)
  {
    s == "" || s == "0"
  }

  /** Number of occurrences of `c` in `s` (`substr_count`). */
  function Count(s: string, c: char): nat
    decreases |s|
  {
    if s == "" then 0 else (if s[0] == c then 1 else 0) + Count(s[1..], c)
  }

  lemma {:induction false} CountAppend(a: string, b: string, c: char)
    ensures Count(a + b, c) == Count(a, c) + Count(b, c)
    decreases |a|
  {
    if a == "" {
      assert a + b == b;
    } else {
      assert (a + b)[1..] == a[1..] + b;
      CountAppend(a[1..], b, c);
    }
  }

  lemma {:induction false} CountAbsent(s: string, c: char)
    requires c !in s
    ensures Count(s, c) == 0
    decreases |s|
  {
    if s != "" {
      assert s[0] in s;
      assert forall x :: x in s[1..] ==> x in s;
      CountAbsent(s[1..], c);
    }
  }

  /** `implode($d, $parts)`. */
  function Join(parts: seq<string>, d: char): string
    decreases |parts|
  {
    if |parts| == 0 then ""
    else if |parts| == 1 then parts[0]
    else parts[0] + [d] + Join(parts[1..], d)
  }

  /** `explode($d, $s)` for a one-character delimiter: the pieces of `s` between
      the occurrences of `d`; one empty piece for the empty string. */
  function Explode(s: string, d: char): seq<string>
    decreases |s|
  {
    match StrPos(s, d)
    case None => [s]
    case Some(i) => [s[..i]] + Explode(s[i + 1..], d)
  }

  /** One piece more than there are delimiters, no piece holds one, and
      joining the pieces gives back the string. */
  lemma ExplodeParts(s: string, d: char)
    ensures |Explode(s, d)| == Count(s, d) + 1
    ensures forall k :: 0 <= k < |Explode(s, d)| ==> d !in Explode(s, d)[k]
    ensures Join(Explode(s, d), d) == s
  {
    ExplodeCount(s, d);
    ExplodePieces(s, d);
    JoinExplode(s, d);
  }

  /** Where strpos finds the delimiter, the piece before it is the first
      piece and the rest is exploded on. */
  lemma ExplodeSome(s: string, d: char, i: nat)
    requires StrPos(s, d) == Some(i)
    ensures d !in s[..i]
    ensures Explode(s, d) == [s[..i]] + Explode(s[i + 1..], d)
  {
  }

  /** A string is the part before index `i`, the character at `i` and the
      part after it. */
  lemma Around(s: string, i: nat)
    requires i < |s|
    ensures s[..i] + [s[i]] + s[i + 1..] == s
  {
    var t := s[..i] + [s[i]] + s[i + 1..];
    forall k | 0 <= k < |s| ensures t[k] == s[k] {
      if k > i {
        assert t[k] == s[i + 1..][k - i - 1];
      }
    }
  }

  lemma {:induction false} ExplodeCount(s: string, d: char)
    ensures |Explode(s, d)| == Count(s, d) + 1
    decreases |s|
  {
    match StrPos(s, d)
    case None =>
      CountAbsent(s, d);
    case Some(i) =>
      ExplodeSome(s, d, i);
      ExplodeCount(s[i + 1..], d);
      CountAppend(s[..i], s[i..], d);
      assert s[..i] + s[i..] == s;
      CountAbsent(s[..i], d);
      assert s[i..][1..] == s[i + 1..];
  }

  lemma {:induction false} ExplodePieces(s: string, d: char)
    ensures forall k :: 0 <= k < |Explode(s, d)| ==> d !in Explode(s, d)[k]
    decreases |s|
  {
    match StrPos(s, d)
    case None =>
    case Some(i) =>
      ExplodeSome(s, d, i);
      ExplodePieces(s[i + 1..], d);
      var r := Explode(s, d);
      assert r[1..] == Explode(s[i + 1..], d);
      assert forall k :: 1 <= k < |r| ==> r[k] == r[1..][k - 1];
  }

  lemma {:induction false} JoinExplode(s: string, d: char)
    ensures Join(Explode(s, d), d) == s
    decreases |s|
  {
    match StrPos(s, d)
    case None =>
    case Some(i) =>
      var rest := s[i + 1..];
      ExplodeSome(s, d, i);
      JoinExplode(rest, d);
      ExplodeCount(rest, d);
      var tail := Explode(rest, d);
      var r := [s[..i]] + tail;
      assert r[0] == s[..i] && r[1..] == tail && |r| > 1;
      assert Join(r, d) == s[..i] + [d] + Join(tail, d);
      Around(s, i);
  }

  /** The first occurrence of `c` is at `i` when `s[i]` is `c` and no
      earlier character is. */
  lemma {:induction false} StrPosAt(s: string, i: nat, c: char)
    requires i < |s| && s[i] == c && c !in s[..i]
    ensures StrPos(s, c) == Some(i)
    decreases i
  {
    if i > 0 {
      assert s[0] in s[..i];
      assert s[1..][..i - 1] == s[..i][1..];
      StrPosAt(s[1..], i - 1, c);
    }
  }

  /** Explode takes off the piece before the first delimiter. */
  lemma ExplodeCons(s: string, piece: string, rest: string, d: char)
    requires s == piece + [d] + rest && d !in piece
    ensures Explode(s, d) == [piece] + Explode(rest, d)
  {
    assert s == piece + ([d] + rest);
    assert s[..|piece|] == piece;
    StrPosAt(s, |piece|, d);
    assert s[|piece| + 1..] == rest;
  }

  /** Explode undoes Join when no part contains the delimiter. */
  lemma {:induction false} ExplodeJoin(parts: seq<string>, d: char)
    requires |parts| >= 1
    requires forall k :: 0 <= k < |parts| ==> d !in parts[k]
    ensures Explode(Join(parts, d), d) == parts
    decreases |parts|
  {
    if |parts| > 1 {
      var rest := Join(parts[1..], d);
      assert Join(parts, d) == parts[0] + [d] + rest;
      ExplodeCons(Join(parts, d), parts[0], rest, d);
      ExplodeJoin(parts[1..], d);
      assert parts == [parts[0]] + parts[1..];
    }
  }

  /** Concatenation of a list of strings. */
  function Concat(parts: seq<string>): string
    decreases |parts|
  {
    if parts == [] then "" else parts[0] + Concat(parts[1..])
  }

  /** Parts of `n` characters each concatenate to `n` characters per part. */
  lemma {:induction false} ConcatFixed(parts: seq<string>, n: nat)
    requires forall k :: 0 <= k < |parts| ==> |parts[k]| == n
    ensures |Concat(parts)| == n * |parts|
    decreases |parts|
  {
    if parts != [] {
      ConcatFixed(parts[1..], n);
      assert n * |parts| == n + n * (|parts| - 1);
    }
  }

  /** `str_split($s, $n)` (PHP before 8.2): consecutive `n`-character chunks, the
      last one possibly shorter; a single empty chunk for the empty string. */
  function StrSplit(s: string, n: nat): (r: seq<string>)
    requires n > 0
    ensures |r| >= 1 && Concat(r) == s
    ensures forall k :: 0 <= k < |r| - 1 ==> |r[k]| == n
    ensures 0 < |r[|r| - 1]| <= n || (s == "" && r == [""])
    decreases |s|
  {
    if |s| <= n then
      assert Concat([s]) == s + Concat([]);
      [s]
    else
      var rest := StrSplit(s[n..], n);
      assert ([s[..n]] + rest)[1..] == rest;
      assert s == s[..n] + s[n..];
      [s[..n]] + rest
  }

  /** A string whose length is a multiple of `n` splits into exactly
      `|s| / n` chunks of `n` characters each. */
  lemma {:induction false} StrSplitExact(s: string, n: nat, k: nat)
    requires n > 0 && k >= 1 && |s| == k * n
    ensures |StrSplit(s, n)| == k
    ensures forall j :: 0 <= j < k ==> |StrSplit(s, n)[j]| == n
    decreases k
  {
    if k > 1 {
      MulStep(k, n);
      var rest := s[n..];
      StrSplitExact(rest, n, k - 1);
      assert StrSplit(s, n) == [s[..n]] + StrSplit(rest, n);
    }
  }

  /** k chunks of n are one chunk more than k - 1 chunks. */
  lemma MulStep(k: nat, n: nat)
    requires k > 1
    ensures k * n == (k - 1) * n + n && (k - 1) * n >= n
  {
    assert (k - 1) * n == (k - 2) * n + n;
  }

  /** StrSplit undoes Concat on a non-empty list of full chunks. */
  lemma {:induction false} StrSplitConcat(parts: seq<string>, n: nat)
    requires n > 0 && |parts| >= 1
    requires forall k :: 0 <= k < |parts| ==> |parts[k]| == n
    ensures StrSplit(Concat(parts), n) == parts
    decreases |parts|
  {
    var s := Concat(parts);
    assert s == parts[0] + Concat(parts[1..]);
    if |parts| == 1 {
      assert Concat(parts[1..]) == "";
      assert s == parts[0];
    } else {
      StrSplitConcat(parts[1..], n);
      assert |Concat(parts[1..])| > 0 by {
        assert Concat(parts[1..]) == parts[1] + Concat(parts[2..]);
      }
      assert s[..n] == parts[0];
      assert s[n..] == Concat(parts[1..]);
      assert parts == [parts[0]] + parts[1..];
    }
  }

  predicate IsDigit(c: char)
  {
    '0' <= c <= '9'
  }

  predicate AllDigits(s: string)
  {
    forall i :: 0 <= i < |s| ==> IsDigit(s[i])
  }

  function Pow10(n: nat): (r: nat)
    ensures r >= 1
  {
    if n == 0 then 1 else 10 * Pow10(n - 1)
  }

  /** The value of a digit string (leading zeros allowed), read right to left;
      on other characters it is only ever applied through IntVal, which hands
      it digits alone. */
  function Decimal(s: string): int
    decreases |s|
  {
    if s == "" then 0 else Decimal(s[..|s| - 1]) * 10 + (s[|s| - 1] as int - '0' as int)
  }

  /** A string of n digits has a value below 10^n. */
  lemma {:induction false} DecimalBound(s: string)
    requires AllDigits(s)
    ensures 0 <= Decimal(s) < Pow10(|s|)
    decreases |s|
  {
    if s != "" {
      DecimalBound(s[..|s| - 1]);
    }
  }

  /** Runs of zeros are worth zero. */
  lemma DecimalZeros()
    ensures Decimal("0") == 0 && Decimal("00") == 0 && Decimal("000") == 0 && Decimal("0000") == 0
  {
    assert "00"[..1] == "0" && "000"[..2] == "00" && "0000"[..3] == "000";
  }

  /** The whitespace `intval` skips before a number. */
  predicate IsWhitespace(c: char)
  {
    c == ' ' || c == '\t' || c == '\n' || c == '\r' || c == '\U{0B}' || c == '\U{0C}'
  }

  /** `s` without its leading whitespace. */
  function SkipWhitespace(s: string): string
    decreases |s|
  {
    if s != "" && IsWhitespace(s[0]) then SkipWhitespace(s[1..]) else s
  }

  /** The longest prefix of `s` made of digits. */
  function LeadingDigits(s: string): string
    decreases |s|
  {
    if s != "" && IsDigit(s[0]) then [s[0]] + LeadingDigits(s[1..]) else ""
  }

  lemma {:induction false} LeadingDigitsOfDigits(s: string)
    requires AllDigits(s)
    ensures LeadingDigits(s) == s
    decreases |s|
  {
    if s != "" {
      LeadingDigitsOfDigits(s[1..]);
      assert s == [s[0]] + s[1..];
    }
  }

  /** `intval($s)` for a string: leading whitespace, an optional sign, then the
      longest run of digits; 0 when there are none. */
  function IntVal(s: string): int
  {
    var t := SkipWhitespace(s);
    if t != "" && t[0] == '-' then -Decimal(LeadingDigits(t[1..]))
    else if t != "" && t[0] == '+' then Decimal(LeadingDigits(t[1..]))
    else Decimal(LeadingDigits(t))
  }

  /** On a digit string intval is its decimal value. */
  lemma IntValOfDigits(s: string)
    requires AllDigits(s)
    ensures IntVal(s) == Decimal(s)
    ensures 0 <= IntVal(s) < Pow10(|s|)
  {
    assert SkipWhitespace(s) == s;
    LeadingDigitsOfDigits(s);
    DecimalBound(s);
  }
}
