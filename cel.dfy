/**
 * Position arithmetic and small CEL lookups (internal/lsp/cel.go).
 *
 * CEL reports node positions as rune offsets into the expression; the
 * editor speaks LSP 3.17 positions, whose character is counted in UTF-16
 * code units. The functions here convert between rune offsets, UTF-8 byte
 * offsets and (line, UTF-16 column) pairs.
 */
module Cel {
  import opened Text

  const RuneError := 0xFFFD
  const MaxRune := 0x10FFFF

  /** A code point `utf16.RuneLen` accepts: not a surrogate, at most U+10FFFF. */
  predicate IsScalar(r: int)
  {
    0 <= r <= MaxRune && !(0xD800 <= r < 0xE000)
  }

  predicate InByteRange(s: string, k: nat, lo: int, hi: int)
    requires k < |s|
  {
    lo <= s[k] as int <= hi
  }

  /** Length and accepted range of the second byte of a sequence led by byte `b0`; size 0 if `b0` cannot lead one. */
  function LeadByte(b0: int): (int, int, int)
  {
    if 0xC2 <= b0 <= 0xDF then (2, 0x80, 0xBF)
    else if b0 == 0xE0 then (3, 0xA0, 0xBF)
    else if b0 == 0xED then (3, 0x80, 0x9F)
    else if 0xE1 <= b0 <= 0xEF then (3, 0x80, 0xBF)
    else if b0 == 0xF0 then (4, 0x90, 0xBF)
    else if 0xF1 <= b0 <= 0xF3 then (4, 0x80, 0xBF)
    else if b0 == 0xF4 then (4, 0x80, 0x8F)
    else (0, 0, 0)
  }

  /**
   * The byte length `utf8.DecodeRuneInString(s[i:])` reports: the length of
   * a well-formed sequence at byte `i`, 1 for an invalid or truncated one.
   */
  function RuneSize(s: string, i: nat): (n: nat)
    requires i < |s|
    ensures 1 <= n <= 4 && i + n <= |s|
    ensures s[i] as int < 0x80 ==> n == 1
  {
    var b0 := s[i] as int;
    if b0 < 0x80 then 1
    else
      var (size, lo, hi) := LeadByte(b0);
      if size == 0 || |s| - i < size || !InByteRange(s, i + 1, lo, hi) then 1
      else if size == 2 then 2
      else if !InByteRange(s, i + 2, 0x80, 0xBF) then 1
      else if size == 3 then 3
      else if !InByteRange(s, i + 3, 0x80, 0xBF) then 1
      else 4
  }

  /**
   * `utf8.DecodeRuneInString(s[i:])`: the code point starting at byte `i`
   * and its length in bytes. An invalid or truncated sequence yields
   * U+FFFD with length 1.
   */
  function DecodeRune(s: string, i: nat): (d: (int, nat))
    requires i < |s|
    ensures d.1 == RuneSize(s, i)
    ensures IsScalar(d.0)
    ensures s[i] as int < 0x80 ==> d == (s[i] as int, 1)
    ensures d.1 == 1 ==> d.0 == s[i] as int || d.0 == RuneError
  {
    var b0 := s[i] as int;
    var size := RuneSize(s, i);
    if b0 < 0x80 then (b0, 1)
    else if size == 1 then (RuneError, 1)
    else if size == 2 then ((b0 - 0xC0) * 0x40 + (s[i + 1] as int - 0x80), 2)
    else if size == 3 then
      ((b0 - 0xE0) * 0x1000 + (s[i + 1] as int - 0x80) * 0x40 + (s[i + 2] as int - 0x80), 3)
    else
      ((b0 - 0xF0) * 0x40000 + (s[i + 1] as int - 0x80) * 0x1000
       + (s[i + 2] as int - 0x80) * 0x40 + (s[i + 3] as int - 0x80), 4)
  }

  /** `utf16.RuneLen`: UTF-16 code units of a code point, -1 if it has no encoding. */
  function Utf16RuneLen(r: int): int
  {
    if (0 <= r < 0xD800) || (0xE000 <= r < 0x10000) then 1
    else if 0x10000 <= r <= MaxRune then 2
    else -1
  }

  /** Decoded code points always have a UTF-16 length of 1 or 2. */
  lemma DecodedWidth(s: string, i: nat)
    requires i < |s|
    ensures var w := Utf16RuneLen(DecodeRune(s, i).0); w == 1 || w == 2
    ensures Utf16RuneLen(DecodeRune(s, i).0) == 2 <==> DecodeRune(s, i).1 == 4
  {
  }

  /**
   * `utf8.EncodeRune`, as `strings.Builder.WriteRune` uses it: the UTF-8
   * bytes of a code point. A value that is not a scalar is written as U+FFFD.
   */
  function EncodeRune(r: int): (w: string)
    ensures 1 <= |w| <= 4
    ensures 0 <= r < 0x80 ==> w == [r as char]
    ensures !(0 <= r < 0x80) ==> forall k :: 0 <= k < |w| ==> 0x80 <= w[k] as int < 0x100
  {
    if 0 <= r < 0x80 then [r as char]
    else if 0x80 <= r < 0x800 then [(0xC0 + r / 0x40) as char, (0x80 + r % 0x40) as char]
    else if !IsScalar(r) then ReplacementBytes
    else if r < 0x10000 then
      [(0xE0 + r / 0x1000) as char, (0x80 + r / 0x40 % 0x40) as char, (0x80 + r % 0x40) as char]
    else
      [(0xF0 + r / 0x40000) as char, (0x80 + r / 0x1000 % 0x40) as char,
       (0x80 + r / 0x40 % 0x40) as char, (0x80 + r % 0x40) as char]
  }

  /** The UTF-8 encoding of U+FFFD. */
  const ReplacementBytes: string := [0xEF as char, 0xBF as char, 0xBD as char]

  /** A byte at a rune start that begins no valid sequence: it decodes as U+FFFD with width 1. */
  predicate InvalidByte(s: string, i: nat)
    requires i < |s|
  {
    RuneSize(s, i) == 1 && s[i] as int >= 0x80
  }

  /** `(a * 64 + b) / 64` is `a` and the remainder `b`. */
  lemma DivMod64(a: int, b: int)
    requires 0 <= a && 0 <= b < 0x40
    ensures (a * 0x40 + b) / 0x40 == a && (a * 0x40 + b) % 0x40 == b
  {
  }

  /** A two-byte sequence is written back as itself. */
  lemma EncodeTwo(b0: int, b1: int)
    requires 0xC2 <= b0 <= 0xDF && 0x80 <= b1 <= 0xBF
    ensures EncodeRune((b0 - 0xC0) * 0x40 + (b1 - 0x80)) == [b0 as char, b1 as char]
  {
    DivMod64(b0 - 0xC0, b1 - 0x80);
  }

  /** A three-byte sequence, neither overlong nor a surrogate, is written back as itself. */
  lemma EncodeThree(b0: int, b1: int, b2: int)
    requires 0xE0 <= b0 <= 0xEF && 0x80 <= b1 <= 0xBF && 0x80 <= b2 <= 0xBF
    requires b0 == 0xE0 ==> b1 >= 0xA0
    requires b0 == 0xED ==> b1 <= 0x9F
    ensures EncodeRune((b0 - 0xE0) * 0x1000 + (b1 - 0x80) * 0x40 + (b2 - 0x80)) == [b0 as char, b1 as char, b2 as char]
  {
    var c0, c1, c2 := b0 - 0xE0, b1 - 0x80, b2 - 0x80;
    var r := (c0 * 0x40 + c1) * 0x40 + c2;
    assert r == c0 * 0x1000 + c1 * 0x40 + c2;
    DivMod64(c0 * 0x40 + c1, c2);
    DivMod64(c0, c1);
    assert r / 0x1000 == (r / 0x40) / 0x40;
  }

  /** A four-byte sequence, neither overlong nor past U+10FFFF, is written back as itself. */
  lemma EncodeFour(b0: int, b1: int, b2: int, b3: int)
    requires 0xF0 <= b0 <= 0xF4 && 0x80 <= b1 <= 0xBF && 0x80 <= b2 <= 0xBF && 0x80 <= b3 <= 0xBF
    requires b0 == 0xF0 ==> b1 >= 0x90
    requires b0 == 0xF4 ==> b1 <= 0x8F
    ensures EncodeRune((b0 - 0xF0) * 0x40000 + (b1 - 0x80) * 0x1000 + (b2 - 0x80) * 0x40 + (b3 - 0x80))
         == [b0 as char, b1 as char, b2 as char, b3 as char]
  {
    var c0, c1, c2, c3 := b0 - 0xF0, b1 - 0x80, b2 - 0x80, b3 - 0x80;
    var q := (c0 * 0x40 + c1) * 0x40 + c2;
    var r := q * 0x40 + c3;
    assert r == c0 * 0x40000 + c1 * 0x1000 + c2 * 0x40 + c3;
    DivMod64(q, c3);
    DivMod64(c0 * 0x40 + c1, c2);
    DivMod64(c0, c1);
    assert r / 0x1000 == (r / 0x40) / 0x40;
    assert r / 0x40000 == ((r / 0x40) / 0x40) / 0x40;
  }

  /** Writing back a validly decoded rune gives the bytes it was decoded from. */
  lemma EncodeDecoded(s: string, i: nat)
    requires i < |s| && !InvalidByte(s, i)
    ensures EncodeRune(DecodeRune(s, i).0) == s[i..i + RuneSize(s, i)]
  {
    var n := RuneSize(s, i);
    if n == 1 {
      assert s[i..i + 1] == [s[i]];
    } else if n == 2 {
      DecodedTwo(s, i);
    } else if n == 3 {
      DecodedThree(s, i);
    } else {
      DecodedFour(s, i);
    }
  }

  lemma DecodedTwo(s: string, i: nat)
    requires i < |s| && RuneSize(s, i) == 2
    ensures EncodeRune(DecodeRune(s, i).0) == s[i..i + 2]
  {
    EncodeTwo(s[i] as int, s[i + 1] as int);
    assert s[i..i + 2] == [s[i], s[i + 1]];
  }

  lemma DecodedThree(s: string, i: nat)
    requires i < |s| && RuneSize(s, i) == 3
    ensures EncodeRune(DecodeRune(s, i).0) == s[i..i + 3]
  {
    EncodeThree(s[i] as int, s[i + 1] as int, s[i + 2] as int);
    assert s[i..i + 3] == [s[i], s[i + 1], s[i + 2]];
  }

  lemma DecodedFour(s: string, i: nat)
    requires i < |s| && RuneSize(s, i) == 4
    ensures EncodeRune(DecodeRune(s, i).0) == s[i..i + 4]
  {
    EncodeFour(s[i] as int, s[i + 1] as int, s[i + 2] as int, s[i + 3] as int);
    assert s[i..i + 4] == [s[i], s[i + 1], s[i + 2], s[i + 3]];
  }

  /**
   * What a loop that ranges over the runes from byte `i` on and writes each
   * back with `WriteRune` produces: valid UTF-8 is copied, and each
   * invalid byte becomes U+FFFD.
   */
  function Reencode(s: string, i: nat): (w: string)
    requires i <= |s|
    decreases |s| - i
  {
    if i == |s| then ""
    else
      EncodeRune(DecodeRune(s, i).0) + Reencode(s, i + RuneSize(s, i))
  }

  /** The rune at byte `i` is written first, then the runes after it. */
  lemma ReencodeAt(s: string, i: nat)
    requires i < |s|
    ensures Reencode(s, i) == EncodeRune(DecodeRune(s, i).0) + Reencode(s, i + RuneSize(s, i))
  {
  }

  /** The text from byte `i` on is valid UTF-8: no rune start holds an invalid byte. */
  predicate ValidFrom(s: string, i: nat)
    requires i <= |s|
    decreases |s| - i
  {
    i == |s| || (!InvalidByte(s, i) && ValidFrom(s, i + RuneSize(s, i)))
  }

  /** Re-encoding valid UTF-8 gives it back unchanged. */
  lemma {:induction false} ReencodeValid(s: string, i: nat)
    requires i <= |s| && ValidFrom(s, i)
    ensures Reencode(s, i) == s[i..]
    decreases |s| - i
  {
    if i < |s| {
      var n := RuneSize(s, i);
      ReencodeValid(s, i + n);
      ValidRuneCopied(s, i);
      SplitAt(s, i, n, Reencode(s, i));
    }
  }

  /** A text equal to the bytes `i..i+n` followed by those after them is the text from `i` on. */
  lemma SplitAt(s: string, i: nat, n: nat, x: string)
    requires i + n <= |s| && x == s[i..i + n] + s[i + n..]
    ensures x == s[i..]
  {
  }

  /** ASCII text is valid UTF-8, so re-encoding leaves it as it is. */
  lemma {:induction false} AsciiValid(s: string, i: nat)
    requires i <= |s| && IsAscii(s[i..])
    ensures ValidFrom(s, i)
    decreases |s| - i
  {
    if i < |s| {
      assert s[i] == s[i..][0];
      var rest, all := s[i + 1..], s[i..];
      assert IsAscii(rest) by {
        forall k | 0 <= k < |rest| ensures rest[k] as int < 0x80 {
          assert rest[k] == all[k + 1];
        }
      }
      AsciiValid(s, i + 1);
    }
  }

  /** A valid rune at byte `i` is written back as its own bytes. */
  lemma ValidRuneCopied(s: string, i: nat)
    requires i < |s| && !InvalidByte(s, i)
    ensures Reencode(s, i) == s[i..i + RuneSize(s, i)] + Reencode(s, i + RuneSize(s, i))
  {
    ReencodeAt(s, i);
    EncodeDecoded(s, i);
  }

  /** UTF-16 code units of the runes decoded from byte `i` on. */
  function Utf16LenFrom(s: string, i: nat): (n: nat)
    requires i <= |s|
    ensures n <= |s| - i
    decreases |s| - i
  {
    if i == |s| then 0
    else
      var (r, size) := DecodeRune(s, i);
      DecodedWidth(s, i);
      Utf16RuneLen(r) + Utf16LenFrom(s, i + size)
  }

  /** The UTF-16 code units of a text: the length LSP 3.17 counts in. */
  function Utf16Len(s: string): nat
  {
    Utf16LenFrom(s, 0)
  }

  lemma {:induction false} Utf16LenFromAscii(s: string, i: nat)
    requires i <= |s| && IsAscii(s)
    ensures Utf16LenFrom(s, i) == |s| - i
    decreases |s| - i
  {
    if i < |s| {
      Utf16LenFromAscii(s, i + 1);
    }
  }

  /** On ASCII text the length is the byte count. */
  lemma Utf16LenAscii(s: string)
    requires IsAscii(s)
    ensures Utf16Len(s) == |s|
  {
    Utf16LenFromAscii(s, 0);
  }

  /* ---------------- byte offset to (line, UTF-16 column) ---------------- */

  /** The scan of `byteOffsetToLineCol`, continued from byte `i` with counters `line`, `col`. */
  function LineColFrom(text: string, offset: int, i: nat, line: nat, col: nat): (nat, nat)
    requires i <= |text|
    decreases |text| - i
  {
    if i < offset && i < |text| then
      var (next, line', col') := LineColStep(text, i, line, col);
      LineColFrom(text, offset, next, line', col')
    else (line, col)
  }

  /** One rune of the scan: a newline starts the next line, any other rune widens the column. */
  function LineColStep(text: string, i: nat, line: nat, col: nat): (a: (nat, nat, nat))
    requires i < |text|
    ensures i < a.0 <= |text|
  {
    var (r, size) := DecodeRune(text, i);
    if r == '\n' as int then (i + size, line + 1, 0)
    else (i + size, line, col + Utf16RuneLen(r))
  }

  /** 0-based line and UTF-16 column of byte `offset` in `text`. */
  function LineCol(text: string, offset: int): (nat, nat)
  {
    LineColFrom(text, offset, 0, 0, 0)
  }

  /** `byteOffsetToLineCol`. */
  method ByteOffsetToLineCol(text: string, offset: int) returns (line: nat, col: nat)
    ensures (line, col) == LineCol(text, offset)
  {
    var i: nat := 0;
    line, col := 0, 0;
    while i < offset && i < |text|
      invariant i <= |text|
      invariant LineColFrom(text, offset, i, line, col) == LineCol(text, offset)
      decreases |text| - i
    {
      var (r, size) := DecodeRune(text, i);
      if r == '\n' as int {
        line := line + 1;
        col := 0;
      } else {
        col := col + Utf16RuneLen(r);
      }
      i := i + size;
    }
  }

  lemma {:induction false} LineColFromClamped(text: string, offset: int, i: nat, line: nat, col: nat)
    requires i <= |text| <= offset
    ensures LineColFrom(text, offset, i, line, col) == LineColFrom(text, |text|, i, line, col)
    decreases |text| - i
  {
    if i < |text| {
      var (next, line', col') := LineColStep(text, i, line, col);
      LineColFromClamped(text, offset, next, line', col');
    }
  }

  /** Offsets at or before the start map to (0, 0); offsets at or past the end map to the end. */
  lemma LineColClamps(text: string, offset: int)
    ensures offset <= 0 ==> LineCol(text, offset) == (0, 0)
    ensures offset >= |text| ==> LineCol(text, offset) == LineCol(text, |text|)
  {
    if offset >= |text| {
      LineColFromClamped(text, offset, 0, 0, 0);
    }
  }

  /** Number of bytes after the last newline of `s` (all of `s` when it has none). */
  function ColumnAfterLastNewline(s: string): nat
  {
    |s| - (LastIndexOf(s, '\n') + 1)
  }

  predicate IsAscii(s: string)
  {
    forall k :: 0 <= k < |s| ==> s[k] as int < 0x80
  }

  lemma {:induction false} LineColFromAscii(text: string, offset: int, i: nat)
    requires IsAscii(text) && i <= offset <= |text|
    ensures LineColFrom(text, offset, i, Count(text[..i], '\n'), ColumnAfterLastNewline(text[..i]))
         == (Count(text[..offset], '\n'), ColumnAfterLastNewline(text[..offset]))
    decreases |text| - i
  {
    if i < offset {
      assert text[..i + 1][..i] == text[..i];
      assert DecodeRune(text, i) == (text[i] as int, 1);
      LineColFromAscii(text, offset, i + 1);
    }
  }

  /**
   * On ASCII text the line is the number of newlines before the offset and
   * the column the number of bytes since the last newline.
   */
  lemma LineColAscii(text: string, offset: nat)
    requires IsAscii(text) && offset <= |text|
    ensures LineCol(text, offset) == (Count(text[..offset], '\n'), ColumnAfterLastNewline(text[..offset]))
  {
    LineColFromAscii(text, offset, 0);
  }

  /* ---------------- byte offset to (line, UTF-16 column), any text ---------------- */

  /**
   * Where the scan of `byteOffsetToLineCol` continued from byte `i` stops:
   * the first rune start at or past `offset`, or the end of the text. An
   * offset inside a multi-byte rune is moved to the end of that rune.
   */
  function ScanStop(text: string, offset: int, i: nat): (e: nat)
    requires i <= |text|
    ensures i <= e <= |text|
    ensures e == |text| || e >= offset
    ensures i < offset ==> e < offset + 4
    ensures i >= offset ==> e == i
    decreases |text| - i
  {
    if i < offset && i < |text| then ScanStop(text, offset, i + RuneSize(text, i)) else i
  }

  /** No newline byte in `text[i..j]`. */
  predicate NoNewline(text: string, i: nat, j: nat)
    requires i <= j <= |text|
  {
    forall k :: i <= k < j ==> text[k] != '\n'
  }

  /** Only the first byte of a rune can be ASCII: every later byte is a continuation byte. */
  lemma ContinuationBytes(s: string, i: nat)
    requires i < |s|
    ensures forall m :: i < m < i + RuneSize(s, i) ==> s[m] as int >= 0x80
  {
  }

  /** A decoded rune is a newline exactly when its first byte is one; it is then one byte long. */
  lemma NewlineRune(s: string, i: nat)
    requires i < |s|
    ensures DecodeRune(s, i).0 == '\n' as int <==> s[i] == '\n'
    ensures s[i] == '\n' ==> RuneSize(s, i) == 1
  {
  }

  /** A rune that ends within a prefix of the text decodes the same in that prefix. */
  lemma DecodeInPrefix(s: string, i: nat, e: nat)
    requires i < e <= |s| && i + RuneSize(s, i) <= e
    ensures RuneSize(s[..e], i) == RuneSize(s, i)
    ensures DecodeRune(s[..e], i) == DecodeRune(s, i)
  {
    var t := s[..e];
    assert forall k :: 0 <= k < e ==> t[k] == s[k];
  }

  /** Counting a character up to `j` when none lies in `s[i..j]`. */
  lemma {:induction false} CountUnchanged(s: string, c: char, i: nat, j: nat)
    requires i <= j <= |s|
    requires forall k :: i <= k < j ==> s[k] != c
    ensures Count(s[..j], c) == Count(s[..i], c)
    decreases j - i
  {
    if i < j {
      assert s[..j][..j - 1] == s[..j - 1];
      CountUnchanged(s, c, i, j - 1);
    }
  }

  /** One more byte counts once more exactly when it is the character. */
  lemma CountNext(s: string, c: char, i: nat)
    requires i < |s|
    ensures Count(s[..i + 1], c) == Count(s[..i], c) + (if s[i] == c then 1 else 0)
  {
    assert s[..i + 1][..i] == s[..i];
  }

  /**
   * What the scan from byte `i` with counters `line` and `col` gives when
   * it stops at `e`: without a newline in `text[i..e]` the column grows by
   * the UTF-16 length of `text[i..e]`; otherwise the line grows by the
   * number of newlines and the column restarts after the last one.
   */
  function ScanResult(text: string, i: nat, e: nat, line: nat, col: nat): (int, int)
    requires i <= e <= |text|
  {
    if NoNewline(text, i, e) then (line, col + Utf16LenFrom(text[..e], i))
    else (line + Count(text[..e], '\n') - Count(text[..i], '\n'),
          Utf16LenFrom(text[..e], LastIndexOf(text[..e], '\n') + 1))
  }

  /** A newline byte at `i` moves the scan to the next line, at column 0. */
  lemma NewlineStep(text: string, i: nat, e: nat, line: nat, col: nat)
    requires i < e <= |text| && text[i] == '\n'
    ensures ScanResult(text, i + 1, e, line + 1, 0) == ScanResult(text, i, e, line, col)
  {
    CountNext(text, '\n', i);
    if NoNewline(text, i + 1, e) {
      CountUnchanged(text, '\n', i + 1, e);
      assert text[..e][i] == '\n';
      assert LastIndexOf(text[..e], '\n') == i;
    }
  }

  /** Any other rune at `i` that ends by `e` adds its UTF-16 length to the column. */
  lemma RuneStep(text: string, i: nat, e: nat, line: nat, col: nat)
    requires i < e <= |text| && text[i] != '\n' && i + RuneSize(text, i) <= e
    ensures ScanResult(text, i + RuneSize(text, i), e, line, col + Utf16RuneLen(DecodeRune(text, i).0))
         == ScanResult(text, i, e, line, col)
  {
    var next := i + RuneSize(text, i);
    ContinuationBytes(text, i);
    CountUnchanged(text, '\n', i, next);
    DecodeInPrefix(text, i, e);
    assert NoNewline(text, next, e) ==> NoNewline(text, i, e);
  }

  /** The scan from a rune start `i` computes `ScanResult` up to where it stops. */
  lemma {:induction false} LineColFromAll(text: string, offset: int, i: nat, line: nat, col: nat)
    requires i <= |text|
    ensures LineColFrom(text, offset, i, line, col) == ScanResult(text, i, ScanStop(text, offset, i), line, col)
    decreases |text| - i
  {
    if i < offset && i < |text| {
      var (next, line', col') := LineColStep(text, i, line, col);
      LineColFromAll(text, offset, next, line', col');
      ScanAdvance(text, offset, i, line, col);
    }
  }

  /** One step of the scan: if `ScanResult` holds from the next rune on, it holds from `i`. */
  lemma ScanAdvance(text: string, offset: int, i: nat, line: nat, col: nat)
    requires i < offset && i < |text|
    requires var (next, line', col') := LineColStep(text, i, line, col);
      LineColFrom(text, offset, next, line', col') == ScanResult(text, next, ScanStop(text, offset, next), line', col')
    ensures LineColFrom(text, offset, i, line, col) == ScanResult(text, i, ScanStop(text, offset, i), line, col)
  {
    StepResult(text, offset, i, line, col);
  }

  /** What `LineColStep` gives at a newline byte and at any other rune. */
  lemma LineColStepValue(text: string, i: nat, line: nat, col: nat)
    requires i < |text|
    ensures text[i] == '\n' ==> LineColStep(text, i, line, col) == (i + 1, line + 1, 0)
    ensures text[i] != '\n' ==>
      LineColStep(text, i, line, col) == (i + RuneSize(text, i), line, col + Utf16RuneLen(DecodeRune(text, i).0))
  {
    NewlineRune(text, i);
  }

  /** `ScanResult` up to the same stop, before and after one `LineColStep`. */
  lemma StepResult(text: string, offset: int, i: nat, line: nat, col: nat)
    requires i < offset && i < |text|
    ensures var (next, line', col') := LineColStep(text, i, line, col);
      var e := ScanStop(text, offset, i);
      ScanStop(text, offset, next) == e && ScanResult(text, next, e, line', col') == ScanResult(text, i, e, line, col)
  {
    var e := ScanStop(text, offset, i);
    LineColStepValue(text, i, line, col);
    NewlineRune(text, i);
    if text[i] == '\n' {
      NewlineStep(text, i, e, line, col);
    } else {
      RuneStep(text, i, e, line, col);
    }
  }

  /**
   * On any text, byte `offset` is on the line given by the number of
   * newlines before `e`, at the column given by the UTF-16 length of the
   * runes of `text[..e]` after the last of them, where `e` is the offset
   * clamped to the text and moved to the end of the rune it falls inside.
   */
  lemma LineColAnyText(text: string, offset: int)
    ensures var e := ScanStop(text, offset, 0);
      LineCol(text, offset)
      == (Count(text[..e], '\n'), Utf16LenFrom(text[..e], LastIndexOf(text[..e], '\n') + 1))
  {
    LineColFromAll(text, offset, 0, 0, 0);
    ScanFromStart(text, ScanStop(text, offset, 0));
  }

  /** Without a newline before `e` there is no last newline. */
  lemma NoLastNewline(text: string, e: nat)
    requires e <= |text| && NoNewline(text, 0, e)
    ensures LastIndexOf(text[..e], '\n') == -1
  {
  }

  /** From the start of the text, `ScanResult` is the newline count and the UTF-16 length after the last newline. */
  lemma ScanFromStart(text: string, e: nat)
    requires e <= |text|
    ensures ScanResult(text, 0, e, 0, 0)
         == (Count(text[..e], '\n'), Utf16LenFrom(text[..e], LastIndexOf(text[..e], '\n') + 1))
  {
    var l := LastIndexOf(text[..e], '\n');
    if NoNewline(text, 0, e) {
      NoLastNewline(text, e);
      CountUnchanged(text, '\n', 0, e);
      assert text[..e] == text[0..e];
    } else {
      assert text[..0] == [];
    }
  }

  /** On ASCII text every byte is a code point. */
  lemma {:induction false} RuneCountAscii(s: string)
    requires IsAscii(s)
    ensures RuneCount(s) == |s|
  {
    RuneCountFromAscii(s, 0);
  }

  lemma {:induction false} RuneCountFromAscii(s: string, i: nat)
    requires IsAscii(s) && i <= |s|
    ensures RuneCountFrom(s, i) == |s| - i
    decreases |s| - i
  {
    if i < |s| {
      RuneCountFromAscii(s, i + 1);
    }
  }

  /** On one line of ASCII text the position of a byte is line 0, column the offset. */
  lemma SingleLineAscii(text: string, offset: nat)
    requires IsAscii(text) && '\n' !in text && offset <= |text|
    ensures LineCol(text, offset) == (0, offset)
  {
    LineColAscii(text, offset);
    assert '\n' !in text[..offset];
    CountAbsent(text[..offset], '\n');
  }

  /** A code point outside the Basic Multilingual Plane occupies two UTF-16 columns. */
  lemma EmojiTakesTwoColumns()
    ensures LineCol("x + \"\U{F0}\U{9F}\U{8E}\U{89}\" + x", 13) == (0, 11)
    ensures LineCol("x + \"\U{F0}\U{9F}\U{8E}\U{89}\" + x", 14) == (0, 12)
  {
    var t := "x + \"\U{F0}\U{9F}\U{8E}\U{89}\" + x";
    assert LineColFrom(t, 13, 11, 0, 9) == (0, 11);
    assert LineColFrom(t, 13, 9, 0, 7) == (0, 11);
    assert LineColFrom(t, 14, 9, 0, 7) == (0, 12);
    assert DecodeRune(t, 5) == (0x1F389, 4);
  }

  /* ---------------- rune offset to byte offset ---------------- */

  /** The scan of `celRuneOffsetToByteOffset`, continued from byte `byteIdx`, rune `runeIdx`. */
  function RuneToByteFrom(s: string, runeOffset: int, byteIdx: nat, runeIdx: int): (b: nat)
    requires byteIdx <= |s|
    ensures byteIdx <= b <= |s|
    decreases |s| - byteIdx
  {
    if runeIdx < runeOffset && byteIdx < |s| then
      RuneToByteFrom(s, runeOffset, byteIdx + RuneSize(s, byteIdx), runeIdx + 1)
    else byteIdx
  }

  /** UTF-8 byte offset of the rune at `runeOffset`, clamped to the text. */
  function RuneToByte(s: string, runeOffset: int): (b: nat)
    ensures b <= |s|
  {
    RuneToByteFrom(s, runeOffset, 0, 0)
  }

  /** `celRuneOffsetToByteOffset`. */
  method RuneOffsetToByteOffset(s: string, runeOffset: int) returns (byteIdx: nat)
    ensures byteIdx == RuneToByte(s, runeOffset)
  {
    byteIdx := 0;
    var runeIdx := 0;
    while runeIdx < runeOffset && byteIdx < |s|
      invariant byteIdx <= |s|
      invariant RuneToByteFrom(s, runeOffset, byteIdx, runeIdx) == RuneToByte(s, runeOffset)
      decreases |s| - byteIdx
    {
      var (_, size) := DecodeRune(s, byteIdx);
      byteIdx := byteIdx + size;
      runeIdx := runeIdx + 1;
    }
  }

  /** Number of code points UTF-8 decoding finds from byte `i` on. */
  function RuneCountFrom(s: string, i: nat): (n: nat)
    requires i <= |s|
    ensures n <= |s| - i
    decreases |s| - i
  {
    if i < |s| then 1 + RuneCountFrom(s, i + RuneSize(s, i)) else 0
  }

  /** `utf8.RuneCountInString`. */
  function RuneCount(s: string): nat
  {
    RuneCountFrom(s, 0)
  }

  lemma {:induction false} RuneToByteFromCount(s: string, runeOffset: int, byteIdx: nat, runeIdx: int)
    requires byteIdx <= |s| && runeIdx <= runeOffset <= runeIdx + RuneCountFrom(s, byteIdx)
    ensures RuneCountFrom(s, RuneToByteFrom(s, runeOffset, byteIdx, runeIdx))
         == RuneCountFrom(s, byteIdx) - (runeOffset - runeIdx)
    decreases |s| - byteIdx
  {
    if runeIdx < runeOffset && byteIdx < |s| {
      var next := byteIdx + RuneSize(s, byteIdx);
      RuneToByteFromCount(s, runeOffset, next, runeIdx + 1);
      RuneToByteFromCountStep(s, runeOffset, byteIdx, runeIdx, next);
    }
  }

  /** One rune of the scan: the count from the next rune on is one less. */
  lemma RuneToByteFromCountStep(s: string, runeOffset: int, byteIdx: nat, runeIdx: int, next: nat)
    requires byteIdx < |s| && runeIdx < runeOffset && next == byteIdx + RuneSize(s, byteIdx)
    requires next <= |s| && RuneCountFrom(s, RuneToByteFrom(s, runeOffset, next, runeIdx + 1))
                           == RuneCountFrom(s, next) - (runeOffset - (runeIdx + 1))
    ensures RuneCountFrom(s, RuneToByteFrom(s, runeOffset, byteIdx, runeIdx))
         == RuneCountFrom(s, byteIdx) - (runeOffset - runeIdx)
  {
    RuneToByteFromStep(s, runeOffset, byteIdx, runeIdx);
  }

  lemma {:induction false} RuneToByteFromSplit(s: string, mid: int, stop: int, byteIdx: nat, runeIdx: int)
    requires byteIdx <= |s| && runeIdx <= mid <= stop
    ensures RuneToByteFrom(s, stop, byteIdx, runeIdx)
         == RuneToByteFrom(s, stop, RuneToByteFrom(s, mid, byteIdx, runeIdx), if runeIdx <= mid && byteIdx < |s| then mid else runeIdx)
    decreases |s| - byteIdx
  {
    if runeIdx < mid && byteIdx < |s| {
      var next := byteIdx + RuneSize(s, byteIdx);
      RuneToByteFromStep(s, stop, byteIdx, runeIdx);
      RuneToByteFromStep(s, mid, byteIdx, runeIdx);
      RuneToByteFromSplit(s, mid, stop, next, runeIdx + 1);
      if next == |s| {
        // both scans stop at the end of the text
        RuneToByteFromAtEnd(s, mid, runeIdx + 1);
        RuneToByteFromAtEnd(s, stop, mid);
        RuneToByteFromAtEnd(s, stop, runeIdx + 1);
      }
    }
  }

  lemma RuneToByteFromStep(s: string, runeOffset: int, byteIdx: nat, runeIdx: int)
    requires byteIdx < |s| && runeIdx < runeOffset
    ensures RuneToByteFrom(s, runeOffset, byteIdx, runeIdx)
         == RuneToByteFrom(s, runeOffset, byteIdx + RuneSize(s, byteIdx), runeIdx + 1)
  {
  }

  lemma RuneToByteFromAtEnd(s: string, runeOffset: int, runeIdx: int)
    ensures RuneToByteFrom(s, runeOffset, |s|, runeIdx) == |s|
  {
  }

  /** A later rune never lies at an earlier byte. */
  lemma RuneToByteMonotone(s: string, a: int, b: int)
    requires a <= b
    ensures RuneToByte(s, a) <= RuneToByte(s, b)
  {
    if 0 <= a {
      RuneToByteFromSplit(s, a, b, 0, 0);
    }
  }

  /** Every rune offset at or past the number of runes gives the end of the text. */
  lemma RuneToBytePastEnd(s: string, runeOffset: int)
    requires runeOffset >= RuneCount(s)
    ensures RuneToByte(s, runeOffset) == |s|
  {
    RuneToByteFromCount(s, RuneCount(s), 0, 0);
    RuneToByteMonotone(s, RuneCount(s), runeOffset);
  }

  /**
   * `celOffsetRangeToByteRange`: the start is converted exactly and the
   * width in runes is reused as a width in bytes.
   */
  function OffsetRangeToByteRange(text: string, start: int, stop: int): (r: (int, int))
    ensures 0 <= r.0 <= |text|
    ensures start <= 0 ==> r.0 == 0
    ensures r.1 - r.0 == stop - start
  {
    var byteStart := RuneToByte(text, start);
    (byteStart, byteStart + (stop - start))
  }

  /** A rune range inside the text gives a byte range inside the text. */
  lemma ByteRangeWithinText(text: string, start: int, stop: int)
    requires 0 <= start <= stop <= RuneCount(text)
    ensures var (b, e) := OffsetRangeToByteRange(text, start, stop); 0 <= b <= e <= |text|
  {
    RuneToByteFromCount(text, start, 0, 0);
  }

  /**
   * The byte range is exact when the span itself is ASCII: its end is the
   * byte offset of rune `stop`.
   */
  lemma {:induction false} ByteRangeExactOnAscii(text: string, start: nat, stop: int)
    requires start <= stop
    requires var b := RuneToByte(text, start); b + (stop - start) <= |text| && IsAscii(text[b..b + (stop - start)])
    ensures OffsetRangeToByteRange(text, start, stop).1 == RuneToByte(text, stop)
  {
    var b := RuneToByte(text, start);
    RuneToByteFromSplit(text, start, stop, 0, 0);
    if b < |text| {
      AsciiScan(text, stop, b, start);
    } else {
      assert stop == start;
    }
  }

  lemma {:induction false} AsciiScan(s: string, stop: int, byteIdx: nat, runeIdx: int)
    requires runeIdx <= stop && byteIdx + (stop - runeIdx) <= |s|
    requires IsAscii(s[byteIdx..byteIdx + (stop - runeIdx)])
    ensures RuneToByteFrom(s, stop, byteIdx, runeIdx) == byteIdx + (stop - runeIdx)
    decreases stop - runeIdx
  {
    if runeIdx < stop {
      assert s[byteIdx..byteIdx + (stop - runeIdx)][0] == s[byteIdx];
      assert s[byteIdx + 1..byteIdx + 1 + (stop - runeIdx - 1)]
          == s[byteIdx..byteIdx + (stop - runeIdx)][1..];
      AsciiScan(s, stop, byteIdx + 1, runeIdx + 1);
    }
  }

  /** On ASCII text rune and byte offsets coincide, clamped to the text. */
  lemma {:induction false} RuneToByteAscii(s: string, runeOffset: int)
    requires IsAscii(s)
    ensures RuneToByte(s, runeOffset) == if runeOffset <= 0 then 0 else if runeOffset >= |s| then |s| else runeOffset
  {
    if runeOffset > 0 {
      var k := if runeOffset >= |s| then |s| else runeOffset;
      assert s[0..k] == s[..k];
      AsciiScan(s, k, 0, 0);
      RuneToByteFromSplit(s, k, runeOffset, 0, 0);
    }
  }

  /* ---------------- lookups ---------------- */

  /**
   * `findMethodNameAfterDot`: the byte range of `methodName` in the first
   * ".methodName" at or after `from`, or (-1, -1).
   */
  function FindMethodNameAfterDot(from: nat, methodName: string, text: string): (r: (int, int))
    requires from <= |text|
    ensures r == (-1, -1) <==> forall j :: from <= j ==> !OccursAt(text, "." + methodName, j)
    ensures r != (-1, -1) ==>
      && from < r.0 && r.1 == r.0 + |methodName|
      && OccursAt(text, "." + methodName, r.0 - 1)
      && forall j :: from <= j < r.0 - 1 ==> !OccursAt(text, "." + methodName, j)
  {
    var idx := IndexFrom(text, "." + methodName, from);
    IndexFromFirst(text, "." + methodName, from);
    if idx >= 0 then (idx + 1, idx + 1 + |methodName|) else (-1, -1)
  }

  /** Where ".name" occurs, the dot comes first and the name right after it. */
  lemma DotNameAt(text: string, name: string, idx: int)
    requires OccursAt(text, "." + name, idx)
    ensures 0 <= idx && idx + 1 + |name| <= |text|
    ensures text[idx] == '.' && text[idx + 1..idx + 1 + |name|] == name
  {
    var w := text[idx..idx + 1 + |name|];
    assert w == "." + name;
    assert w[0] == '.';
    assert w[1..] == name;
    assert w[1..] == text[idx + 1..idx + 1 + |name|];
  }

  /**
   * `isCELKeyword`. Every keyword is a lower-case word, so it has the shape
   * of an identifier, and no keyword is a macro name.
   */
  function IsCelKeyword(name: string): (b: bool)
    ensures b ==> 4 <= |name| <= 5 && forall k :: 0 <= k < |name| ==> 'a' <= name[k] <= 'z'
    ensures b ==> !IsCelMacroFunction(name)
  {
    name == "true" || name == "false" || name == "null"
  }

  /**
   * `isCELMacroFunction`: has, all, exists, exists_one, map, filter. Every
   * macro name is a lower-case word, possibly with an underscore.
   */
  function IsCelMacroFunction(name: string): (b: bool)
    ensures b ==> 3 <= |name| <= 10 && forall k :: 0 <= k < |name| ==> 'a' <= name[k] <= 'z' || name[k] == '_'
  {
    name in {"has", "all", "exists", "exists_one", "map", "filter"}
  }

  const ConditionalOperator := "_?_:_"

  /**
   * `celOperatorSymbol`. `reverse` is cel-go's `operators.FindReverse`
   * table from internal operator names to their display symbols.
   */
  function CelOperatorSymbol(reverse: map<string, string>, name: string): (r: Option<string>)
    ensures r.Some? ==> r.value != ""
    ensures r.None? <==> name != ConditionalOperator && (name !in reverse || reverse[name] == "")
    ensures name in reverse && reverse[name] != "" ==> r == Some(reverse[name])
    ensures name == ConditionalOperator && (name !in reverse || reverse[name] == "") ==> r == Some("?")
  {
    if name in reverse && reverse[name] != "" then Some(reverse[name])
    else if name == ConditionalOperator then Some("?")
    else None
  }
}
