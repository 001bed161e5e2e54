/**
 * Byte-string helpers shared by the whole model.
 *
 * Go strings are sequences of bytes. Here a Go string is a Dafny `string`
 * whose every `char` stands for one byte: the char's code is the byte value.
 * Functions below mirror the Go standard-library calls the server makes
 * (`strings.Index`, `strings.TrimRight`, `strings.Split`, `strconv.Atoi`, ...).
 */
module Text {

  datatype Option<T> = None | Some(value: T)

  /** `sub` occurs in `s` starting at byte `i`. */
  predicate OccursAt(s: string, sub: string, i: int)
  {
    0 <= i && i + |sub| <= |s| && s[i..i + |sub|] == sub
  }

  /** First index `>= i` at which `sub` occurs in `s`, or -1 (`strings.Index` on `s[i:]`, shifted by `i`). */
  function IndexFrom(s: string, sub: string, i: nat): (r: int)
    requires i <= |s|
    ensures r == -1 || (i <= r && OccursAt(s, sub, r))
    decreases |s| - i
  {
    if i + |sub| > |s| then -1
    else if s[i..i + |sub|] == sub then i
    else IndexFrom(s, sub, i + 1)
  }

  /** `IndexFrom` finds the first occurrence at or after `i`, and -1 only when there is none. */
  lemma {:induction false} IndexFromFirst(s: string, sub: string, i: nat)
    requires i <= |s|
    ensures var r := IndexFrom(s, sub, i);
      && (r == -1 ==> forall j :: i <= j ==> !OccursAt(s, sub, j))
      && (r != -1 ==> forall j :: i <= j < r ==> !OccursAt(s, sub, j))
    decreases |s| - i
  {
    if i + |sub| <= |s| && s[i..i + |sub|] != sub {
      IndexFromFirst(s, sub, i + 1);
    }
  }

  /** `strings.Index(s, sub)`. */
  function Index(s: string, sub: string): (r: int)
    ensures r == -1 || OccursAt(s, sub, r)
  {
    IndexFrom(s, sub, 0)
  }

  /** `Index` finds the first occurrence, and -1 only when there is none. */
  lemma IndexFirst(s: string, sub: string)
    ensures var r := Index(s, sub);
      && (r == -1 <==> forall j :: !OccursAt(s, sub, j))
      && (r != -1 ==> forall j :: j < r ==> !OccursAt(s, sub, j))
  {
    IndexFromFirst(s, sub, 0);
  }

  predicate HasSuffix(s: string, suffix: string)
  {
    |suffix| <= |s| && s[|s| - |suffix|..] == suffix
  }

  /** The ASCII white-space bytes of `unicode.IsSpace`. */
  predicate IsSpace(c: char)
  {
    c == ' ' || c == '\t' || c == '\n' || c == '\r' || c == '\U{B}' || c == '\U{C}'
  }

  /** `strings.TrimRight(s, cutset)`: drops trailing bytes that are in `cutset`. */
  function TrimRightSet(s: string, cutset: set<char>): (r: string)
    ensures r <= s
    ensures |r| == |s| || forall k :: |r| <= k < |s| ==> s[k] in cutset
    ensures r == [] || r[|r| - 1] !in cutset
  {
    if |s| > 0 && s[|s| - 1] in cutset then TrimRightSet(s[..|s| - 1], cutset) else s
  }

  /** `strings.TrimLeft(s, cutset)`. */
  function TrimLeftSet(s: string, cutset: set<char>): (r: string)
    ensures |r| <= |s|
    ensures r == [] || r[0] !in cutset
  {
    if |s| > 0 && s[0] in cutset then TrimLeftSet(s[1..], cutset) else s
  }

  /** What `TrimLeft` keeps is a suffix of its input. */
  lemma {:induction false} TrimLeftIsSuffix(s: string, cutset: set<char>)
    ensures var r := TrimLeftSet(s, cutset); r == s[|s| - |r|..]
  {
    if |s| > 0 && s[0] in cutset {
      TrimLeftIsSuffix(s[1..], cutset);
    }
  }

  const Whitespace: set<char> := {' ', '\t', '\n', '\r', '\U{B}', '\U{C}'}

  /** `strings.TrimSpace` on ASCII white space. */
  function TrimSpace(s: string): string
  {
    TrimLeftSet(TrimRightSet(s, Whitespace), Whitespace)
  }

  /** Every byte of `s` is white space, i.e. `strings.TrimSpace(s) == ""`. */
  predicate IsBlank(s: string)
  {
    forall k :: 0 <= k < |s| ==> IsSpace(s[k])
  }

  lemma {:induction false} TrimSpaceEmptyIffBlank(s: string)
    ensures TrimSpace(s) == [] <==> IsBlank(s)
  {
    var t := TrimRightSet(s, Whitespace);
    if IsBlank(s) {
      TrimRightAllCut(s, Whitespace);
    } else {
      var k :| 0 <= k < |s| && !IsSpace(s[k]);
      assert t[k] == s[k];
      TrimLeftKeeps(t, Whitespace, k);
    }
  }

  lemma {:induction false} TrimRightAllCut(s: string, cutset: set<char>)
    requires forall k :: 0 <= k < |s| ==> s[k] in cutset
    ensures TrimRightSet(s, cutset) == []
  {
    if |s| > 0 {
      TrimRightAllCut(s[..|s| - 1], cutset);
    }
  }

  lemma {:induction false} TrimLeftKeeps(s: string, cutset: set<char>, k: nat)
    requires k < |s| && s[k] !in cutset
    ensures TrimLeftSet(s, cutset) != []
  {
    if s[0] in cutset {
      TrimLeftKeeps(s[1..], cutset, k - 1);
    }
  }

  /** `strings.Count(s, string(c))`. */
  function Count(s: string, c: char): (n: nat)
    ensures n <= |s|
  {
    if |s| == 0 then 0 else Count(s[..|s| - 1], c) + (if s[|s| - 1] == c then 1 else 0)
  }

  /** A character that does not occur is counted zero times. */
  lemma {:induction false} CountAbsent(s: string, c: char)
    requires c !in s
    ensures Count(s, c) == 0
  {
    if |s| > 0 {
      assert c !in s[..|s| - 1];
      CountAbsent(s[..|s| - 1], c);
    }
  }

  /** `strings.LastIndex(s, string(c))`. */
  function LastIndexOf(s: string, c: char): (r: int)
    ensures -1 <= r < |s|
    ensures r >= 0 ==> s[r] == c
    ensures forall k :: r < k < |s| ==> s[k] != c
  {
    if |s| == 0 then -1 else if s[|s| - 1] == c then |s| - 1 else LastIndexOf(s[..|s| - 1], c)
  }

  /** `strings.Split(s, string(sep))`: the pieces between separators, never empty. */
  function Split(s: string, sep: char): (parts: seq<string>)
    ensures |parts| == Count(s, sep) + 1
  {
    if |s| == 0 then [""]
    else
      var init := Split(s[..|s| - 1], sep);
      if s[|s| - 1] == sep then init + [""]
      else init[..|init| - 1] + [init[|init| - 1] + [s[|s| - 1]]]
  }

  /** No piece contains the separator. */
  lemma {:induction false} SplitPiecesLackSep(s: string, sep: char)
    ensures forall p :: p in Split(s, sep) ==> sep !in p
  {
    if |s| > 0 {
      var init := Split(s[..|s| - 1], sep);
      SplitPiecesLackSep(s[..|s| - 1], sep);
      if s[|s| - 1] != sep {
        var last := init[|init| - 1] + [s[|s| - 1]];
        assert init[|init| - 1] in init;
        forall p | p in Split(s, sep)
          ensures sep !in p
        {
          if p != last {
            assert p in init[..|init| - 1];
          }
        }
      }
    }
  }

  /** `strings.Join(parts, string(sep))`. */
  function Join(parts: seq<string>, sep: char): string
  {
    if |parts| == 0 then ""
    else if |parts| == 1 then parts[0]
    else Join(parts[..|parts| - 1], sep) + [sep] + parts[|parts| - 1]
  }

  lemma {:induction false} JoinSplit(s: string, sep: char)
    ensures Join(Split(s, sep), sep) == s
  {
    if |s| > 0 {
      var s', c := s[..|s| - 1], s[|s| - 1];
      var init := Split(s', sep);
      JoinSplit(s', sep);
      SnocLast([], s);
      SplitSnoc(s', c, sep);
      if c == sep {
        JoinSnoc(init, "", sep);
      } else {
        JoinLast(init, sep, [c]);
      }
    }
  }

  /** Joining one more piece appends a separator and the piece. */
  lemma JoinSnoc(parts: seq<string>, p: string, sep: char)
    requires |parts| > 0
    ensures Join(parts + [p], sep) == Join(parts, sep) + [sep] + p
  {
    var q := parts + [p];
    assert q[..|q| - 1] == parts;
  }

  /** A string without the separator is a single piece. */
  lemma {:induction false} SplitNoSep(s: string, sep: char)
    requires sep !in s
    ensures Split(s, sep) == [s]
  {
    if |s| > 0 {
      assert sep !in s[..|s| - 1];
      SplitNoSep(s[..|s| - 1], sep);
      assert s[..|s| - 1] + [s[|s| - 1]] == s;
    }
  }

  /** A string is the part before index `k`, the byte at `k`, and the part after. */
  lemma AroundIndex(s: string, k: nat)
    requires k < |s|
    ensures s[..k] + [s[k]] + s[k + 1..] == s
  {
  }

  /** A string is its first `n` bytes followed by the rest. */
  lemma TakeDrop(s: string, n: nat)
    requires n <= |s|
    ensures s[..n] + s[n..] == s
  {
  }

  /** Dropping the last byte of `y` and putting it back, after any prefix `x`. */
  lemma SnocLast(x: string, y: string)
    requires |y| > 0
    ensures x + y[..|y| - 1] + [y[|y| - 1]] == x + y
  {
  }

  /** The pieces after one more byte: a new empty piece after a separator, else the last piece grows. */
  function SplitStep(init: seq<string>, c: char, sep: char): seq<string>
    requires |init| > 0
  {
    if c == sep then init + [""] else init[..|init| - 1] + [init[|init| - 1] + [c]]
  }

  lemma SplitSnoc(t: string, c: char, sep: char)
    ensures Split(t + [c], sep) == SplitStep(Split(t, sep), c, sep)
  {
    var s := t + [c];
    assert s[..|s| - 1] == t;
  }

  /** The step only touches the last piece, so pieces in front are kept. */
  lemma SplitStepAppend(x: seq<string>, init: seq<string>, c: char, sep: char)
    requires |init| > 0
    ensures SplitStep(x + init, c, sep) == x + SplitStep(init, c, sep)
  {
    if c == sep {
      assert (x + init) + [""] == x + (init + [""]);
    } else {
      ExtendLastPiece(x, init, c);
    }
  }

  /** Splitting at the first separator: the piece before it, then the pieces of the rest. */
  lemma {:induction false} SplitAtFirst(a: string, b: string, sep: char)
    requires sep !in a
    ensures Split(a + [sep] + b, sep) == [a] + Split(b, sep)
  {
    if |b| == 0 {
      SplitSnoc(a, sep, sep);
      SplitNoSep(a, sep);
      assert a + [sep] + b == a + [sep];
    } else {
      var b', c := b[..|b| - 1], b[|b| - 1];
      SplitAtFirst(a, b', sep);
      SplitSnoc(a + [sep] + b', c, sep);
      SplitSnoc(b', c, sep);
      SnocLast([], b);
      SnocLast(a + [sep], b);
      SplitStepAppend([a], Split(b', sep), c, sep);
    }
  }

  lemma ExtendLastPiece(x: seq<string>, y: seq<string>, c: char)
    requires |y| >= 1
    ensures var xy := x + y;
      xy[..|xy| - 1] + [xy[|xy| - 1] + [c]] == x + (y[..|y| - 1] + [y[|y| - 1] + [c]])
  {
    var xy := x + y;
    assert xy[..|xy| - 1] == x + y[..|y| - 1];
  }

  lemma {:induction false} JoinLast(parts: seq<string>, sep: char, extra: string)
    requires |parts| > 0
    ensures Join(parts[..|parts| - 1] + [parts[|parts| - 1] + extra], sep) == Join(parts, sep) + extra
  {
    var q := parts[..|parts| - 1] + [parts[|parts| - 1] + extra];
    if |parts| > 1 {
      assert q[..|q| - 1] == parts[..|parts| - 1];
    }
  }

  /** Joining two non-empty runs of pieces puts one separator between them. */
  lemma {:induction false} JoinAppend(x: seq<string>, y: seq<string>, sep: char)
    requires |x| > 0 && |y| > 0
    ensures Join(x + y, sep) == Join(x, sep) + [sep] + Join(y, sep)
  {
    var xy := x + y;
    if |y| == 1 {
      assert xy[..|xy| - 1] == x;
    } else {
      var y' := y[..|y| - 1];
      assert xy[..|xy| - 1] == x + y';
      JoinAppend(x, y', sep);
    }
  }

  /** A byte absent from `s` is absent from every piece of `s`. */
  lemma {:induction false} SplitKeepsAbsent(s: string, sep: char, c: char)
    requires c !in s
    ensures forall p :: p in Split(s, sep) ==> c !in p
  {
    if |s| > 0 {
      assert c !in s[..|s| - 1];
      SplitKeepsAbsent(s[..|s| - 1], sep, c);
      var init := Split(s[..|s| - 1], sep);
      if s[|s| - 1] != sep {
        assert s[|s| - 1] != c;
        var last := init[|init| - 1] + [s[|s| - 1]];
        assert init[|init| - 1] in init;
        assert c !in last;
        forall p | p in Split(s, sep)
          ensures c !in p
        {
          if p != last {
            assert p in init[..|init| - 1];
          }
        }
      }
    }
  }

  predicate IsDigit(c: char)
  {
    '0' as int <= c as int <= '9' as int
  }

  /**
   * `unicode.IsLetter` on code points below 256: ASCII letters and the
   * Latin-1 letters. Code points from 256 on are not classified (see README).
   */
  predicate IsLetter(r: int)
  {
    ('A' as int <= r <= 'Z' as int) || ('a' as int <= r <= 'z' as int)
    || r == 0xAA || r == 0xB5 || r == 0xBA
    || (0xC0 <= r <= 0xD6) || (0xD8 <= r <= 0xF6) || (0xF8 <= r <= 0xFF)
  }

  function DigitChar(d: nat): (c: char)
    requires d < 10
    ensures IsDigit(c)
  {
    ('0' as int + d) as char
  }

  /** `strconv.Itoa` for non-negative values. */
  function FormatNat(n: nat): (s: string)
    ensures |s| > 0
    ensures forall k :: 0 <= k < |s| ==> IsDigit(s[k])
  {
    if n < 10 then [DigitChar(n)] else FormatNat(n / 10) + [DigitChar(n % 10)]
  }

  /** `strconv.Itoa` / the `%d` verb. */
  function FormatInt(n: int): string
  {
    if n < 0 then "-" + FormatNat(-n) else FormatNat(n)
  }

  /** The value of a string of decimal digits. */
  function DigitsValue(s: string): nat
    requires forall k :: 0 <= k < |s| ==> IsDigit(s[k])
  {
    if |s| == 0 then 0
    else
      assert IsDigit(s[|s| - 1]);
      DigitsValue(s[..|s| - 1]) * 10 + (s[|s| - 1] as int - '0' as int)
  }

  predicate AllDigits(s: string)
  {
    forall k :: 0 <= k < |s| ==> IsDigit(s[k])
  }

  /** The range of Go's `int` on a 64-bit platform, and of `int64`. */
  const MinInt64: int := -0x8000_0000_0000_0000
  const MaxInt64: int := 0x7FFF_FFFF_FFFF_FFFF

  predicate InInt64(n: int)
  {
    MinInt64 <= n <= MaxInt64
  }

  /** The value an optional sign and at least one decimal digit spell, whatever its size. */
  function DecimalValue(s: string): Option<int>
  {
    if |s| > 0 && (s[0] == '-' || s[0] == '+') then
      var digits := s[1..];
      if |digits| > 0 && AllDigits(digits) then
        var magnitude: int := DigitsValue(digits);
        Some(if s[0] == '-' then -magnitude else magnitude)
      else None
    else if |s| > 0 && AllDigits(s) then Some(DigitsValue(s))
    else None
  }

  /**
   * `strconv.Atoi` on a 64-bit platform: an optional sign followed by at
   * least one decimal digit, whose value fits in an `int`. A value out of
   * range is an error, like a syntax error.
   */
  function ParseInt(s: string): (r: Option<int>)
    ensures r.Some? ==> |s| > 0 && InInt64(r.value)
    ensures r.Some? <==> DecimalValue(s).Some? && InInt64(DecimalValue(s).value)
  {
    match DecimalValue(s)
    case Some(v) => if InInt64(v) then Some(v) else None
    case None => None
  }

  lemma {:induction false} DigitsValueFormatNat(n: nat)
    ensures DigitsValue(FormatNat(n)) == n
  {
    if n >= 10 {
      var s := FormatNat(n);
      assert s[..|s| - 1] == FormatNat(n / 10);
      DigitsValueFormatNat(n / 10);
    }
  }

  /** Decimal formatting spells every integer's own value. */
  lemma DecimalValueFormatInt(n: int)
    ensures DecimalValue(FormatInt(n)) == Some(n)
  {
    if n < 0 {
      DigitsValueFormatNat(-n);
      assert FormatInt(n)[1..] == FormatNat(-n);
    } else {
      DigitsValueFormatNat(n);
    }
  }

  /**
   * Decimal formatting and `strconv.Atoi` are inverse on every 64-bit
   * integer, and `strconv.Atoi` rejects the decimal form of every other one.
   */
  lemma ParseFormatInt(n: int)
    ensures InInt64(n) ==> ParseInt(FormatInt(n)) == Some(n)
    ensures !InInt64(n) ==> ParseInt(FormatInt(n)) == None
  {
    DecimalValueFormatInt(n);
  }

  /** `strings.Join(parts, sep)` with a separator of any length. */
  function JoinWith(parts: seq<string>, sep: string): string
  {
    if |parts| == 0 then ""
    else if |parts| == 1 then parts[0]
    else JoinWith(parts[..|parts| - 1], sep) + sep + parts[|parts| - 1]
  }

  /** `a <= b` in Go's string order (`cmp.Compare`): byte-wise lexicographic. */
  predicate ByteOrderLe(a: string, b: string)
    decreases |a|
  {
    |a| == 0 || (|b| > 0 && (a[0] < b[0] || (a[0] == b[0] && ByteOrderLe(a[1..], b[1..]))))
  }

  lemma {:induction false} ByteOrderTotal(a: string, b: string)
    ensures ByteOrderLe(a, b) || ByteOrderLe(b, a)
    decreases |a|
  {
    if |a| > 0 && |b| > 0 && a[0] == b[0] {
      ByteOrderTotal(a[1..], b[1..]);
    }
  }

  lemma {:induction false} ByteOrderTransitive(a: string, b: string, c: string)
    requires ByteOrderLe(a, b) && ByteOrderLe(b, c)
    ensures ByteOrderLe(a, c)
    decreases |a|
  {
    if |a| > 0 && a[0] == b[0] && b[0] == c[0] {
      ByteOrderTransitive(a[1..], b[1..], c[1..]);
    }
  }

  /** Two strings each ordered before the other are the same string. */
  lemma {:induction false} ByteOrderAntisymmetric(a: string, b: string)
    requires ByteOrderLe(a, b) && ByteOrderLe(b, a)
    ensures a == b
    decreases |a|
  {
    if |a| > 0 {
      ByteOrderAntisymmetric(a[1..], b[1..]);
      assert a == [a[0]] + a[1..] && b == [b[0]] + b[1..];
    }
  }
}
