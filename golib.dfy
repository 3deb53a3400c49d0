/**
  The parts of Go's standard library that the catcher package leans on, stated as
  functions: strings.Split and its inverse, strings.HasPrefix, path.Split (the file
  part), strings.ToUpper applied to one ASCII byte, the `<` order on strings, the
  `%d` verb of fmt, strconv.ParseInt with base 0 and bit size 0, and the
  wrap-around of int64 arithmetic.
*/
module GoLib {

  // ---------------------------------------------------------------------------
  // strings.Split with a one-character separator, and its inverse strings.Join
  // ---------------------------------------------------------------------------

  /** strings.Split(s, string(sep)): the maximal sep-free pieces of s, in order.
      An empty s yields one empty piece, as in Go. */
  function Split(s: string, sep: char): (parts: seq<string>)
    ensures |parts| >= 1
    ensures forall i :: 0 <= i < |parts| ==> sep !in parts[i]
    decreases |s|
  {
    if s == [] then [""]
    else
      var rest := Split(s[1..], sep);
      if s[0] == sep then [""] + rest
      else [[s[0]] + rest[0]] + rest[1..]
  }

  /** strings.Join(parts, string(sep)) */
  function Join(parts: seq<string>, sep: char): string
    requires |parts| >= 1
    decreases |parts|
  {
    if |parts| == 1 then parts[0] else parts[0] + [sep] + Join(parts[1..], sep)
  }

  /** Joining the pieces again gives back the original string. */
  lemma {:induction false} JoinSplit(s: string, sep: char)
    ensures Join(Split(s, sep), sep) == s
    decreases |s|
  {
    if s != [] {
      JoinSplit(s[1..], sep);
      var rest := Split(s[1..], sep);
      if s[0] != sep && |rest| > 1 {
        assert Join(rest, sep) == rest[0] + [sep] + Join(rest[1..], sep);
      }
      assert s == [s[0]] + s[1..];
    }
  }

  /** A string without the separator is a single piece. */
  lemma {:induction false} SplitNoSep(a: string, sep: char)
    requires sep !in a
    ensures Split(a, sep) == [a]
    decreases |a|
  {
    if a != [] {
      SplitNoSep(a[1..], sep);
      assert a == [a[0]] + a[1..];
    }
  }

  /** Splitting at one occurrence of the separator splits the pieces there. */
  lemma {:induction false} SplitAppend(a: string, b: string, sep: char)
    ensures Split(a + [sep] + b, sep) == Split(a, sep) + Split(b, sep)
    decreases |a|
  {
    if a == [] {
      assert a + [sep] + b == [sep] + b;
      assert ([sep] + b)[1..] == b;
    } else {
      assert (a + [sep] + b)[1..] == a[1..] + [sep] + b;
      SplitAppend(a[1..], b, sep);
    }
  }

  /** Splitting a join of separator-free pieces gives the pieces back. */
  lemma {:induction false} SplitJoin(parts: seq<string>, sep: char)
    requires |parts| >= 1
    requires forall i :: 0 <= i < |parts| ==> sep !in parts[i]
    ensures Split(Join(parts, sep), sep) == parts
    decreases |parts|
  {
    SplitNoSep(parts[0], sep);
    if |parts| > 1 {
      SplitJoin(parts[1..], sep);
      SplitAppend(parts[0], Join(parts[1..], sep), sep);
      assert parts == [parts[0]] + parts[1..];
    }
  }

  // ---------------------------------------------------------------------------
  // strings.HasPrefix, path.Split, strings.ToUpper of one byte
  // ---------------------------------------------------------------------------

  /** strings.HasPrefix(s, prefix): s is prefix followed by the rest of s. */
  function HasPrefix(s: string, prefix: string): (r: bool)
    ensures r <==> |prefix| <= |s| && s == prefix + s[|prefix|..]
  {
    |prefix| <= |s| && s[..|prefix|] == prefix
  }

  /** The `file` result of path.Split(p): everything after the last '/', or all of p
      when it holds no '/'. */
  function PathFile(p: string): (file: string)
    ensures '/' !in file
    ensures |file| <= |p| && file == p[|p| - |file|..]
    ensures |file| == |p| || p[|p| - |file| - 1] == '/'
    decreases |p|
  {
    if p == [] then []
    else if p[|p| - 1] == '/' then []
    else
      var init := p[..|p| - 1];
      var f := PathFile(init);
      assert init[|init| - |f|..] + [p[|p| - 1]] == p[|p| - |f| - 1..];
      assert |f| < |init| ==> p[|p| - |f| - 2] == init[|init| - |f| - 1];
      f + [p[|p| - 1]]
  }

  /** The file part of dir + "/" + file is file, whatever dir holds. */
  lemma {:induction false} PathFileAfterSlash(dir: string, file: string)
    requires '/' !in file
    ensures PathFile(dir + ['/'] + file) == file
    decreases |file|
  {
    var p := dir + ['/'] + file;
    if file != [] {
      var init := file[..|file| - 1];
      assert p[..|p| - 1] == dir + ['/'] + init;
      assert file[|file| - 1] in file;
      PathFileAfterSlash(dir, init);
      assert file == init + [file[|file| - 1]];
    }
  }

  /** strings.ToUpper(string(b)) for a byte b of ASCII text: lower-case letters move
      to upper case, every other character is left alone. */
  function ToUpperByte(c: char): (u: char)
    ensures 'a' <= c <= 'z' ==> 'A' <= u <= 'Z' && u as int - 'A' as int == c as int - 'a' as int
    ensures !('a' <= c <= 'z') ==> u == c
  {
    if 'a' <= c <= 'z' then (c as int - 'a' as int + 'A' as int) as char else c
  }

  // ---------------------------------------------------------------------------
  // The `<` operator on Go strings
  // ---------------------------------------------------------------------------

  /** a < b on Go strings: lexicographic by byte. On UTF-8 text, byte order and
      code-point order agree, so comparing characters is the same order. */
  function Less(a: string, b: string): (r: bool)
    ensures r ==> a != b
    ensures |a| <= |b| && b[..|a|] == a ==> (r <==> |a| < |b|)
    decreases |a|
  {
    if |a| == 0 then |b| > 0
    else if |b| == 0 then false
    else if a[0] != b[0] then a[0] < b[0]
    else Less(a[1..], b[1..])
  }

  lemma {:induction false} LessIrreflexive(a: string)
    ensures !Less(a, a)
    decreases |a|
  {
    if |a| > 0 {
      LessIrreflexive(a[1..]);
    }
  }

  lemma {:induction false} LessAsymmetric(a: string, b: string)
    requires Less(a, b)
    ensures !Less(b, a)
    decreases |a|
  {
    if |a| > 0 && |b| > 0 && a[0] == b[0] {
      LessAsymmetric(a[1..], b[1..]);
    }
  }

  lemma {:induction false} LessTransitive(a: string, b: string, c: string)
    requires Less(a, b) && Less(b, c)
    ensures Less(a, c)
    decreases |a|
  {
    if |a| > 0 && a[0] == b[0] && b[0] == c[0] {
      LessTransitive(a[1..], b[1..], c[1..]);
    }
  }

  /** Any two different strings are ordered one way or the other. */
  lemma {:induction false} LessTotal(a: string, b: string)
    ensures a == b || Less(a, b) || Less(b, a)
    decreases |a|
  {
    if |a| > 0 && |b| > 0 && a[0] == b[0] {
      LessTotal(a[1..], b[1..]);
      if a[1..] == b[1..] {
        assert a == [a[0]] + a[1..] && b == [b[0]] + b[1..];
      }
    }
  }

  // ---------------------------------------------------------------------------
  // fmt's %d on a non-negative integer
  // ---------------------------------------------------------------------------

  function DigitChar(d: nat): char
    requires d < 10
  {
    ('0' as int + d) as char
  }

  /** The decimal numeral of n: digits only, without a leading zero unless n is 0. */
  function FormatDecimal(n: nat): (s: string)
    ensures |s| >= 1
    ensures forall i :: 0 <= i < |s| ==> '0' <= s[i] <= '9'
    ensures s[0] == '0' <==> n == 0
    ensures n >= 10 ==> |s| >= 2
    decreases n
  {
    if n < 10 then [DigitChar(n)] else FormatDecimal(n / 10) + [DigitChar(n % 10)]
  }

  /** Different numbers have different numerals. */
  lemma {:induction false} FormatDecimalInjective(m: nat, n: nat)
    requires FormatDecimal(m) == FormatDecimal(n)
    ensures m == n
    decreases n
  {
    if m >= 10 && n >= 10 {
      var fm, fn := FormatDecimal(m), FormatDecimal(n);
      assert fm[|fm| - 1] == fn[|fn| - 1];
      assert fm[..|fm| - 1] == FormatDecimal(m / 10);
      assert fn[..|fn| - 1] == FormatDecimal(n / 10);
      FormatDecimalInjective(m / 10, n / 10);
    }
  }

  // ---------------------------------------------------------------------------
  // strconv.ParseInt(s, 0, 0) on a 64-bit platform
  // ---------------------------------------------------------------------------

  const MaxUint64: int := 0xFFFF_FFFF_FFFF_FFFF
  const MaxInt64: int := 0x7FFF_FFFF_FFFF_FFFF
  const MinInt64: int := -0x8000_0000_0000_0000
  const TwoTo63: int := 0x8000_0000_0000_0000
  const TwoTo64: int := 0x1_0000_0000_0000_0000

  /** The outcome of strconv's digit loop: a value, a syntax error, or a range error. */
  datatype Scanned = Value(n: nat) | SyntaxError | RangeError

  /** The digit value strconv gives a character: 0-9 for digits, 10-35 for letters of
      either case, and 36 (a digit in no base) for anything else. */
  function DigitValue(c: char): (d: nat)
    ensures d <= 36
  {
    if '0' <= c <= '9' then c as int - '0' as int
    else if 'a' <= c <= 'z' then c as int - 'a' as int + 10
    else if 'A' <= c <= 'Z' then c as int - 'A' as int + 10
    else 36
  }

  /** strconv's digit loop, left to right: the first character that is no digit of the
      base is a syntax error, and an accumulated value above 2^64-1 is a range error,
      whichever comes first. */
  function ScanDigits(s: string, base: nat): (r: Scanned)
    requires 2 <= base <= 36
    ensures r.Value? ==> r.n <= MaxUint64
    ensures r.Value? ==> forall i :: 0 <= i < |s| ==> DigitValue(s[i]) < base
    decreases |s|
  {
    if s == [] then Value(0)
    else
      match ScanDigits(s[..|s| - 1], base)
      case Value(v) =>
        var d := DigitValue(s[|s| - 1]);
        if d >= base then SyntaxError
        else if v * base + d > MaxUint64 then RangeError
        else Value(v * base + d)
      case SyntaxError => SyntaxError
      case RangeError => RangeError
  }

  /** strconv.ParseUint(s, 0, 64): "0x"/"0X" selects hexadecimal, another leading '0'
      octal, anything else decimal. A value is read only from a numeral that starts
      with a decimal digit, and after a leading '0' with no 'x' only from octal digits. */
  function ParseUintBase0(s: string): (r: Scanned)
    ensures r.Value? ==> r.n <= MaxUint64 && s != [] && '0' <= s[0] <= '9'
    ensures r.Value? && s[0] == '0' && !(|s| > 1 && (s[1] == 'x' || s[1] == 'X')) ==>
      forall i :: 0 <= i < |s| ==> '0' <= s[i] <= '7'
  {
    if s == [] then SyntaxError
    else if s[0] == '0' && |s| > 1 && (s[1] == 'x' || s[1] == 'X') then
      if |s| == 2 then SyntaxError else ScanDigits(s[2..], 16)
    else if s[0] == '0' then ScanDigits(s, 8)
    else ScanDigits(s, 10)
  }

  /** The value strconv.ParseInt(s, 0, 0) returns when its error is discarded: 0 after
      a syntax error, the nearest int64 bound after a range error, the signed value
      otherwise. */
  function ParseInt(s: string): (r: int)
    ensures MinInt64 <= r <= MaxInt64
    ensures ParseUintBase0(if s != [] && (s[0] == '+' || s[0] == '-') then s[1..] else s).SyntaxError? ==> r == 0
  {
    if s == [] then 0
    else
      var neg := s[0] == '-';
      var digits := if s[0] == '+' || s[0] == '-' then s[1..] else s;
      match ParseUintBase0(digits)
      case SyntaxError => 0
      case RangeError => if neg then MinInt64 else MaxInt64
      case Value(u) =>
        if !neg && u >= TwoTo63 then MaxInt64
        else if neg && u > TwoTo63 then MinInt64
        else if neg then -(u as int)
        else u
  }

  /** The decimal digit loop reads a numeral back to its number. */
  lemma {:induction false} ScanFormatDecimal(n: nat)
    requires n <= MaxUint64
    ensures ScanDigits(FormatDecimal(n), 10) == Value(n)
    decreases n
  {
    if n >= 10 {
      var s := FormatDecimal(n);
      assert s[..|s| - 1] == FormatDecimal(n / 10);
      ScanFormatDecimal(n / 10);
    }
  }

  /** %d and ParseInt are inverse on the non-negative int64 values. */
  lemma ParseIntFormatDecimal(n: nat)
    requires n <= MaxInt64
    ensures ParseInt(FormatDecimal(n)) == n
  {
    var s := FormatDecimal(n);
    ScanFormatDecimal(n);
    if n == 0 {
      assert s == "0" && s[0] == '0' && |s| == 1;
      assert ParseUintBase0(s) == ScanDigits(s, 8);
      assert s[..0] == [] && DigitValue(s[0]) == 0;
      assert ScanDigits(s, 8) == Value(0);
    } else {
      assert s[0] != '0' && s[0] != '+' && s[0] != '-';
    }
  }

  // ---------------------------------------------------------------------------
  // int64 wrap-around
  // ---------------------------------------------------------------------------

  /** x reduced into the int64 range modulo 2^64, as Go's int64 + and * do. */
  function Wrap64(x: int): (r: int)
    ensures MinInt64 <= r <= MaxInt64
    ensures (x - r) % TwoTo64 == 0
  {
    (x + TwoTo63) % TwoTo64 - TwoTo63
  }

  /** Numbers congruent modulo 2^64 wrap to the same int64. */
  lemma Wrap64Congruent(x: int, y: int)
    requires (x - y) % TwoTo64 == 0
    ensures Wrap64(x) == Wrap64(y)
  {
    var q := (x - y) / TwoTo64;
    assert x + TwoTo63 == (y + TwoTo63) + q * TwoTo64;
  }

  /** An int64 value is left alone. */
  lemma Wrap64Exact(x: int)
    requires MinInt64 <= x <= MaxInt64
    ensures Wrap64(x) == x
  {
  }
}
