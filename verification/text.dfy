/**
 * The parts of Go's `strings` and `strconv` packages that the modelled code calls.
 * Strings are sequences of Unicode code points (Go `[]rune`); byte-level UTF-8
 * behaviour is not modelled.
 */
module Text {
  import opened Outcomes

  /** Go's `unicode.IsSpace`: the Unicode White_Space characters. */
  predicate IsSpace(c: char)
  {
    c == '\t' || c == '\n' || c == '\U{000B}' || c == '\U{000C}' || c == '\r' || c == ' ' ||
    c == '\U{0085}' || c == '\U{00A0}' || c == '\U{1680}' || ('\U{2000}' <= c <= '\U{200A}') ||
    c == '\U{2028}' || c == '\U{2029}' || c == '\U{202F}' || c == '\U{205F}' || c == '\U{3000}'
  }

  /** The number of runes at the front of `s` that occur in `cutset`. */
  function CutCount(s: string, cutset: string): (n: nat)
    ensures n <= |s|
    ensures forall i :: 0 <= i < n ==> s[i] in cutset
    ensures n == |s| || s[n] !in cutset
    decreases |s|
  {
    if s != [] && s[0] in cutset then 1 + CutCount(s[1..], cutset) else 0
  }

  /** `strings.TrimLeft(s, cutset)`: drops every leading rune that occurs in `cutset`. */
  function TrimLeft(s: string, cutset: string): (r: string)
    ensures |r| <= |s| && r == s[|s| - |r|..]
    ensures r == [] || r[0] !in cutset
    ensures forall i :: 0 <= i < |s| - |r| ==> s[i] in cutset
  {
    s[CutCount(s, cutset)..]
  }

  /** The number of runes at the front of `s` that satisfy `p`. */
  function LeadingCount(s: string, p: char -> bool): (n: nat)
    ensures n <= |s|
    ensures forall i :: 0 <= i < n ==> p(s[i])
    ensures n == |s| || !p(s[n])
    decreases |s|
  {
    if s != [] && p(s[0]) then 1 + LeadingCount(s[1..], p) else 0
  }

  /** The number of runes at the back of `s` that satisfy `p`. */
  function TrailingCount(s: string, p: char -> bool): (n: nat)
    ensures n <= |s|
    ensures forall i :: |s| - n <= i < |s| ==> p(s[i])
    ensures n == |s| || !p(s[|s| - n - 1])
    decreases |s|
  {
    if s != [] && p(s[|s| - 1]) then 1 + TrailingCount(s[..|s| - 1], p) else 0
  }

  /** `strings.TrimFunc`: the runes between the leading and the trailing runes satisfying `p`. */
  function TrimFunc(s: string, p: char -> bool): string
  {
    var l := s[LeadingCount(s, p)..];
    l[..|l| - TrailingCount(l, p)]
  }

  /** TrimFunc removes the runes satisfying `p` at both ends and nothing else. */
  lemma TrimFuncSpec(s: string, p: char -> bool)
    ensures TrimFunc(s, p) == [] || (!p(TrimFunc(s, p)[0]) && !p(TrimFunc(s, p)[|TrimFunc(s, p)| - 1]))
    ensures LeadingCount(s, p) + |TrimFunc(s, p)| <= |s|
    ensures TrimFunc(s, p) == s[LeadingCount(s, p)..LeadingCount(s, p) + |TrimFunc(s, p)|]
    ensures forall j :: LeadingCount(s, p) + |TrimFunc(s, p)| <= j < |s| ==> p(s[j])
  {
    TrimFuncSlice(s, p);
    TrimFuncEnds(s, p);
    TrimFuncTail(s, p);
  }

  lemma TrimFuncSlice(s: string, p: char -> bool)
    ensures LeadingCount(s, p) + |TrimFunc(s, p)| <= |s|
    ensures TrimFunc(s, p) == s[LeadingCount(s, p)..LeadingCount(s, p) + |TrimFunc(s, p)|]
  {
    var n := LeadingCount(s, p);
    SliceOfSuffix(s, n, |s[n..]| - TrailingCount(s[n..], p));
  }

  /** A prefix of a suffix of `s` is a slice of `s`. */
  lemma SliceOfSuffix<T>(s: seq<T>, n: nat, k: nat)
    requires n + k <= |s|
    ensures s[n..][..k] == s[n..n + k]
  {
  }

  lemma TrimFuncEnds(s: string, p: char -> bool)
    ensures TrimFunc(s, p) == [] || (!p(TrimFunc(s, p)[0]) && !p(TrimFunc(s, p)[|TrimFunc(s, p)| - 1]))
  {
    var n := LeadingCount(s, p);
    var l := s[n..];
    var k := |l| - TrailingCount(l, p);
    var r := l[..k];
    if r != [] {
      assert r[0] == s[n];
      assert r[k - 1] == l[|l| - TrailingCount(l, p) - 1];
    }
  }

  lemma TrimFuncTail(s: string, p: char -> bool)
    ensures LeadingCount(s, p) + |TrimFunc(s, p)| <= |s|
    ensures forall j :: LeadingCount(s, p) + |TrimFunc(s, p)| <= j < |s| ==> p(s[j])
  {
    var n := LeadingCount(s, p);
    var l := s[n..];
    var k := |l| - TrailingCount(l, p);
    forall j | n + k <= j < |s| ensures p(s[j]) {
      assert s[j] == l[j - n];
    }
  }

  /** The number of white-space runes at the front of `s`. */
  function LeadingSpaces(s: string): (n: nat)
    ensures n <= |s|
    ensures forall i :: 0 <= i < n ==> IsSpace(s[i])
  {
    LeadingCount(s, IsSpace)
  }

  /** `strings.TrimSpace`: drops leading and trailing white space. */
  function TrimSpace(s: string): string
  {
    TrimFunc(s, IsSpace)
  }

  /** TrimSpace removes white space at both ends and nothing else. */
  lemma TrimSpaceSpec(s: string)
    ensures TrimSpace(s) == [] || (!IsSpace(TrimSpace(s)[0]) && !IsSpace(TrimSpace(s)[|TrimSpace(s)| - 1]))
    ensures LeadingSpaces(s) + |TrimSpace(s)| <= |s|
    ensures TrimSpace(s) == s[LeadingSpaces(s)..LeadingSpaces(s) + |TrimSpace(s)|]
    ensures forall j :: 0 <= j < LeadingSpaces(s) ==> IsSpace(s[j])
    ensures forall j :: LeadingSpaces(s) + |TrimSpace(s)| <= j < |s| ==> IsSpace(s[j])
  {
    TrimFuncSpec(s, IsSpace);
  }

  /** `strings.CutPrefix`. */
  function CutPrefix(s: string, prefix: string): (r: (string, bool))
    ensures r.1 <==> prefix <= s
    ensures r.1 ==> prefix + r.0 == s
    ensures !r.1 ==> r.0 == s
  {
    if prefix <= s then (s[|prefix|..], true) else (s, false)
  }

  /** `strings.TrimSuffix`: removes one trailing `suffix` if present. */
  function TrimSuffix(s: string, suffix: string): (r: string)
    ensures |suffix| <= |s| && s[|s| - |suffix|..] == suffix ==> r + suffix == s
    ensures !(|suffix| <= |s| && s[|s| - |suffix|..] == suffix) ==> r == s
  {
    if |suffix| <= |s| && s[|s| - |suffix|..] == suffix then s[..|s| - |suffix|] else s
  }

  /** `strings.Split(s, "\n")`: the pieces between line breaks; never empty. */
  function SplitLines(s: string): (r: seq<string>)
    ensures |r| >= 1
    ensures forall i :: 0 <= i < |r| ==> '\n' !in r[i]
    decreases |s|
  {
    if s == [] then [""]
    else
      var rest := SplitLines(s[1..]);
      if s[0] == '\n' then [""] + rest
      else [[s[0]] + rest[0]] + rest[1..]
  }

  /** `strings.Join(parts, "\n")`. */
  function JoinLines(parts: seq<string>): string
    decreases |parts|
  {
    if parts == [] then ""
    else if |parts| == 1 then parts[0]
    else parts[0] + "\n" + JoinLines(parts[1..])
  }

  /** Joining the split pieces gives the text back, so splitting loses nothing. */
  lemma {:induction false} JoinSplitLines(s: string)
    ensures JoinLines(SplitLines(s)) == s
    decreases |s|
  {
    if s != [] {
      JoinSplitLines(s[1..]);
      var rest := SplitLines(s[1..]);
      if s[0] == '\n' {
        assert SplitLines(s) == [""] + rest;
        assert s == "" + "\n" + s[1..];
      } else {
        if |rest| == 1 {
          assert JoinLines(SplitLines(s)) == [s[0]] + rest[0];
        } else {
          assert JoinLines(SplitLines(s)) == [s[0]] + rest[0] + "\n" + JoinLines(rest[1..]);
          assert JoinLines(rest) == rest[0] + "\n" + JoinLines(rest[1..]);
        }
        assert s == [s[0]] + s[1..];
      }
    }
  }

  /** Two texts split into the same lines exactly when they are the same text. */
  lemma SplitLinesInjective(a: string, b: string)
    ensures SplitLines(a) == SplitLines(b) <==> a == b
  {
    JoinSplitLines(a);
    JoinSplitLines(b);
  }

  /** Splitting the join of line-free pieces gives the pieces back. */
  lemma {:induction false} SplitJoinLines(parts: seq<string>)
    requires |parts| >= 1
    requires forall i :: 0 <= i < |parts| ==> '\n' !in parts[i]
    ensures SplitLines(JoinLines(parts)) == parts
    decreases |parts|
  {
    if |parts| == 1 {
      SplitNoBreak(parts[0]);
    } else {
      SplitJoinLines(parts[1..]);
      SplitAfterLine(parts[0], JoinLines(parts[1..]));
    }
  }

  lemma {:induction false} SplitNoBreak(s: string)
    requires '\n' !in s
    ensures SplitLines(s) == [s]
    decreases |s|
  {
    if s != [] {
      SplitNoBreak(s[1..]);
      assert s == [s[0]] + s[1..];
    }
  }

  lemma {:induction false} SplitAfterLine(line: string, rest: string)
    requires '\n' !in line
    ensures SplitLines(line + "\n" + rest) == [line] + SplitLines(rest)
    decreases |line|
  {
    if line == [] {
      assert line + "\n" + rest == "\n" + rest;
      assert ("\n" + rest)[1..] == rest;
    } else {
      SplitAfterLine(line[1..], rest);
      assert (line + "\n" + rest)[1..] == line[1..] + "\n" + rest;
      assert [line[0]] + line[1..] == line;
    }
  }

  predicate IsDigit(c: char) { '0' <= c <= '9' }

  function DigitValue(c: char): (d: nat)
    requires IsDigit(c)
    ensures d < 10
  {
    (c as int) - ('0' as int)
  }

  function DigitChar(d: nat): (c: char)
    requires d < 10
    ensures IsDigit(c) && DigitValue(c) == d
  {
    (('0' as int) + d) as char
  }

  predicate AllDigits(s: string)
  {
    forall i :: 0 <= i < |s| ==> IsDigit(s[i])
  }

  /** The value of a run of decimal digits, most significant first. */
  function DigitsValue(s: string): nat
    requires AllDigits(s)
    decreases |s|
  {
    if s == [] then 0 else DigitsValue(s[..|s| - 1]) * 10 + DigitValue(s[|s| - 1])
  }

  const MinInt64: int := -0x8000_0000_0000_0000
  const MaxInt64: int := 0x7FFF_FFFF_FFFF_FFFF

  datatype NumError = ErrSyntax | ErrRange

  const MaxUint64: int := 0xFFFF_FFFF_FFFF_FFFF

  /**
   * `strconv.Atoi` on a 64-bit platform: an optional sign followed by at least one
   * ASCII digit, nothing else, and a value that fits in an int64. The digits are
   * read from the left and the first problem decides the error, as in
   * `strconv.ParseUint`: a rune that is not a digit is a syntax error, but a run of
   * digits whose value passes the uint64 range is a range error even when a bad
   * rune follows it.
   */
  function Atoi(s: string): (r: Result<int, NumError>)
    ensures r.Success? ==> MinInt64 <= r.value <= MaxInt64
    ensures s == [] ==> r == Failure(ErrSyntax)
    ensures r.Success? && r.value < 0 ==> s[0] == '-'
  {
    var neg := s != [] && s[0] == '-';
    var digits := if s != [] && (s[0] == '-' || s[0] == '+') then s[1..] else s;
    var k := LeadingCount(digits, IsDigit);
    if digits == [] then Failure(ErrSyntax)
    else if DigitsValue(digits[..k]) > MaxUint64 then Failure(ErrRange)
    else if k < |digits| then Failure(ErrSyntax)
    else
      var m: int := DigitsValue(digits[..k]);
      var v := if neg then -m else m;
      if v < MinInt64 || v > MaxInt64 then Failure(ErrRange) else Success(v)
  }

  /** Digits past the uint64 range are a range error whatever follows them. */
  lemma AtoiRangeBeforeSyntax(d: string, tail: string)
    requires d != [] && AllDigits(d) && DigitsValue(d) > MaxUint64
    ensures Atoi(d + tail) == Failure(ErrRange)
  {
    var s := d + tail;
    assert s[0] == d[0];
    var k := LeadingCount(s, IsDigit);
    LeadingDigitsCover(d, tail);
    DigitsPrefixMonotone(s[..k], |d|);
    assert s[..k][..|d|] == d;
  }

  /** The leading digit run of `d + tail` takes in all of the digits `d`. */
  lemma LeadingDigitsCover(d: string, tail: string)
    requires AllDigits(d)
    ensures LeadingCount(d + tail, IsDigit) >= |d|
  {
    assert forall i :: 0 <= i < |d| ==> IsDigit((d + tail)[i]);
  }

  /** Twenty nines overflow uint64 before the parser reaches the letter after them. */
  lemma AtoiOverflowBeforeLetter()
    ensures Atoi("99999999999999999999x") == Failure(ErrRange)
  {
    var d := seq(20, _ => '9');
    TwentyNines();
    AtoiRangeBeforeSyntax(d, "x");
  }

  /** The twenty nines as a sequence, and their value past the uint64 range. */
  lemma TwentyNines()
    ensures seq(20, _ => '9') + "x" == "99999999999999999999x"
    ensures AllDigits(seq(20, _ => '9')) && DigitsValue(seq(20, _ => '9')) > MaxUint64
  {
    NinesValue(20);
    Pow10Twenty();
  }

  lemma Pow10Twenty()
    ensures Pow10(20) == 100_000_000_000_000_000_000
  {
    assert Pow10(5) == 100000;
    Pow10Add(5, 5);
    Pow10Add(10, 10);
  }

  /** n nines read as 10^n - 1. */
  lemma {:induction false} NinesValue(n: nat)
    ensures AllDigits(seq(n, _ => '9')) && DigitsValue(seq(n, _ => '9')) == Pow10(n) - 1
  {
    if n > 0 {
      NinesValue(n - 1);
      assert seq(n, _ => '9')[..n - 1] == seq(n - 1, _ => '9');
    }
  }

  lemma {:induction false} Pow10Add(a: nat, b: nat)
    ensures Pow10(a + b) == Pow10(a) * Pow10(b)
    decreases a
  {
    if a > 0 {
      Pow10Add(a - 1, b);
    }
  }

  /** Reading more digits never lowers the value. */
  lemma {:induction false} DigitsPrefixMonotone(s: string, j: nat)
    requires AllDigits(s) && j <= |s|
    ensures DigitsValue(s[..j]) <= DigitsValue(s)
    decreases |s|
  {
    if j < |s| {
      DigitsPrefixMonotone(s[..|s| - 1], j);
      assert s[..|s| - 1][..j] == s[..j];
    } else {
      assert s[..j] == s;
    }
  }

  /** `strconv.Itoa` for non-negative values: decimal digits without leading zeros. */
  function Itoa(n: nat): (s: string)
    ensures |s| >= 1 && AllDigits(s)
    ensures |s| > 1 ==> s[0] != '0'
    decreases n
  {
    if n < 10 then [DigitChar(n)] else Itoa(n / 10) + [DigitChar(n % 10)]
  }

  lemma {:induction false} ItoaValue(n: nat)
    ensures DigitsValue(Itoa(n)) == n
    decreases n
  {
    if n >= 10 {
      ItoaValue(n / 10);
      var s := Itoa(n);
      assert s[..|s| - 1] == Itoa(n / 10);
    }
  }

  /** Atoi reads back what Itoa writes. */
  lemma AtoiItoa(n: nat)
    requires n <= MaxInt64
    ensures Atoi(Itoa(n)) == Success(n)
  {
    ItoaValue(n);
    var s := Itoa(n);
    assert s[..|s|] == s;
  }

  /** `fmt.Sprintf("%0<width>d", n)` for non-negative n: Itoa padded with zeros on the left. */
  function PadZeros(n: nat, width: nat): (s: string)
    ensures |s| >= width && AllDigits(s)
    ensures DigitsValue(s) == n
  {
    var d := Itoa(n);
    ItoaValue(n);
    if |d| >= width then d
    else
      var z := seq(width - |d|, _ => '0');
      LeadingZeros(z, d);
      z + d
  }

  lemma {:induction false} LeadingZeros(z: string, d: string)
    requires forall i :: 0 <= i < |z| ==> z[i] == '0'
    requires AllDigits(d)
    ensures AllDigits(z + d) && DigitsValue(z + d) == DigitsValue(d)
    decreases |d|
  {
    if d == [] {
      assert z + d == z;
      ZerosValue(z);
    } else {
      LeadingZeros(z, d[..|d| - 1]);
      assert (z + d)[..|z + d| - 1] == z + d[..|d| - 1];
    }
  }

  lemma {:induction false} ZerosValue(z: string)
    requires forall i :: 0 <= i < |z| ==> z[i] == '0'
    ensures AllDigits(z) && DigitsValue(z) == 0
    decreases |z|
  {
    if z != [] { ZerosValue(z[..|z| - 1]); }
  }

  function Pow10(k: nat): (p: nat)
    ensures p >= 1
  {
    if k == 0 then 1 else 10 * Pow10(k - 1)
  }

  /** A value below 10^k takes at most k digits. */
  lemma {:induction false} ItoaLength(n: nat, k: nat)
    requires 1 <= k && n < Pow10(k)
    ensures |Itoa(n)| <= k
    decreases n
  {
    if n >= 10 {
      ItoaLength(n / 10, k - 1);
    }
  }

  /** k digits never read as 10^k or more. */
  lemma {:induction false} DigitsBound(s: string)
    requires AllDigits(s)
    ensures DigitsValue(s) < Pow10(|s|)
    decreases |s|
  {
    if s != [] {
      DigitsBound(s[..|s| - 1]);
    }
  }

  /** Two digit strings of the same length with the same value are the same string. */
  lemma {:induction false} DigitsInjective(a: string, b: string)
    requires AllDigits(a) && AllDigits(b) && |a| == |b|
    requires DigitsValue(a) == DigitsValue(b)
    ensures a == b
    decreases |a|
  {
    if a != [] {
      var n := |a| - 1;
      var x, y := DigitsValue(a[..n]), DigitsValue(b[..n]);
      var c, d := DigitValue(a[n]), DigitValue(b[n]);
      LastDigitSplit(x, c, y, d);
      DigitsInjective(a[..n], b[..n]);
      assert a == a[..n] + [a[n]] && b == b[..n] + [b[n]];
    }
  }

  /** A number written as `x * 10 + c` with a digit `c` determines `x` and `c`. */
  lemma LastDigitSplit(x: nat, c: nat, y: nat, d: nat)
    requires c < 10 && d < 10 && x * 10 + c == y * 10 + d
    ensures x == y && c == d
  {
  }

  /** A value below 10^w padded to width w takes exactly w digits. */
  lemma PadZerosWidth(n: nat, w: nat)
    requires 1 <= w && n < Pow10(w)
    ensures |PadZeros(n, w)| == w
  {
    ItoaLength(n, w);
  }

  /** A fixed-width run of digits is written back by zero padding to its width. */
  lemma PadZerosDigits(s: string)
    requires |s| >= 1 && AllDigits(s)
    ensures PadZeros(DigitsValue(s), |s|) == s
  {
    DigitsBound(s);
    PadZerosWidth(DigitsValue(s), |s|);
    DigitsInjective(PadZeros(DigitsValue(s), |s|), s);
  }

  /** `filepath.Base` on a slash-separated path. */
  function Base(path: string): string
  {
    if path == "" then "."
    else
      var t := TrimTrailingSlashes(path);
      if t == "" then "/" else AfterLastSlash(t)
  }

  function TrimTrailingSlashes(s: string): (r: string)
    ensures r <= s
    decreases |s|
  {
    if s != [] && s[|s| - 1] == '/' then TrimTrailingSlashes(s[..|s| - 1]) else s
  }

  function AfterLastSlash(s: string): string
    decreases |s|
  {
    if s == [] || s[|s| - 1] == '/' then [] else AfterLastSlash(s[..|s| - 1]) + [s[|s| - 1]]
  }

  /** The base of a path is its last element. */
  lemma BaseOfJoin(dir: string, name: string)
    requires name != [] && '/' !in name
    ensures Base(dir + "/" + name) == name
  {
    var p := dir + "/" + name;
    assert p[|p| - 1] == name[|name| - 1];
    AfterLastSlashOf(dir + "/", name);
  }

  lemma {:induction false} AfterLastSlashOf(dir: string, name: string)
    requires dir != [] && dir[|dir| - 1] == '/'
    requires '/' !in name
    ensures AfterLastSlash(dir + name) == name
    decreases |name|
  {
    if name == [] {
      assert dir + name == dir;
    } else {
      var n := |name| - 1;
      assert (dir + name)[..|dir + name| - 1] == dir + name[..n];
      assert name[n] in name;
      AfterLastSlashOf(dir, name[..n]);
      assert name[..n] + [name[n]] == name;
    }
  }

  /** `filepath.Join` without the final clean: the non-empty elements joined by slashes. */
  function JoinPath(elems: seq<string>): string
    decreases |elems|
  {
    if elems == [] then ""
    else
      var init := JoinPath(elems[..|elems| - 1]);
      var last := elems[|elems| - 1];
      if last == "" then init else if init == "" then last else init + "/" + last
  }
}
