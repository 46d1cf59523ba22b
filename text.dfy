/**
 * The Python 2 string operations the two drivers apply to scheduler output, paths and
 * metric files: `strip`, `split`, `join`, `int`, `str`, `zfill` and `readlines`.
 */
module Text {
  import opened Outcomes

  /** The characters `str.strip()` and `int()` treat as whitespace. */
  predicate IsSpace(c: char) {
    c == ' ' || c == '\t' || c == '\n' || c == '\r' || c as int == 11 || c as int == 12
  }

  predicate NoSpace(s: string) {
    forall i :: 0 <= i < |s| ==> !IsSpace(s[i])
  }

  /** `s.lstrip()`: the suffix left after dropping leading whitespace. */
  function TrimStart(s: string): (r: string)
    ensures |r| <= |s| && r == s[|s| - |r|..]
    ensures forall i :: 0 <= i < |s| - |r| ==> IsSpace(s[i])
    ensures |r| > 0 ==> !IsSpace(r[0])
  {
    if |s| > 0 && IsSpace(s[0]) then TrimStart(s[1..]) else s
  }

  /** `s.rstrip()`: the prefix left after dropping trailing whitespace. */
  function TrimEnd(s: string): (r: string)
    ensures |r| <= |s| && r == s[..|r|]
    ensures forall i :: |r| <= i < |s| ==> IsSpace(s[i])
    ensures |r| > 0 ==> !IsSpace(r[|r| - 1])
  {
    if |s| > 0 && IsSpace(s[|s| - 1]) then TrimEnd(s[..|s| - 1]) else s
  }

  predicate AllSpace(s: string) {
    forall i :: 0 <= i < |s| ==> IsSpace(s[i])
  }

  /** `s.strip()`: the slice of `s` left after dropping whitespace at both ends. */
  function Strip(s: string): (r: string)
    ensures |r| > 0 ==> !IsSpace(r[0]) && !IsSpace(r[|r| - 1])
  {
    TrimEnd(TrimStart(s))
  }

  /** `n` blanks. */
  function Spaces(n: nat): (s: string)
    ensures |s| == n && AllSpace(s)
  {
    seq(n, i => ' ')
  }

  /** A string that starts and ends with something other than whitespace is already
      stripped. */
  lemma StripTrimmed(s: string)
    requires |s| > 0 && !IsSpace(s[0]) && !IsSpace(s[|s| - 1])
    ensures Strip(s) == s
  {
    assert TrimStart(s) == s;
  }

  /** What `strip` leaves is a slice of the string with only whitespace cut from either
      side of it. */
  lemma StripShape(s: string)
    ensures var r := Strip(s);
            var k := |s| - |TrimStart(s)|;
            && k + |r| <= |s|
            && (forall i :: 0 <= i < |r| ==> r[i] == s[k + i])
            && (forall i :: 0 <= i < k ==> IsSpace(s[i]))
            && (forall i :: k + |r| <= i < |s| ==> IsSpace(s[i]))
  {
    var t := TrimStart(s);
    var r := TrimEnd(t);
    StripKept(s, t, r);
    StripTail(s, t, r);
    assert forall i :: 0 <= i < |s| - |t| ==> IsSpace(s[i]);
  }

  /** The characters `strip` keeps are those of `s` from the first non-blank on. */
  lemma StripKept(s: string, t: string, r: string)
    requires |t| <= |s| && t == s[|s| - |t|..]
    requires |r| <= |t| && r == t[..|r|]
    ensures |s| - |t| + |r| <= |s|
    ensures forall i :: 0 <= i < |r| ==> r[i] == s[|s| - |t| + i]
  {
    forall i | 0 <= i < |r| ensures r[i] == s[|s| - |t| + i] {
      assert r[i] == t[i];
    }
  }

  /** What `strip` drops after the kept characters is whitespace. */
  lemma StripTail(s: string, t: string, r: string)
    requires |t| <= |s| && t == s[|s| - |t|..] && |r| <= |t|
    requires forall i :: |r| <= i < |t| ==> IsSpace(t[i])
    ensures forall i :: |s| - |t| + |r| <= i < |s| ==> IsSpace(s[i])
  {
    forall i | |s| - |t| + |r| <= i < |s| ensures IsSpace(s[i]) {
      assert s[i] == t[i - (|s| - |t|)];
    }
  }

  /** Whitespace before and after a string does not change what `strip` leaves. */
  lemma StripSurrounding(w1: string, s: string, w2: string)
    requires AllSpace(w1) && AllSpace(w2)
    ensures Strip(w1 + s + w2) == Strip(s)
  {
    var rest := s + w2;
    Regroup(w1, s, w2);
    TrimStartSpace(w1, rest);
    TrimStartTrimEnd(s, w2);
  }

  lemma Regroup(a: string, b: string, c: string)
    ensures a + b + c == a + (b + c)
  {
  }

  lemma {:induction false} TrimStartSpace(w: string, s: string)
    requires AllSpace(w)
    ensures TrimStart(w + s) == TrimStart(s)
    decreases |w|
  {
    if |w| > 0 {
      assert (w + s)[1..] == w[1..] + s;
      TrimStartSpace(w[1..], s);
    } else {
      assert w + s == s;
    }
  }

  lemma {:induction false} TrimEndSpace(s: string, w: string)
    requires AllSpace(w)
    ensures TrimEnd(s + w) == TrimEnd(s)
    decreases |w|
  {
    if |w| > 0 {
      var t := s + w;
      assert t[..|t| - 1] == s + w[..|w| - 1];
      TrimEndSpace(s, w[..|w| - 1]);
    } else {
      assert s + w == s;
    }
  }

  /** Trailing whitespace is invisible to `strip` whatever precedes it. */
  lemma {:induction false} TrimStartTrimEnd(s: string, w: string)
    requires AllSpace(w)
    ensures TrimEnd(TrimStart(s + w)) == TrimEnd(TrimStart(s))
    decreases |s|
  {
    if |s| == 0 {
      assert s + w == w + "";
      TrimStartSpace(w, "");
      assert w + "" == w;
    } else if IsSpace(s[0]) {
      assert (s + w)[1..] == s[1..] + w;
      TrimStartTrimEnd(s[1..], w);
    } else {
      assert (s + w)[0] == s[0];
      TrimEndSpace(s, w);
    }
  }

  /** A string with no whitespace at all is its own stripped form. */
  lemma StripNoSpace(s: string)
    requires NoSpace(s)
    ensures Strip(s) == s
  {
  }

  /** `s.split(sep)` with an explicit separator: every occurrence splits, and empty
      pieces are kept, so there is always at least one piece. */
  function Split(s: string, sep: char): (r: seq<string>)
    ensures |r| >= 1
    ensures forall k :: 0 <= k < |r| ==> sep !in r[k]
    decreases |s|
  {
    if |s| == 0 then [""]
    else if s[0] == sep then [""] + Split(s[1..], sep)
    else
      var rest := Split(s[1..], sep);
      [[s[0]] + rest[0]] + rest[1..]
  }

  /** `sep.join(parts)`: the first part, then each further part after a separator. */
  function Join(parts: seq<string>, sep: char): (r: string)
    ensures |parts| > 0 ==> |r| >= |parts[0]| && r[..|parts[0]|] == parts[0]
    ensures |parts| > 1 ==> |r| > |parts[0]| && r[|parts[0]|] == sep
  {
    if |parts| == 0 then ""
    else if |parts| == 1 then parts[0]
    else parts[0] + [sep] + Join(parts[1..], sep)
  }

  /** Joining the pieces of a split with the same separator gives back the string. */
  lemma {:induction false} JoinSplit(s: string, sep: char)
    ensures Join(Split(s, sep), sep) == s
    decreases |s|
  {
    if |s| == 0 {
    } else if s[0] == sep {
      JoinSplit(s[1..], sep);
      assert s == [sep] + s[1..];
    } else {
      JoinSplit(s[1..], sep);
      var rest := Split(s[1..], sep);
      if |rest| == 1 {
        assert s == [s[0]] + s[1..];
      } else {
        assert Join(rest, sep) == rest[0] + [sep] + Join(rest[1..], sep);
        assert s == [s[0]] + s[1..];
      }
    }
  }

  /** A string without the separator splits into itself alone. */
  lemma {:induction false} SplitWithoutSep(s: string, sep: char)
    requires sep !in s
    ensures Split(s, sep) == [s]
    decreases |s|
  {
    if |s| > 0 {
      SplitWithoutSep(s[1..], sep);
      assert s == [s[0]] + s[1..];
    }
  }

  /** Splitting at a first separator gives the part before it, then the pieces after it. */
  lemma {:induction false} SplitAtSep(a: string, sep: char, b: string)
    requires sep !in a
    ensures Split(a + [sep] + b, sep) == [a] + Split(b, sep)
    decreases |a|
  {
    if |a| == 0 {
      assert a + [sep] + b == [sep] + b;
      assert ([sep] + b)[1..] == b;
    } else {
      var s := a + [sep] + b;
      assert s[0] == a[0] && s[1..] == a[1..] + [sep] + b;
      SplitAtSep(a[1..], sep, b);
      assert [a[0]] + a[1..] == a;
    }
  }

  predicate IsDigit(c: char) { '0' <= c <= '9' }

  predicate AllDigits(s: string) {
    forall i :: 0 <= i < |s| ==> IsDigit(s[i])
  }

  function DigitValue(c: char): nat
    requires IsDigit(c)
  {
    (c as int - '0' as int) as nat
  }

  function DigitChar(d: nat): (c: char)
    requires d < 10
    ensures IsDigit(c) && DigitValue(c) == d
  {
    ('0' as int + d) as char
  }

  /** The value of a string of decimal digits, most significant first. */
  function DigitsValue(s: string): nat
    requires AllDigits(s)
  {
    if |s| == 0 then 0 else 10 * DigitsValue(s[..|s| - 1]) + DigitValue(s[|s| - 1])
  }

  /** `int(s)` for a base-10 string: surrounding whitespace is ignored, then one
      optional sign, then at least one decimal digit; anything else raises ValueError.
      Whitespace between the sign and the digits is skipped too, because CPython 2's
      `PyOS_strtol` reads the sign and then hands the rest to `PyOS_strtoul`, which skips
      leading whitespace again. */
  function ParseInt(s: string): (r: Result<int, Exception>)
    ensures r.Failure? ==> r.error == ValueError
    ensures AllSpace(s) ==> r.Failure?
    ensures r.Success? && r.value < 0 ==> Strip(s)[0] == '-'
  {
    StripAllSpace(s);
    ParseStripped(Strip(s))
  }

  /** `int` of already stripped text: a `-` negates, a `+` is dropped, and whitespace
      after either is skipped before the digits. */
  function ParseStripped(t: string): (r: Result<int, Exception>)
    ensures r.Failure? ==> r.error == ValueError
    ensures r.Success? && r.value < 0 ==> |t| > 0 && t[0] == '-'
    ensures |t| == 0 ==> r.Failure?
  {
    if |t| > 0 && t[0] == '-' then Negated(ReadDigits(TrimStart(t[1..])))
    else if |t| > 0 && t[0] == '+' then ReadDigits(TrimStart(t[1..]))
    else ReadDigits(t)
  }

  /** The value of a non-empty run of decimal digits; anything else is a ValueError. */
  function ReadDigits(d: string): (r: Result<int, Exception>)
    ensures r.Failure? ==> r.error == ValueError
    ensures r.Success? ==> r.value >= 0
    ensures |d| == 0 ==> r.Failure?
  {
    if |d| > 0 && AllDigits(d) then Success(DigitsValue(d)) else Failure(ValueError)
  }

  function Negated(r: Result<int, Exception>): Result<int, Exception> {
    if r.Success? then Success(-r.value) else r
  }

  /** Whitespace alone strips to nothing. */
  lemma StripAllSpace(s: string)
    ensures AllSpace(s) ==> Strip(s) == ""
  {
  }

  /** The decimal digits of `n`, without leading zeros. */
  function NatStr(n: nat): (s: string)
    ensures |s| > 0 && AllDigits(s) && DigitsValue(s) == n
    ensures n > 0 ==> s[0] != '0'
  {
    if n < 10 then [DigitChar(n)]
    else
      var s := NatStr(n / 10) + [DigitChar(n % 10)];
      assert s[..|s| - 1] == NatStr(n / 10);
      s
  }

  /** `str(k)` for an integer. */
  function Str(k: int): (s: string)
    ensures |s| > 0 && NoSpace(s)
    ensures k >= 0 ==> AllDigits(s)
    ensures k < 0 ==> s[0] == '-' && AllDigits(s[1..])
  {
    if k < 0 then "-" + NatStr(-k) else NatStr(k)
  }

  /** `int(d)` of a plain digit string is its decimal value. */
  lemma ParseIntDigits(d: string)
    requires |d| > 0 && AllDigits(d)
    ensures ParseInt(d) == Success(DigitsValue(d))
  {
    assert NoSpace(d) by {
      forall i | 0 <= i < |d| ensures !IsSpace(d[i]) { assert IsDigit(d[i]); }
    }
    StripNoSpace(d);
    assert IsDigit(d[0]);
  }

  /** `int('-' + d)` of a digit string is its negated decimal value `v`. */
  lemma ParseIntNegativeDigits(d: string, v: nat)
    requires |d| > 0 && AllDigits(d) && DigitsValue(d) == v
    ensures ParseInt("-" + d) == Success(-(v as int))
  {
    var t := "-" + d;
    assert NoSpace(t) by {
      forall i | 0 <= i < |t| ensures !IsSpace(t[i]) {
        if i > 0 { assert t[i] == d[i - 1] && IsDigit(d[i - 1]); }
      }
    }
    StripNoSpace(t);
    assert t[1..] == d;
    assert TrimStart(d) == d;
  }

  /** `int('-' + w + d)` with whitespace `w` between the sign and the digits `d` reads
      `-d`, as `int('-\t5') == -5` in Python 2. */
  lemma ParseIntSpaceAfterSign(w: string, d: string)
    requires AllSpace(w) && |d| > 0 && AllDigits(d)
    ensures ParseInt("-" + w + d) == Success(-(DigitsValue(d) as int))
  {
    var wd := w + d;
    var t := "-" + wd;
    assert "-" + w + d == t;
    assert IsDigit(d[|d| - 1]) && t[|t| - 1] == d[|d| - 1];
    StripTrimmed(t);
    assert t[1..] == wd;
    TrimStartSpace(w, d);
    TrimStartDigits(d);
    NegativeAfterSign(t, d);
  }

  /** Digits have no leading whitespace for `lstrip` to drop. */
  lemma TrimStartDigits(d: string)
    requires |d| > 0 && AllDigits(d)
    ensures TrimStart(d) == d
  {
    assert IsDigit(d[0]);
  }

  /** A stripped `-` followed by text that `lstrip` turns into digits `d` reads `-d`. */
  lemma NegativeAfterSign(t: string, d: string)
    requires Strip(t) == t && |t| > 0 && t[0] == '-'
    requires TrimStart(t[1..]) == d && |d| > 0 && AllDigits(d)
    ensures ParseInt(t) == Success(-(DigitsValue(d) as int))
  {
  }

  /** `int(str(k)) == k` */
  lemma ParseIntStr(k: int)
    ensures ParseInt(Str(k)) == Success(k)
  {
    if k < 0 {
      ParseIntNegativeDigits(NatStr(-k), -k);
    } else {
      ParseIntDigits(NatStr(k));
    }
  }

  function Zeros(n: nat): (s: string)
    ensures |s| == n && AllDigits(s)
    ensures forall i :: 0 <= i < n ==> s[i] == '0'
  {
    if n == 0 then "" else Zeros(n - 1) + "0"
  }

  /** Leading zeros do not change the value of a digit string. */
  lemma {:induction false} LeadingZeros(n: nat, s: string)
    requires AllDigits(s)
    ensures AllDigits(Zeros(n) + s) && DigitsValue(Zeros(n) + s) == DigitsValue(s)
    decreases |s|
  {
    var t := Zeros(n) + s;
    if |s| == 0 {
      assert t == Zeros(n);
      ZerosValue(n);
    } else {
      assert t[..|t| - 1] == Zeros(n) + s[..|s| - 1];
      LeadingZeros(n, s[..|s| - 1]);
    }
  }

  lemma {:induction false} ZerosValue(n: nat)
    ensures DigitsValue(Zeros(n)) == 0
  {
    if n > 0 {
      var z := Zeros(n);
      assert z == Zeros(n - 1) + "0";
      assert z[..n - 1] == Zeros(n - 1);
      ZerosValue(n - 1);
      assert DigitsValue(z) == 10 * DigitsValue(z[..n - 1]) + DigitValue(z[n - 1]);
    }
  }

  /** `s.zfill(width)`: zeros on the left up to `width` characters, placed after a
      leading sign if there is one; a string already that long is returned as is. */
  function ZFill(s: string, width: nat): (r: string)
    ensures |r| == if |s| >= width then |s| else width
    ensures |s| > 0 ==> r[|r| - |s| + 1..] == s[1..] && (r[0] == s[0] || r[0] == '0')
    ensures AllDigits(s) ==> AllDigits(r) && r[|r| - |s|..] == s
  {
    if |s| >= width then s
    else if |s| > 0 && (s[0] == '+' || s[0] == '-') then [s[0]] + Zeros(width - |s|) + s[1..]
    else Zeros(width - |s|) + s
  }

  /** `int(str(k).zfill(width)) == k`: padding never changes the number. */
  lemma ParseIntZFillStr(k: int, width: nat)
    ensures ParseInt(ZFill(Str(k), width)) == Success(k)
  {
    if |Str(k)| >= width {
      ParseIntStr(k);
    } else if k < 0 {
      ZFillNegative(-k, width);
    } else {
      ZFillNonNegative(k, width);
    }
  }

  lemma ZFillNonNegative(n: nat, width: nat)
    requires |NatStr(n)| < width
    ensures ParseInt(ZFill(Str(n), width)) == Success(n)
  {
    var s := NatStr(n);
    assert Str(n) == s;
    assert IsDigit(s[0]);
    assert ZFill(s, width) == Zeros(width - |s|) + s;
    LeadingZeros(width - |s|, s);
    ParseIntDigits(Zeros(width - |s|) + s);
  }

  lemma ZFillNegative(n: nat, width: nat)
    requires n > 0 && |Str(-(n as int))| < width
    ensures ParseInt(ZFill(Str(-(n as int)), width)) == Success(-(n as int))
  {
    StrNegative(n);
    var k := width - |NatStr(n)| - 1;
    var padded := "-" + (Zeros(k) + NatStr(n));
    ZFillNegativeShape(n, width);
    assert ZFill(Str(-(n as int)), width) == padded;
    PaddedNegativeValue(n, k);
    assert ParseInt(padded) == Success(-(n as int));
  }

  /** `str(-n).zfill(width)` is the sign, the zeros, then the digits of `n`. */
  lemma ZFillNegativeShape(n: nat, width: nat)
    requires n > 0 && |NatStr(n)| + 1 < width
    ensures ZFill(Str(-(n as int)), width) == "-" + (Zeros(width - |NatStr(n)| - 1) + NatStr(n))
  {
    StrNegative(n);
    ZFillSigned(NatStr(n), width);
  }

  /** `str(-n)` for a positive `n` is the sign followed by the digits of `n`. */
  lemma StrNegative(n: nat)
    requires n > 0
    ensures Str(-(n as int)) == "-" + NatStr(n)
  {
  }

  /** The digits of `n` after the sign and any number of zeros read back as `-n`. */
  lemma PaddedNegativeValue(n: nat, k: nat)
    ensures ParseInt("-" + (Zeros(k) + NatStr(n))) == Success(-(n as int))
  {
    LeadingZeros(k, NatStr(n));
    PaddedNegative(Zeros(k), NatStr(n), n);
  }

  /** Digits after the sign, preceded by padding, whose value is `v` read back as `-v`. */
  lemma PaddedNegative(pad: string, digits: string, v: nat)
    requires |digits| > 0 && AllDigits(pad + digits) && DigitsValue(pad + digits) == v
    ensures ParseInt("-" + (pad + digits)) == Success(-(v as int))
  {
    ParseIntNegativeDigits(pad + digits, v);
  }

  /** How `zfill` pads a negative number: the sign, then the zeros, then the digits. */
  lemma ZFillSigned(digits: string, width: nat)
    requires |digits| + 1 < width
    ensures ZFill("-" + digits, width) == "-" + (Zeros(width - |digits| - 1) + digits)
  {
    var s := "-" + digits;
    assert s[0] == '-' && s[1..] == digits;
  }

  /** The length of the first line of `s`, its newline included when it has one. */
  function LineEnd(s: string): (k: nat)
    requires |s| > 0
    ensures 0 < k <= |s|
    ensures forall i :: 0 <= i < k - 1 ==> s[i] != '\n'
    ensures k < |s| ==> s[k - 1] == '\n'
  {
    if s[0] == '\n' || |s| == 1 then 1 else 1 + LineEnd(s[1..])
  }

  /** `f.readlines()` on a file holding `s`: each line keeps its newline; the last line
      lacks one when the file does not end with a newline. */
  function ReadLines(s: string): (r: seq<string>)
    decreases |s|
  {
    if |s| == 0 then [] else var k := LineEnd(s); [s[..k]] + ReadLines(s[k..])
  }

  /** Every line `readlines` returns is non-empty and has a newline only at its end, and
      every line but the last has one there. */
  lemma {:induction false} ReadLinesShape(s: string)
    ensures var r := ReadLines(s);
            && |r| <= |s| && (|r| == 0 <==> |s| == 0)
            && (forall i :: 0 <= i < |r| ==> |r[i]| > 0 && '\n' !in r[i][..|r[i]| - 1])
            && (forall i :: 0 <= i < |r| - 1 ==> r[i][|r[i]| - 1] == '\n')
    decreases |s|
  {
    if |s| > 0 {
      var k := LineEnd(s);
      ReadLinesShape(s[k..]);
      var rest := ReadLines(s[k..]);
      var r := ReadLines(s);
      assert r == [s[..k]] + rest;
      var line := s[..k];
      assert forall i :: 0 <= i < k - 1 ==> line[i] != '\n';
      assert '\n' !in line[..k - 1];
      forall i | 0 <= i < |r| ensures |r[i]| > 0 && '\n' !in r[i][..|r[i]| - 1] {
        if i > 0 { assert r[i] == rest[i - 1]; }
      }
      forall i | 0 <= i < |r| - 1 ensures r[i][|r[i]| - 1] == '\n' {
        if i > 0 { assert r[i] == rest[i - 1]; } else { assert k < |s|; }
      }
    }
  }

  /** The lines of a file put back together. */
  function ConcatLines(lines: seq<string>): string {
    if |lines| == 0 then "" else lines[0] + ConcatLines(lines[1..])
  }

  /** `''.join(f.readlines())` is the file's text: `readlines` drops and rewrites
      nothing. */
  lemma {:induction false} ReadLinesConcat(s: string)
    ensures ConcatLines(ReadLines(s)) == s
    decreases |s|
  {
    if |s| > 0 {
      var k := LineEnd(s);
      ReadLinesConcat(s[k..]);
      var r := ReadLines(s);
      assert r == [s[..k]] + ReadLines(s[k..]);
      assert r[1..] == ReadLines(s[k..]);
      assert s == s[..k] + s[k..];
    }
  }

  /** Text ending with a line break (or empty): lines after it start afresh. */
  predicate EndsLine(s: string) {
    |s| == 0 || s[|s| - 1] == '\n'
  }

  lemma {:induction false} LineEndOfPrefix(a: string, b: string)
    requires |a| > 0 && (LineEnd(a) < |a| || a[|a| - 1] == '\n')
    ensures LineEnd(a + b) == LineEnd(a)
    decreases |a|
  {
    if a[0] == '\n' || |a| == 1 {
    } else {
      assert (a + b)[1..] == a[1..] + b;
      LineEndOfPrefix(a[1..], b);
    }
  }

  /** Reading a file whose first part ends a line: the lines of each part, in order. */
  lemma {:induction false} ReadLinesAppend(a: string, b: string)
    requires EndsLine(a)
    ensures ReadLines(a + b) == ReadLines(a) + ReadLines(b)
    decreases |a|
  {
    if |a| == 0 {
      assert a + b == b;
    } else {
      var k := LineEnd(a);
      LineEndOfPrefix(a, b);
      assert (a + b)[..k] == a[..k];
      assert (a + b)[k..] == a[k..] + b;
      ReadLinesAppend(a[k..], b);
    }
  }

  /** The file written by `for m in ms: fp.write(m + '\n')`. */
  function JoinLines(ms: seq<string>): (s: string)
    ensures EndsLine(s)
  {
    if |ms| == 0 then "" else JoinLines(ms[..|ms| - 1]) + ms[|ms| - 1] + "\n"
  }

  /** Reading back a file of newline-free values written one per line gives one line
      per value, each value followed by its newline. */
  lemma {:induction false} ReadJoinLines(ms: seq<string>)
    requires forall i :: 0 <= i < |ms| ==> '\n' !in ms[i]
    ensures |ReadLines(JoinLines(ms))| == |ms|
    ensures forall i :: 0 <= i < |ms| ==> ReadLines(JoinLines(ms))[i] == ms[i] + "\n"
    decreases |ms|
  {
    if |ms| > 0 {
      var front := ms[..|ms| - 1];
      var m := ms[|ms| - 1];
      ReadJoinLines(front);
      ReadLinesAppend(JoinLines(front), m + "\n");
      assert JoinLines(ms) == JoinLines(front) + (m + "\n");
      ReadOneLine(m);
      var earlier := ReadLines(JoinLines(front));
      var lines := ReadLines(JoinLines(ms));
      assert lines == earlier + [m + "\n"];
      forall i | 0 <= i < |ms| ensures lines[i] == ms[i] + "\n" {
        if i < |front| {
          assert lines[i] == earlier[i] && front[i] == ms[i];
        }
      }
    }
  }

  lemma ReadOneLine(m: string)
    requires '\n' !in m
    ensures ReadLines(m + "\n") == [m + "\n"]
  {
    var s := m + "\n";
    assert forall i :: 0 <= i < |m| ==> s[i] == m[i];
    assert s[|s| - 1] == '\n';
    assert LineEnd(s) == |s|;
    assert s[..|s|] == s;
    assert s[|s|..] == "";
    assert ReadLines(s) == [s[..|s|]] + ReadLines(s[|s|..]);
  }

  /** `pat in s`: `pat` occurs somewhere in `s` as a substring. */
  predicate Contains(s: string, pat: string)
    decreases |s|
  {
    (|pat| <= |s| && s[..|pat|] == pat) || (|s| > 0 && Contains(s[1..], pat))
  }

  /** `pat` occurs in `s` starting at position `i`. */
  predicate OccursAt(s: string, pat: string, i: int) {
    0 <= i && i + |pat| <= |s| && s[i..i + |pat|] == pat
  }

  /** `pat in s` holds exactly when `pat` occurs at some position of `s`. */
  lemma {:induction false} ContainsOccurs(s: string, pat: string)
    ensures Contains(s, pat) <==> exists i :: OccursAt(s, pat, i)
    decreases |s|
  {
    if |s| > 0 {
      ContainsOccurs(s[1..], pat);
      if Contains(s[1..], pat) {
        var i :| OccursAt(s[1..], pat, i);
        assert s[1..][i..i + |pat|] == s[i + 1..i + 1 + |pat|];
        assert OccursAt(s, pat, i + 1);
      }
      if |pat| <= |s| && s[..|pat|] == pat {
        assert OccursAt(s, pat, 0);
      }
      if exists i :: OccursAt(s, pat, i) {
        var i :| OccursAt(s, pat, i);
        if i > 0 {
          assert s[1..][i - 1..i - 1 + |pat|] == s[i..i + |pat|];
          assert OccursAt(s[1..], pat, i - 1);
        }
      }
    } else {
      if exists i :: OccursAt(s, pat, i) {
        var i :| OccursAt(s, pat, i);
        assert i == 0 && |pat| == 0;
      }
      if Contains(s, pat) {
        assert OccursAt(s, pat, 0);
      }
    }
  }
}
