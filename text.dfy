/** Python built-ins the seed script leans on, stated over `string`:
    `str.split()`, `int(text, base)`, slicing by one character and `'%i'`. */
module Text {

  datatype Option<T> = None | Some(value: T)

  /** Python's `str.isspace()`: the characters `str.split()` with no argument splits on. */
  predicate IsSpace(c: char)
  {
    ('\t' <= c <= '\r') || ('\U{1C}' <= c <= '\U{1F}') || c == ' ' ||
    c == '\U{85}' || c == '\U{A0}' || c == '\U{1680}' ||
    ('\U{2000}' <= c <= '\U{200A}') || c == '\U{2028}' || c == '\U{2029}' ||
    c == '\U{202F}' || c == '\U{205F}' || c == '\U{3000}'
  }

  /** A decimal digit, `0` to `9`. */
  predicate IsDigit(c: char) { '0' <= c <= '9' }

  /** Only decimal digits (the same test as `DigitsOf(s, 10)`). */
  predicate AllDigits(s: string) { DigitsOf(s, 10) }

  predicate NoSpace(s: string) { forall i :: 0 <= i < |s| ==> !IsSpace(s[i]) }

  /** The character classes that splitting and the address patterns scan for. */
  datatype CharClass = Space | NonSpace | Digit | V6Host

  predicate In(c: char, k: CharClass)
  {
    match k
    case Space => IsSpace(c)
    case NonSpace => !IsSpace(c)
    case Digit => IsDigit(c)
    case V6Host => ('0' <= c <= '9') || ('a' <= c <= 'z') || c == ':'
  }

  /** Length of the longest prefix of `s` whose characters are all in class `p`. */
  function Run(s: string, p: CharClass): (n: nat)
    ensures n <= |s|
    ensures forall i :: 0 <= i < n ==> In(s[i], p)
    ensures n < |s| ==> !In(s[n], p)
  {
    if s != [] && In(s[0], p) then 1 + Run(s[1..], p) else 0
  }

  /** `str.split()`: the maximal runs of non-whitespace characters, in order. */
  function Split(s: string): (r: seq<string>)
    ensures forall i :: 0 <= i < |r| ==> r[i] != [] && NoSpace(r[i])
    decreases |s|
  {
    var t := s[Run(s, Space)..];
    if t == [] then []
    else
      var w := Run(t, NonSpace);
      WordOf(t);
      [t[..w]] + Split(t[w..])
  }

  /** The run of non-whitespace at the start of a text that starts with one. */
  lemma WordOf(t: string)
    requires t != [] && !IsSpace(t[0])
    ensures Run(t, NonSpace) >= 1
    ensures NoSpace(t[..Run(t, NonSpace)])
  {
    var w := Run(t, NonSpace);
    assert In(t[0], NonSpace);
    forall i | 0 <= i < w ensures !IsSpace(t[..w][i]) { assert In(t[i], NonSpace); }
  }

  /** Words separated by one space each (and followed by one): the shape a report line has. */
  function Join(words: seq<string>): string
  {
    if words == [] then "" else words[0] + " " + Join(words[1..])
  }

  lemma SplitSkipsSpace(c: char, s: string)
    requires IsSpace(c)
    ensures Split([c] + s) == Split(s)
  {
    var u := [c] + s;
    assert u[1..] == s;
    assert Run(u, Space) == 1 + Run(s, Space);
    assert u[Run(u, Space)..] == s[Run(s, Space)..];
  }

  /** Splitting a line built from whitespace-free words gives the words back. */
  lemma {:induction false} SplitJoin(words: seq<string>)
    requires forall i :: 0 <= i < |words| ==> words[i] != [] && NoSpace(words[i])
    ensures Split(Join(words)) == words
  {
    if words != [] {
      var rest := words[1..];
      assert Join(words) == words[0] + " " + Join(rest);
      assert forall i :: 0 <= i < |rest| ==> rest[i] == words[i + 1];
      SplitWord(words[0], ' ', Join(rest));
      SplitJoin(rest);
      assert [words[0]] + rest == words;
    }
  }

  /** A word followed by any whitespace character splits off as the first token. */
  lemma SplitWord(w: string, c: char, rest: string)
    requires w != [] && NoSpace(w) && IsSpace(c)
    ensures Split(w + [c] + rest) == [w] + Split(rest)
  {
    var line := w + [c] + rest;
    assert line == w + ([c] + rest);
    assert line[0] == w[0];
    assert Run(line, Space) == 0;
    assert line[0..] == line;
    RunStopsAt(w, [c] + rest, NonSpace);
    assert line[..|w|] == w;
    assert line[|w|..] == [c] + rest;
    SplitSkipsSpace(c, rest);
  }

  /** A word with nothing after it is the last token. */
  lemma SplitLastWord(w: string)
    requires w != [] && NoSpace(w)
    ensures Split(w) == [w]
  {
    assert Run(w, Space) == 0;
    assert w[0..] == w;
    RunWhole(w, NonSpace);
    assert w[..|w|] == w && w[|w|..] == [];
  }

  /** A run over a prefix whose characters all satisfy `p` stops where the prefix does,
      when the next character fails `p`. */
  lemma {:induction false} RunStopsAt(a: string, b: string, p: CharClass)
    requires forall i :: 0 <= i < |a| ==> In(a[i], p)
    requires b != [] && !In(b[0], p)
    ensures Run(a + b, p) == |a|
  {
    if a != [] {
      assert (a + b)[1..] == a[1..] + b;
      RunStopsAt(a[1..], b, p);
    }
  }

  lemma {:induction false} RunWhole(a: string, p: CharClass)
    requires forall i :: 0 <= i < |a| ==> In(a[i], p)
    ensures Run(a, p) == |a|
  {
    if a != [] {
      RunWhole(a[1..], p);
    }
  }

  /** Python `s[1:]`: drop the first character, empty when there is none. */
  function DropFirst(s: string): (r: string)
    ensures |s| > 0 ==> [s[0]] + r == s
    ensures |s| == 0 ==> r == []
  {
    if |s| >= 1 then s[1..] else []
  }

  /** Python `s[:-1]`: drop the last character, empty when there is none. */
  function DropLast(s: string): (r: string)
    ensures |s| > 0 ==> r + [s[|s| - 1]] == s
    ensures |s| == 0 ==> r == []
  {
    if |s| >= 1 then s[..|s| - 1] else []
  }

  /** Python `str.strip()` with no argument: remove leading and trailing whitespace. */
  function Strip(s: string): (r: string)
    ensures |r| <= |s|
    ensures r != [] ==> !IsSpace(r[0]) && !IsSpace(r[|r| - 1])
    ensures NoSpace(s) ==> r == s
    decreases |s|
  {
    if s == [] then []
    else if IsSpace(s[0]) then Strip(s[1..])
    else if IsSpace(s[|s| - 1]) then Strip(s[..|s| - 1])
    else s
  }

  /** `s[i..j]` is the middle of `s`: everything before `i` and from `j` on is whitespace. */
  ghost predicate Trimmed(s: string, i: int, j: int)
  {
    0 <= i <= j <= |s| && forall k :: 0 <= k < i || j <= k < |s| ==> IsSpace(s[k])
  }

  /** `strip()` keeps a middle slice of the text whole and removes only whitespace
      around it. */
  lemma {:induction false} StripSlice(s: string)
    ensures exists i, j :: Trimmed(s, i, j) && Strip(s) == s[i..j]
    decreases |s|
  {
    if s == [] {
      assert Trimmed(s, 0, 0) && Strip(s) == s[0..0];
    } else if IsSpace(s[0]) {
      StripSlice(s[1..]);
      var i, j :| Trimmed(s[1..], i, j) && Strip(s[1..]) == s[1..][i..j];
      TrimmedFront(s, i, j);
    } else if IsSpace(s[|s| - 1]) {
      StripSlice(s[..|s| - 1]);
      var i, j :| Trimmed(s[..|s| - 1], i, j) && Strip(s[..|s| - 1]) == s[..|s| - 1][i..j];
      TrimmedBack(s, i, j);
    } else {
      assert Trimmed(s, 0, |s|) && Strip(s) == s[0..|s|];
    }
  }

  lemma TrimmedFront(s: string, i: int, j: int)
    requires s != [] && IsSpace(s[0]) && Trimmed(s[1..], i, j)
    ensures Trimmed(s, i + 1, j + 1) && s[1..][i..j] == s[i + 1..j + 1]
  {
    forall k | 0 <= k < i + 1 || j + 1 <= k < |s| ensures IsSpace(s[k]) {
      if k > 0 { assert s[k] == s[1..][k - 1]; }
    }
  }

  lemma TrimmedBack(s: string, i: int, j: int)
    requires s != [] && IsSpace(s[|s| - 1]) && Trimmed(s[..|s| - 1], i, j)
    ensures Trimmed(s, i, j) && s[..|s| - 1][i..j] == s[i..j]
  {
    forall k | 0 <= k < i || j <= k < |s| ensures IsSpace(s[k]) {
      if k < |s| - 1 { assert s[k] == s[..|s| - 1][k]; }
    }
  }

  /** The value Python gives a digit or letter as a digit of a number (`int()` accepts
      bases up to 36); 36 for every other character. */
  function CharValue(c: char): (v: nat)
    ensures v <= 36
  {
    if '0' <= c <= '9' then c as int - '0' as int
    else if 'a' <= c <= 'z' then c as int - 'a' as int + 10
    else if 'A' <= c <= 'Z' then c as int - 'A' as int + 10
    else 36
  }

  predicate IsDigitOf(c: char, base: nat) { CharValue(c) < base }

  predicate DigitsOf(s: string, base: nat) { forall i :: 0 <= i < |s| ==> IsDigitOf(s[i], base) }

  /** The number that the digits `s` denote in `base`, most significant first. */
  function Value(s: string, base: nat): nat
    requires DigitsOf(s, base)
  {
    if s == [] then 0 else Value(s[..|s| - 1], base) * base + CharValue(s[|s| - 1])
  }

  /** `int()` of a decimal digit string (what `\d+` matched). */
  function DigitsValue(s: string): nat
    requires AllDigits(s)
  {
    Value(s, 10)
  }

  /** What Python accepts as the digits of an integer: digits in `base`, each pair of which
      may be separated by one underscore: `digit (["_"] digit)*`. */
  predicate Grouped(s: string, base: nat)
  {
    s != [] && IsDigitOf(s[0], base) && IsDigitOf(s[|s| - 1], base) &&
    (forall i :: 0 <= i < |s| ==> s[i] == '_' || IsDigitOf(s[i], base)) &&
    (forall i :: 0 <= i < |s| - 1 ==> s[i] == '_' ==> s[i + 1] != '_')
  }

  function RemoveUnderscores(s: string): (r: string)
    ensures forall i :: 0 <= i < |r| ==> r[i] != '_'
  {
    if s == [] then []
    else if s[0] == '_' then RemoveUnderscores(s[1..])
    else [s[0]] + RemoveUnderscores(s[1..])
  }

  /** Underscores are removed one character at a time: the other characters are kept,
      in order. */
  lemma {:induction false} RemoveUnderscoresConcat(a: string, b: string)
    ensures RemoveUnderscores(a + b) == RemoveUnderscores(a) + RemoveUnderscores(b)
  {
    if a == [] {
      assert a + b == b;
    } else {
      assert (a + b)[0] == a[0] && (a + b)[1..] == a[1..] + b;
      RemoveUnderscoresConcat(a[1..], b);
    }
  }

  /** One character: an underscore goes, anything else stays. */
  lemma RemoveUnderscoresChar(c: char)
    ensures RemoveUnderscores([c]) == if c == '_' then [] else [c]
  {
    assert [c][1..] == [];
  }

  lemma {:induction false} RemoveUnderscoresDigits(s: string, base: nat)
    requires forall i :: 0 <= i < |s| ==> s[i] == '_' || IsDigitOf(s[i], base)
    ensures DigitsOf(RemoveUnderscores(s), base)
  {
    if s != [] {
      RemoveUnderscoresDigits(s[1..], base);
    }
  }

  /** After the sign: for base 16 an optional `0x`/`0X` prefix, which may be followed by
      one underscore; then the grouped digits. */
  function UnsignedValue(s: string, base: nat): Option<nat>
  {
    var body :=
      if base == 16 && |s| >= 2 && s[0] == '0' && (s[1] == 'x' || s[1] == 'X') then
        (if |s| >= 3 && s[2] == '_' then s[3..] else s[2..])
      else s;
    if Grouped(body, base) then
      RemoveUnderscoresDigits(body, base);
      Some(Value(RemoveUnderscores(body), base))
    else None
  }

  /** Python `int(s, base)` for base 10 and 16 on ASCII text: surrounding whitespace is
      stripped, one optional sign, then the digits; anything else raises `ValueError`,
      modelled as `None`. */
  function PyInt(s: string, base: nat): Option<int>
    requires base == 10 || base == 16
  {
    SignedValue(Strip(s), base)
  }

  /** Stripped text: one optional sign, then the digits. */
  function SignedValue(t: string, base: nat): Option<int>
    requires base == 10 || base == 16
  {
    var neg := t != [] && t[0] == '-';
    var digits := if t != [] && (t[0] == '-' || t[0] == '+') then t[1..] else t;
    match UnsignedValue(digits, base)
    case None => None
    case Some(v) => var x: int := if neg then -(v as int) else v; Some(x)
  }

  function DigitChar(d: nat): (c: char)
    requires d < 10
    ensures IsDigit(c) && CharValue(c) == d
  {
    ['0', '1', '2', '3', '4', '5', '6', '7', '8', '9'][d]
  }

  /** `'%i' % n` for a non-negative `n`: its decimal digits, no leading zero. */
  function Decimal(n: nat): (r: string)
    ensures r != [] && AllDigits(r)
    ensures |r| > 1 ==> r[0] != '0'
  {
    if n < 10 then [DigitChar(n)] else Decimal(n / 10) + [DigitChar(n % 10)]
  }

  function HexChar(d: nat): (c: char)
    requires d < 16
    ensures CharValue(c) == d
  {
    ['0', '1', '2', '3', '4', '5', '6', '7', '8', '9', 'a', 'b', 'c', 'd', 'e', 'f'][d]
  }

  /** `'%x' % n` for a non-negative `n`: its lower-case hexadecimal digits, no leading
      zero. */
  function Hex(n: nat): (r: string)
    ensures r != [] && DigitsOf(r, 16)
    ensures |r| > 1 ==> r[0] != '0'
  {
    if n < 16 then [HexChar(n)] else Hex(n / 16) + [HexChar(n % 16)]
  }

  /** `'%i' % n` for any integer: a minus sign, then the digits of `|n|`. */
  function DecimalText(n: int): string
  {
    if n < 0 then ['-'] + Decimal(-n) else Decimal(n)
  }

  /** `'%x' % n` for any integer. */
  function HexText(n: int): string
  {
    if n < 0 then ['-'] + Hex(-n) else Hex(n)
  }

  lemma {:induction false} HexValue(n: nat)
    ensures Value(Hex(n), 16) == n
  {
    var d := Hex(n);
    if n < 16 {
      assert d == [HexChar(n)];
      assert d[..0] == [];
      assert Value(d, 16) == Value(d[..0], 16) * 16 + CharValue(d[0]);
    } else {
      var h := Hex(n / 16);
      assert d == h + [HexChar(n % 16)];
      assert d[..|d| - 1] == h;
      HexValue(n / 16);
      assert Value(d, 16) == Value(h, 16) * 16 + CharValue(d[|d| - 1]);
    }
  }

  /** Reading the printed number back gives the number. */
  lemma {:induction false} DecimalValue(n: nat)
    ensures DigitsValue(Decimal(n)) == n
  {
    var d := Decimal(n);
    if n < 10 {
      assert d == [DigitChar(n)];
      assert d[..0] == [];
      assert Value(d, 10) == Value(d[..0], 10) * 10 + CharValue(d[0]);
    } else {
      var h := Decimal(n / 10);
      assert d == h + [DigitChar(n % 10)];
      assert d[..|d| - 1] == h;
      DecimalValue(n / 10);
      assert Value(d, 10) == Value(h, 10) * 10 + CharValue(d[|d| - 1]);
    }
  }

  lemma {:induction false} NoUnderscoreInDigits(s: string)
    requires AllDigits(s)
    ensures RemoveUnderscores(s) == s
  {
    if s != [] {
      assert AllDigits(s[1..]);
      NoUnderscoreInDigits(s[1..]);
      assert s == [s[0]] + s[1..];
    }
  }

  /** Plain decimal digits, as Python's `int()` reads them. */
  lemma DigitsAreGrouped(d: string)
    requires d != [] && AllDigits(d)
    ensures Grouped(d, 10) && NoSpace(d)
    ensures UnsignedValue(d, 10) == Some(DigitsValue(d))
  {
    assert forall i :: 0 <= i < |d| ==> IsDigit(d[i]);
    NoUnderscoreInDigits(d);
  }

  /** `int()` of the printed text of a number gives the number. */
  lemma PyIntDecimal(n: nat)
    ensures PyInt(Decimal(n), 10) == Some(n)
  {
    var d := Decimal(n);
    DecimalValue(n);
    assert DigitsValue(d) == n;
    PyIntUnsigned(d);
  }

  lemma PyIntUnsigned(d: string)
    requires d != [] && AllDigits(d)
    ensures PyInt(d, 10) == Some(DigitsValue(d))
  {
    assert Strip(d) == d && UnsignedValue(d, 10) == Some(DigitsValue(d)) by { DigitsAreGrouped(d); }
    assert d[0] != '-' && d[0] != '+' by { assert IsDigit(d[0]); }
    PyIntUnsignedText(d, 10, DigitsValue(d));
  }

  lemma PyIntSigned(sign: char, d: string)
    requires sign == '-' || sign == '+'
    requires d != [] && AllDigits(d)
    ensures PyInt([sign] + d, 10) == Some(if sign == '-' then -(DigitsValue(d) as int) else DigitsValue(d))
  {
    var v := DigitsValue(d);
    UnsignedDigits(d);
    StripSigned(sign, d);
    PyIntSignedText(sign, d, v);
    assert PyInt([sign] + d, 10) == Some(if sign == '-' then -(v as int) else v);
  }

  /** Plain decimal digits read as their value. */
  lemma UnsignedDigits(d: string)
    requires d != [] && AllDigits(d)
    ensures UnsignedValue(d, 10) == Some(DigitsValue(d))
  {
    DigitsAreGrouped(d);
  }

  /** A sign then digits, with nothing for `strip()` to remove, read as the signed value. */
  lemma PyIntSignedText(sign: char, d: string, v: nat)
    requires sign == '-' || sign == '+'
    requires UnsignedValue(d, 10) == Some(v) && Strip([sign] + d) == [sign] + d
    ensures PyInt([sign] + d, 10) == Some(if sign == '-' then -(v as int) else v)
  {
    SignedValueOf(sign, d, 10, v);
  }

  /** The sign is taken off and the rest read as unsigned digits. */
  lemma SignedValueOf(sign: char, d: string, base: nat, v: nat)
    requires base == 10 || base == 16
    requires sign == '-' || sign == '+'
    requires UnsignedValue(d, base) == Some(v)
    ensures SignedValue([sign] + d, base) == Some(if sign == '-' then -(v as int) else v)
  {
    assert ([sign] + d)[1..] == d;
  }

  /** A signed number holds no whitespace, so `strip()` keeps it whole. */
  lemma StripSigned(sign: char, d: string)
    requires sign == '-' || sign == '+'
    requires AllDigits(d)
    ensures Strip([sign] + d) == [sign] + d
  {
    var t := [sign] + d;
    forall i | 0 <= i < |t| ensures !IsSpace(t[i]) {
      if i > 0 { assert t[i] == d[i - 1]; assert IsDigit(d[i - 1]); }
    }
    assert NoSpace(t);
  }

  /** `int('%i' % n) == n` for every integer. */
  lemma PyIntDecimalText(n: int)
    ensures PyInt(DecimalText(n), 10) == Some(n)
  {
    if n < 0 {
      PyIntNegativeDecimal(-n);
      assert DecimalText(n) == ['-'] + Decimal(-n);
    } else {
      PyIntDecimal(n);
      assert DecimalText(n) == Decimal(n);
    }
  }

  /** `int('-' + '%i' % m) == -m`. */
  lemma PyIntNegativeDecimal(m: nat)
    ensures PyInt(['-'] + Decimal(m), 10) == Some(-(m as int))
  {
    DecimalValue(m);
    PyIntMinus(Decimal(m), m);
  }

  lemma PyIntMinus(d: string, v: nat)
    requires d != [] && AllDigits(d) && DigitsValue(d) == v
    ensures PyInt(['-'] + d, 10) == Some(-(v as int))
  {
    UnsignedDigits(d);
    StripSigned('-', d);
    PyIntSignedText('-', d, v);
  }

  /** `int('%x' % n, 16) == n` for every integer. */
  lemma PyIntHexText(n: int)
    ensures PyInt(HexText(n), 16) == Some(n)
  {
    if n < 0 {
      PyIntNegativeHexOf(-n);
      assert HexText(n) == ['-'] + Hex(-n);
    } else {
      PyIntHexOf(n);
      assert HexText(n) == Hex(n);
    }
  }

  lemma PyIntHexOf(m: nat)
    ensures PyInt(Hex(m), 16) == Some(m)
  {
    HexValue(m);
    PyIntHexValue(Hex(m), m);
  }

  lemma PyIntHexValue(d: string, v: nat)
    requires d != [] && DigitsOf(d, 16) && Value(d, 16) == v
    ensures PyInt(d, 16) == Some(v)
  {
    PyIntHex(d);
  }

  lemma PyIntNegativeHexOf(m: nat)
    ensures PyInt(['-'] + Hex(m), 16) == Some(-(m as int))
  {
    HexValue(m);
    PyIntNegativeHex(Hex(m), m);
  }

  /** `int('-' + d, 16)` of hexadecimal digits `d` is minus their value. */
  lemma PyIntNegativeHex(d: string, v: nat)
    requires d != [] && DigitsOf(d, 16) && Value(d, 16) == v
    ensures PyInt(['-'] + d, 16) == Some(-(v as int))
  {
    assert UnsignedValue(d, 16) == Some(v) by { HexUnsigned(d); }
    StripMinusHex(d);
    NegativeHexText(d, v);
  }

  lemma NegativeHexText(d: string, v: nat)
    requires UnsignedValue(d, 16) == Some(v) && Strip(['-'] + d) == ['-'] + d
    ensures PyInt(['-'] + d, 16) == Some(-(v as int))
  {
    SignedValueOf('-', d, 16, v);
  }

  lemma StripMinusHex(d: string)
    requires DigitsOf(d, 16)
    ensures Strip(['-'] + d) == ['-'] + d
  {
    HexDigitsPlain(d);
    var t := ['-'] + d;
    forall i | 0 <= i < |t| ensures !IsSpace(t[i]) {
      if i > 0 { assert t[i] == d[i - 1]; }
    }
    assert NoSpace(t);
  }

  /** `int(s, 16)` of hexadecimal digits, with or without the `0x` prefix, is their value. */
  lemma PyIntHex(d: string)
    requires d != [] && DigitsOf(d, 16)
    ensures PyInt(d, 16) == Some(Value(d, 16))
    ensures PyInt("0x" + d, 16) == Some(Value(d, 16))
  {
    HexUnsigned(d);
    PyIntUnsignedText(d, 16, Value(d, 16));
    PyIntUnsignedText("0x" + d, 16, Value(d, 16));
  }

  /** Text with nothing for `strip()` to remove and no sign reads as its unsigned value. */
  lemma PyIntUnsignedText(t: string, base: nat, v: nat)
    requires base == 10 || base == 16
    requires Strip(t) == t && t != [] && t[0] != '-' && t[0] != '+'
    requires UnsignedValue(t, base) == Some(v)
    ensures PyInt(t, base) == Some(v)
  {
    UnsignedValueOf(t, base, v);
  }

  /** Text without a sign is read as unsigned digits. */
  lemma UnsignedValueOf(t: string, base: nat, v: nat)
    requires base == 10 || base == 16
    requires t != [] && t[0] != '-' && t[0] != '+'
    requires UnsignedValue(t, base) == Some(v)
    ensures SignedValue(t, base) == Some(v)
  {
  }

  /** The digits read without a sign, with or without the prefix; neither text holds
      whitespace or starts with a sign. */
  lemma HexUnsigned(d: string)
    requires d != [] && DigitsOf(d, 16)
    ensures UnsignedValue(d, 16) == Some(Value(d, 16)) && UnsignedValue("0x" + d, 16) == Some(Value(d, 16))
    ensures Strip(d) == d && Strip("0x" + d) == "0x" + d
    ensures d[0] != '-' && d[0] != '+' && ("0x" + d)[0] == '0'
  {
    HexDigitsPlain(d);
    assert Grouped(d, 16);
    var t := "0x" + d;
    assert NoSpace(t) by {
      forall i | 0 <= i < |t| ensures !IsSpace(t[i]) { if i >= 2 { assert t[i] == d[i - 2]; } }
    }
    assert t[2..] == d;
    assert d[0] != '_';
    if |d| >= 2 && d[0] == '0' {
      assert d[1] != 'x' && d[1] != 'X';
    }
  }

  /** Hexadecimal digits hold no whitespace and no underscore. */
  lemma {:induction false} HexDigitsPlain(d: string)
    requires DigitsOf(d, 16)
    ensures NoSpace(d) && RemoveUnderscores(d) == d
    ensures forall i :: 0 <= i < |d| ==> d[i] != '_' && d[i] != 'x' && d[i] != 'X' && d[i] != '-' && d[i] != '+'
  {
    if d != [] {
      HexDigitsPlain(d[1..]);
      assert [d[0]] + d[1..] == d;
      assert forall i :: 0 < i < |d| ==> d[i] == d[1..][i - 1];
    }
  }
}
