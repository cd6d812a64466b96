/** lib/stdio.c, integer conversions, and lib/stdlib.c, atoi. */
module Printf {

  import opened Wrappers
  import opened Sequences
  import opened Powers
  import opened Arith64

  datatype Flags = Flags(minus: bool, plus: bool, space: bool, pound: bool, zero: bool, group: bool)

  /** struct printf_conversion without its type; a precision of -1 means none. */
  datatype Conversion = Conversion(flags: Flags, width: nat, precision: int)

  /** struct integer_base */
  datatype Radix = Dec | Oct | Hex(upper: bool)

  function Base(r: Radix): nat {
    match r
    case Dec => 10
    case Oct => 8
    case Hex(_) => 16
  }

  function Group(r: Radix): nat {
    if r.Hex? then 4 else 3
  }

  /** value / b->base and value % b->base */
  function Shifted(value: nat, r: Radix): nat {
    match r
    case Dec => value / 10
    case Oct => value / 8
    case Hex(_) => value / 16
  }

  function LastDigit(value: nat, r: Radix): (d: nat)
    ensures d < Base(r)
  {
    match r
    case Dec => value % 10
    case Oct => value % 8
    case Hex(_) => value % 16
  }

  function DigitChar(d: nat, r: Radix): char
    requires d < Base(r)
  {
    if d < 10 then '0' + d as char else if r.upper then 'A' + (d - 10) as char else 'a' + (d - 10) as char
  }

  // ----- the text of an integer

  /** The digits of value, last digit first, with commas where asked for; cnt digits have been written before. */
  function Digits(value: nat, r: Radix, grouped: bool, cnt: nat): seq<char>
    decreases value
  {
    if value == 0 then []
    else Written(value, r, grouped, cnt) + Digits(Shifted(value, r), r, grouped, cnt + 1)
  }

  /** What one turn of the loop writes. */
  function Written(value: nat, r: Radix, grouped: bool, cnt: nat): seq<char> {
    var digit := [DigitChar(LastDigit(value, r), r)];
    if grouped && cnt > 0 && cnt % Group(r) == 0 then [','] + digit else digit
  }

  function Times(c: char, n: nat): (s: seq<char>)
    ensures |s| == n
  {
    seq(n, _ => c)
  }

  function Max(a: int, b: int): int {
    if a < b then b else a
  }

  function Min(a: int, b: int): int {
    if a < b then a else b
  }

  /** The buffer, which is written out backwards: digits, zeros up to the precision or to 63 characters, and a zero
      before an octal number when the # flag asks for it. */
  function Buffer(value: nat, r: Radix, c: Conversion): seq<char> {
    var digits := Digits(value, r, c.flags.group, 0);
    var precision := if c.precision < 0 then 1 else c.precision;
    var body := digits + Times('0', Max(0, Min(precision, 63) - |digits|));
    if c.flags.pound && r.Oct? && (body == [] || body[|body| - 1] != '0') then body + ['0'] else body
  }

  function Sign(isSigned: bool, negative: bool, f: Flags): seq<char> {
    if !isSigned then []
    else if f.plus then [if negative then '-' else '+']
    else if f.space then [if negative then '-' else ' ']
    else if negative then ['-'] else []
  }

  function Prefix(value: nat, r: Radix, f: Flags): seq<char> {
    if f.pound && value > 0 && r.Hex? then ['0', if r.upper then 'X' else 'x'] else []
  }

  function Pad(value: nat, isSigned: bool, negative: bool, r: Radix, c: Conversion): nat {
    Max(0, c.width - |Buffer(value, r, c)| - |Prefix(value, r, c.flags)| - |Sign(isSigned, negative, c.flags)|)
  }

  function PadIf(b: bool, c: char, n: nat): seq<char> {
    if b then Times(c, n) else []
  }

  /** A field: padding on the left, on the right, or, as zeros, after the sign. */
  function Field(sign: seq<char>, prefix: seq<char>, number: seq<char>, pad: nat, f: Flags): seq<char> {
    PadIf(!f.minus && !f.zero, ' ', pad) + sign + prefix + PadIf(f.zero, '0', pad) + number + PadIf(f.minus, ' ', pad)
  }

  function Text(value: nat, isSigned: bool, negative: bool, r: Radix, c: Conversion): seq<char> {
    Field(Sign(isSigned, negative, c.flags), Prefix(value, r, c.flags), Reversed(Buffer(value, r, c)),
          Pad(value, isSigned, negative, r, c), c.flags)
  }

  /** The field is exactly as wide as asked, or as its contents need, unless it is padded on both sides. */
  lemma FieldWidth(value: nat, isSigned: bool, negative: bool, r: Radix, c: Conversion)
    ensures var bare := |Buffer(value, r, c)| + |Prefix(value, r, c.flags)| + |Sign(isSigned, negative, c.flags)|;
      |Text(value, isSigned, negative, r, c)| == Max(c.width, bare) <==>
        !(c.flags.minus && c.flags.zero && c.width > bare)
  {
  }

  // ----- the buffer never overflows

  lemma {:induction false} DigitsFit(value: nat, r: Radix, grouped: bool, cnt: nat, n: nat)
    requires value < Pow2(3 * n)
    ensures |Digits(value, r, grouped, cnt)| <= 2 * n
    decreases n
  {
    if value > 0 {
      assert n > 0;
      assert Pow2(3 * n) == 8 * Pow2(3 * (n - 1)) by {
        assert Pow2(3 * n) == 2 * Pow2(3 * n - 1) && Pow2(3 * n - 1) == 2 * Pow2(3 * n - 2);
        assert Pow2(3 * n - 2) == 2 * Pow2(3 * n - 3);
      }
      DigitsFit(Shifted(value, r), r, grouped, cnt + 1, n - 1);
    }
  }

  /** No 64-bit value, radix, flags or precision makes more than 64 characters. */
  lemma BufferFits(value: nat, r: Radix, c: Conversion)
    requires value < B * B
    ensures |Digits(value, r, c.flags.group, 0)| <= 44
    ensures |Buffer(value, r, c)| <= 64
  {
    Pow2Values();
    Pow2Split(32, 32);
    Pow2Mono(64, 66);
    DigitsFit(value, r, c.flags.group, 0, 22);
  }

  // ----- parse_conversion

  predicate IsFlag(c: char) {
    c == '-' || c == '+' || c == ' ' || c == '#' || c == '0' || c == '\''
  }

  /** The flags that the first k characters of a format stand for. */
  ghost predicate FlagsOf(format: seq<char>, k: nat, f: Flags) {
    && k <= |format| && (forall i :: 0 <= i < k ==> IsFlag(format[i]))
    && f == Flags('-' in format[..k], '+' in format[..k], ' ' in format[..k], '#' in format[..k], '0' in format[..k],
                  '\'' in format[..k])
  }

  method ParseFlags(format: seq<char>) returns (f: Flags, k: nat)
    ensures FlagsOf(format, k, f) && (k < |format| ==> !IsFlag(format[k]))
  {
    f := Flags(false, false, false, false, false, false);
    k := 0;
    while k < |format| && IsFlag(format[k])
      invariant FlagsOf(format, k, f)
    {
      var c := format[k];
      assert format[..k + 1] == format[..k] + [c];
      if c == '-' {
        f := f.(minus := true);
      } else if c == '+' {
        f := f.(plus := true);
      } else if c == ' ' {
        f := f.(space := true);
      } else if c == '#' {
        f := f.(pound := true);
      } else if c == '0' {
        f := f.(zero := true);
      } else {
        f := f.(group := true);
      }
      k := k + 1;
    }
  }

  ghost predicate AllDigits(s: seq<char>) {
    forall c :: c in s ==> IsDigit(c)
  }

  /** What decimal digits stand for. */
  ghost function Decimal(s: seq<char>): nat
    requires AllDigits(s)
  {
    if s == [] then 0
    else
      var c := s[|s| - 1];
      assert c in s;
      10 * Decimal(s[..|s| - 1]) + (c - '0') as nat
  }

  predicate StarAt(format: seq<char>, i: nat) {
    i < |format| && format[i] == '*'
  }

  /** n is the number at position i, which ends at j: the next argument for a star, or else the longest run of
      digits. */
  ghost predicate NumberAt(format: seq<char>, i: nat, args: seq<int>, n: int, j: nat) {
    && i <= j <= |format|
    && if StarAt(format, i) then j == i + 1 && args != [] && n == args[0]
       else AllDigits(format[i..j]) && n == Decimal(format[i..j]) && (j < |format| ==> !IsDigit(format[j]))
  }

  function Left(format: seq<char>, i: nat, args: seq<int>): seq<int> {
    if StarAt(format, i) && args != [] then args[1..] else args
  }

  lemma DecimalMore(s: seq<char>, c: char)
    requires AllDigits(s) && IsDigit(c)
    ensures AllDigits(s + [c]) && Decimal(s + [c]) == 10 * Decimal(s) + (c - '0') as nat
  {
    assert (s + [c])[..|s|] == s;
  }

  method ParseNumber(format: seq<char>, i: nat, args: seq<int>) returns (n: int, j: nat, args': seq<int>)
    requires i <= |format| && (StarAt(format, i) ==> args != [])
    ensures NumberAt(format, i, args, n, j) && args' == Left(format, i, args)
  {
    n, j, args' := 0, i, args;
    if StarAt(format, i) {
      return args[0], i + 1, args[1..];
    }
    while j < |format| && IsDigit(format[j])
      invariant i <= j <= |format| && AllDigits(format[i..j]) && n == Decimal(format[i..j])
    {
      DecimalMore(format[i..j], format[j]);
      assert format[i..j + 1] == format[i..j] + [format[j]];
      n := n * 10 + (format[j] - '0') as int;
      j := j + 1;
    }
  }

  /** How a conversion reads: flags up to k, a width up to m, and a precision up to j if a dot follows. */
  ghost predicate Reads(format: seq<char>, args: seq<int>, k: nat, f: Flags, w: int, m: nat, p: int, j: nat) {
    && FlagsOf(format, k, f) && (k < |format| ==> !IsFlag(format[k]))
    && NumberAt(format, k, args, w, m)
    && if m < |format| && format[m] == '.' then NumberAt(format, m + 1, Left(format, k, args), p, j)
       else j == m && p == -1
  }

  /** A negative width given by an argument stands for the minus flag, a negative precision for none.  Flags that rule
      each other out do not come together, except that such a width brings in the minus flag after it has been kept
      apart from the zero flag.  args is what va_arg would fetch next; only stars ask for it. */
  method ParseConversion(format: seq<char>, args: seq<int>)
    returns (c: Conversion, j: nat, ghost k: nat, ghost f: Flags, ghost w: int, ghost m: nat, ghost p: int)
    requires |args| >= 2
    ensures Reads(format, args, k, f, w, m, p, j)
    ensures c.width == (if w < 0 then -w else w) && c.precision == if p < 0 then -1 else p
    ensures c.flags
         == Flags(f.minus || w < 0, f.plus, f.space && !f.plus, f.pound, f.zero && !f.minus && p < 0, f.group)
  {
    var flags, i := ParseFlags(format);
    k, f := i, flags;
    if flags.minus {
      flags := flags.(zero := false);
    }
    if flags.plus {
      flags := flags.(space := false);
    }
    var width, args';
    width, j, args' := ParseNumber(format, i, args);
    w, m, p := width, j, -1;
    if width < 0 {
      width := -width;
      flags := flags.(minus := true);
    }
    var precision := -1;
    if j < |format| && format[j] == '.' {
      var rest;
      precision, j, rest := ParseNumber(format, j + 1, args');
      p := precision;
      if precision < 0 {
        precision := -1;
      }
    }
    if precision >= 0 {
      flags := flags.(zero := false);
    }
    c := Conversion(flags, width, precision);
  }

  // ----- format_integer

  method WriteDigit(buf: array<char>, cp: nat, value: nat, r: Radix, grouped: bool, digitCnt: nat) returns (cp': nat)
    requires cp + |Written(value, r, grouped, digitCnt)| <= buf.Length
    modifies buf
    ensures cp <= cp' <= buf.Length && buf[..cp'] == old(buf[..cp]) + Written(value, r, grouped, digitCnt)
  {
    cp' := cp;
    if grouped && digitCnt > 0 && digitCnt % Group(r) == 0 {
      buf[cp'] := ',';
      cp' := cp' + 1;
    }
    buf[cp'] := DigitChar(LastDigit(value, r), r);
    cp' := cp' + 1;
  }

  lemma Progress(was: seq<char>, written: seq<char>, rest: seq<char>, all: seq<char>)
    requires was + (written + rest) == all
    ensures (was + written) + rest == all && |was| + |written| <= |all|
  {
  }

  /** Accumulates digits into the buffer; cp is the current position. */
  method WriteDigits(buf: array<char>, value0: nat, r: Radix, c: Conversion) returns (cp: nat)
    requires buf.Length == 64 && value0 < B * B
    modifies buf
    ensures cp <= 44 && buf[..cp] == Digits(value0, r, c.flags.group, 0)
  {
    BufferFits(value0, r, c);
    ghost var all := Digits(value0, r, c.flags.group, 0);
    var value, digitCnt := value0, 0;
    cp := 0;
    while value > 0
      invariant cp <= 64 && buf[..cp] + Digits(value, r, c.flags.group, digitCnt) == all
    {
      Progress(buf[..cp], Written(value, r, c.flags.group, digitCnt),
               Digits(Shifted(value, r), r, c.flags.group, digitCnt + 1), all);
      cp := WriteDigit(buf, cp, value, r, c.flags.group, digitCnt);
      value := Shifted(value, r);
      digitCnt := digitCnt + 1;
    }
  }

  /** Fills the buffer, never writing past its 64 characters. */
  method FillBuffer(value: nat, r: Radix, c: Conversion) returns (buf: array<char>, cp: nat)
    requires value < B * B
    ensures fresh(buf) && cp <= buf.Length == 64 && buf[..cp] == Buffer(value, r, c)
  {
    buf := new char[64];
    cp := WriteDigits(buf, value, r, c);
    ghost var digits := buf[..cp];
    var precision := if c.precision < 0 then 1 else c.precision;
    while cp < precision && cp < 63
      invariant |digits| <= cp <= Max(|digits|, Min(precision, 63)) <= 63
      invariant buf[..cp] == digits + Times('0', cp - |digits|)
    {
      buf[cp] := '0';
      cp := cp + 1;
    }
    if c.flags.pound && r.Oct? && (cp == 0 || buf[cp - 1] != '0') {
      buf[cp] := '0';
      cp := cp + 1;
    }
  }

  /** output_dup, when b says so */
  method OutputDup(out: seq<char>, b: bool, ch: char, cnt: nat) returns (out': seq<char>)
    ensures out' == out + PadIf(b, ch, cnt)
  {
    out' := out;
    if b {
      var i := 0;
      while i < cnt
        invariant i <= cnt && out' == out + Times(ch, i)
      {
        out' := out' + [ch];
        i := i + 1;
      }
    }
  }

  method OutputReversed(out: seq<char>, buf: array<char>, n: nat) returns (out': seq<char>)
    requires n <= buf.Length
    ensures out' == out + Reversed(buf[..n])
  {
    out' := out;
    var cp: nat := n;
    while cp > 0
      invariant cp <= n && out' == out + Reversed(buf[..n])[..n - cp]
    {
      cp := cp - 1;
      assert Reversed(buf[..n])[..n - cp] == Reversed(buf[..n])[..n - cp - 1] + [buf[cp]];
      out' := out' + [buf[cp]];
    }
    assert Reversed(buf[..n])[..n] == Reversed(buf[..n]);
  }

  method OutputField(sign: seq<char>, x: seq<char>, buf: array<char>, cp: nat, padCnt: nat, f: Flags)
    returns (out: seq<char>)
    requires cp <= buf.Length
    ensures out == Field(sign, x, Reversed(buf[..cp]), padCnt, f)
  {
    ghost var left := PadIf(!f.minus && !f.zero, ' ', padCnt);
    out := OutputDup([], !f.minus && !f.zero, ' ', padCnt);
    assert out == left;
    out := out + sign + x;
    out := OutputDup(out, f.zero, '0', padCnt);
    out := OutputReversed(out, buf, cp);
    out := OutputDup(out, f.minus, ' ', padCnt);
  }

  method FormatInteger(value: nat, isSigned: bool, negative: bool, r: Radix, c: Conversion) returns (out: seq<char>)
    requires value < B * B
    ensures out == Text(value, isSigned, negative, r, c)
  {
    var sign, x := Sign(isSigned, negative, c.flags), Prefix(value, r, c.flags);
    var buf, cp := FillBuffer(value, r, c);
    assert cp == |buf[..cp]|;
    out := OutputField(sign, x, buf, cp, Max(0, c.width - cp - |x| - |sign|), c.flags);
  }

  // ----- atoi

  predicate IsSpace(c: char) {
    c == ' ' || c == '\n' || c == '\r' || c == '\t' || c == 11 as char || c == 12 as char
  }

  predicate IsDigit(c: char) {
    '0' <= c <= '9'
  }

  function SkipSpaces(s: seq<char>): seq<char> {
    if s != [] && IsSpace(s[0]) then SkipSpaces(s[1..]) else s
  }

  /** The digits at the front of s, counted down from value in 32-bit arithmetic. */
  function CountDown(s: seq<char>, value: int): int {
    if s != [] && IsDigit(s[0]) then CountDown(s[1..], Wrap32(value * 10 - (s[0] - '0') as int)) else value
  }

  /** Whether s starts with a minus sign, and what follows the sign. */
  function SplitSign(s: seq<char>): (bool, seq<char>) {
    if s != [] && s[0] == '-' then (true, s[1..])
    else if s != [] && s[0] == '+' then (false, s[1..])
    else (false, s)
  }

  function Finish(negative: bool, value: int): int {
    if negative then value else Wrap32(0 - value)
  }

  function AtoiOf(s: seq<char>): int {
    var (negative, t) := SplitSign(SkipSpaces(s));
    Finish(negative, CountDown(t, 0))
  }

  method Atoi(s: seq<char>) returns (value: int)
    ensures value == AtoiOf(s)
  {
    var i := 0;
    while i < |s| && IsSpace(s[i])
      invariant i <= |s| && SkipSpaces(s) == SkipSpaces(s[i..])
    {
      i := i + 1;
    }
    ghost var t := SkipSpaces(s);
    assert t == s[i..];
    var negative := false;
    if i < |s| && s[i] == '+' {
      i := i + 1;
    } else if i < |s| && s[i] == '-' {
      negative := true;
      i := i + 1;
    }
    value := 0;
    ghost var from := i;
    while i < |s| && IsDigit(s[i])
      invariant from <= i <= |s| && CountDown(s[from..], 0) == CountDown(s[i..], value)
    {
      value := Wrap32(value * 10 - (s[i] - '0') as int);
      i := i + 1;
    }
    if !negative {
      value := Wrap32(0 - value);
    }
  }

  /** s is white space up to i, then a sign or none up to j, then digits up to k, and each part is as long as it can
      be. */
  ghost predicate Integer(s: seq<char>, i: nat, j: nat, k: nat) {
    && i <= j <= k <= |s|
    && (forall x :: 0 <= x < i ==> IsSpace(s[x])) && (i < |s| ==> !IsSpace(s[i]))
    && j == (if i < |s| && (s[i] == '+' || s[i] == '-') then i + 1 else i)
    && AllDigits(s[j..k]) && (k < |s| ==> !IsDigit(s[k]))
  }

  /** atoi gives the number that the digits stand for, negated after a minus sign, as far as 32 bits hold it; and 0
      where there are no digits. */
  lemma AtoiReads(s: seq<char>, i: nat, j: nat, k: nat)
    requires Integer(s, i, j, k)
    ensures AtoiOf(s) == Wrap32(if i < |s| && s[i] == '-' then 0 - Decimal(s[j..k]) else Decimal(s[j..k]))
  {
    SkipsTo(s, i);
    assert CountDown(s[j..], 0) == Value(s[j..k]) by {
      assert s[j..j] == [];
      CountsTo(s, j, j, k);
    }
    WrapBack(Decimal(s[j..k]));
  }

  lemma {:induction false} SkipsTo(s: seq<char>, i: nat)
    requires i <= |s| && (forall x :: 0 <= x < i ==> IsSpace(s[x])) && (i < |s| ==> !IsSpace(s[i]))
    ensures SkipSpaces(s) == s[i..]
  {
    if i > 0 {
      SkipsTo(s[1..], i - 1);
    }
  }

  lemma WrapBack(n: int)
    ensures Wrap32(0 - Wrap32(-n)) == Wrap32(n)
  {
  }

  lemma WrapTurns(x: int, q: int)
    ensures Wrap32(x + q * B) == Wrap32(x)
  {
  }

  lemma WrapDigit(n: int, d: int)
    ensures Wrap32(Wrap32(0 - n) * 10 - d) == Wrap32(0 - (10 * n + d))
  {
    var x := Wrap32(0 - n);
    var q := (0 - n - x) / B;
    assert 0 - n == x + q * B;
    WrapTurns(x * 10 - d, 10 * q);
    assert 0 - (10 * n + d) == x * 10 - d + (10 * q) * B;
  }

  /** What counting down over digits comes to. */
  ghost function Value(digits: seq<char>): int
    requires AllDigits(digits)
  {
    Wrap32(0 - Decimal(digits))
  }

  lemma {:induction false} CountsTo(s: seq<char>, j: nat, m: nat, k: nat)
    requires j <= m <= k <= |s| && AllDigits(s[j..k]) && (k < |s| ==> !IsDigit(s[k]))
    ensures AllDigits(s[j..m]) && CountDown(s[m..], Value(s[j..m])) == Value(s[j..k])
    decreases k - m
  {
    assert AllDigits(s[j..m]) by { assert s[j..m] == s[j..k][..m - j]; }
    if m < k {
      var c := s[m];
      assert IsDigit(c) by { assert c == s[j..k][m - j]; }
      assert s[j..m + 1] == s[j..m] + [c];
      CountsTo(s, j, m + 1, k);
      CountsOne(s[j..m], c, s[m + 1..]);
      assert s[m..] == [c] + s[m + 1..];
    }
  }

  lemma CountsOne(digits: seq<char>, c: char, rest: seq<char>)
    requires AllDigits(digits) && IsDigit(c)
    ensures AllDigits(digits + [c]) && CountDown([c] + rest, Value(digits)) == CountDown(rest, Value(digits + [c]))
  {
    DecimalMore(digits, c);
    WrapDigit(Decimal(digits), (c - '0') as int);
    assert ([c] + rest)[1..] == rest;
  }

  // ----- reading back what was printed

  /** The digits of a number as they are read. */
  function Reading(m: nat, grouped: bool, cnt: nat): seq<char> {
    Reversed(Digits(m, Dec, grouped, cnt))
  }

  lemma ReverseConcat(s: seq<char>, t: seq<char>)
    ensures Reversed(s + t) == Reversed(t) + Reversed(s)
  {
  }

  /** Some digit but the last is followed by a comma. */
  ghost predicate HasComma(m: nat, cnt: nat) {
    m > 0 && ((cnt > 0 && cnt % 3 == 0) || HasComma(m / 10, cnt + 1))
  }

  lemma CommaFrom1000(m: nat)
    ensures HasComma(m, 0) <==> m >= 1000
  {
    assert HasComma(m / 10 / 10 / 10, 3) <==> m / 10 / 10 / 10 > 0;
    assert HasComma(m / 10 / 10, 2) <==> HasComma(m / 10 / 10 / 10, 3);
    assert HasComma(m / 10, 1) <==> HasComma(m / 10 / 10, 2);
  }

  lemma DigitStep(d: nat, tail: seq<char>, value: int)
    requires d < 10
    ensures CountDown([DigitChar(d, Dec)] + tail, value) == CountDown(tail, Wrap32(value * 10 - d))
  {
    var s := [DigitChar(d, Dec)] + tail;
    assert s[1..] == tail;
  }

  /** Digits are read as the number they were made from; a comma stops the reading short of that. */
  lemma {:induction false} ReadDigits(m: nat, grouped: bool, cnt: nat, tail: seq<char>) returns (t: nat)
    requires m <= H
    ensures !grouped || !HasComma(m, cnt) ==> CountDown(Reading(m, grouped, cnt) + tail, 0) == CountDown(tail, 0 - m)
    ensures grouped && HasComma(m, cnt) ==> t <= m && CountDown(Reading(m, grouped, cnt) + tail, 0) == 0 - t
    decreases m
  {
    t := m;
    if m == 0 {
      assert Reading(m, grouped, cnt) + tail == tail;
    } else {
      var d, w := m % 10, Written(m, Dec, grouped, cnt);
      var rest := Reversed(w) + tail;
      ReverseConcat(w, Digits(m / 10, Dec, grouped, cnt + 1));
      assert Reading(m, grouped, cnt) + tail == Reading(m / 10, grouped, cnt + 1) + rest;
      t := ReadDigits(m / 10, grouped, cnt + 1, rest);
      if !grouped || !HasComma(m / 10, cnt + 1) {
        ReadWritten(m, grouped, cnt, tail);
        t := m;
      }
    }
  }

  lemma ReadWritten(m: nat, grouped: bool, cnt: nat, tail: seq<char>)
    requires 0 < m <= H
    ensures var rest := Reversed(Written(m, Dec, grouped, cnt)) + tail;
      CountDown(rest, -(m / 10)) == if grouped && cnt > 0 && cnt % 3 == 0 then 0 - m else CountDown(tail, 0 - m)
  {
    var d := m % 10;
    var comma := grouped && cnt > 0 && cnt % 3 == 0;
    var after := if comma then [','] + tail else tail;
    assert Reversed(Written(m, Dec, grouped, cnt)) + tail == [DigitChar(d, Dec)] + after;
    DigitStep(d, after, -(m / 10));
    assert -(m / 10) * 10 - d == 0 - m;
  }

  lemma {:induction false} ReadZeros(n: nat, s: seq<char>)
    ensures CountDown(Times('0', n) + s, 0) == CountDown(s, 0)
  {
    var t := Times('0', n) + s;
    if n == 0 {
      assert t == s;
    } else {
      assert t[1..] == Times('0', n - 1) + s;
      ReadZeros(n - 1, s);
    }
  }

  lemma {:induction false} SkipPadding(n: nat, s: seq<char>)
    ensures SkipSpaces(Times(' ', n) + s) == SkipSpaces(s)
  {
    var t := Times(' ', n) + s;
    if n == 0 {
      assert t == s;
    } else {
      assert t[1..] == Times(' ', n - 1) + s;
      SkipPadding(n - 1, s);
    }
  }

  lemma Regroup(a: seq<char>, s: seq<char>, z: seq<char>, f: seq<char>, r: seq<char>, e: seq<char>)
    ensures a + s + [] + z + (f + r) + e == a + s + ((z + f) + r + e)
  {
  }

  lemma TimesMore(c: char, m: nat, n: nat)
    ensures Times(c, m) + Times(c, n) == Times(c, m + n)
  {
  }

  /** The text of a decimal conversion: padding, sign, zeros, digits, padding. */
  lemma TextParts(m: nat, negative: bool, c: Conversion) returns (before: nat, zeros: nat, after: nat)
    ensures Text(m, true, negative, Dec, c) ==
      Times(' ', before) + Sign(true, negative, c.flags)
      + (Times('0', zeros) + Reading(m, c.flags.group, 0) + Times(' ', after))
  {
    var pad, f := Pad(m, true, negative, Dec, c), c.flags;
    var fill := DecimalBuffer(m, c);
    before, zeros, after := FieldParts(Sign(true, negative, f), Times('0', fill), Reading(m, f.group, 0), pad, f);
    zeros := zeros + fill;
    TimesMore('0', zeros - fill, fill);
  }

  /** Padding of no width stands for no padding. */
  lemma FieldParts(sign: seq<char>, fill: seq<char>, number: seq<char>, pad: nat, f: Flags)
    returns (before: nat, zeros: nat, after: nat)
    ensures Field(sign, [], fill + number, pad, f)
         == Times(' ', before) + sign + ((Times('0', zeros) + fill) + number + Times(' ', after))
  {
    before := if !f.minus && !f.zero then pad else 0;
    zeros := if f.zero then pad else 0;
    after := if f.minus then pad else 0;
    assert PadIf(!f.minus && !f.zero, ' ', pad) == Times(' ', before);
    assert PadIf(f.zero, '0', pad) == Times('0', zeros);
    assert PadIf(f.minus, ' ', pad) == Times(' ', after);
    Regroup(Times(' ', before), sign, Times('0', zeros), fill, number, Times(' ', after));
  }

  lemma DecimalBuffer(m: nat, c: Conversion) returns (fill: nat)
    ensures Reversed(Buffer(m, Dec, c)) == Times('0', fill) + Reading(m, c.flags.group, 0)
  {
    var digits := Digits(m, Dec, c.flags.group, 0);
    var precision := if c.precision < 0 then 1 else c.precision;
    fill := Max(0, Min(precision, 63) - |digits|);
    assert Buffer(m, Dec, c) == digits + Times('0', fill);
    ReverseConcat(digits, Times('0', fill));
    assert Reversed(Times('0', fill)) == Times('0', fill);
  }

  /** The digits part of a text is read as the number, or as less than it when a comma comes in between. */
  lemma ReadBody(m: nat, grouped: bool, zeros: nat, after: nat) returns (t: nat)
    requires m <= H
    ensures CountDown(Times('0', zeros) + Reading(m, grouped, 0) + Times(' ', after), 0) == 0 - t
    ensures t == m <==> !grouped || m < 1000
    ensures t <= m
  {
    var tail := Times(' ', after);
    assert Times('0', zeros) + Reading(m, grouped, 0) + tail == Times('0', zeros) + (Reading(m, grouped, 0) + tail);
    ReadZeros(zeros, Reading(m, grouped, 0) + tail);
    CommaFrom1000(m);
    if grouped && m >= 1000 {
      var w := Written(m, Dec, grouped, 0);
      ReverseConcat(w, Digits(m / 10, Dec, grouped, 1));
      assert Reading(m, grouped, 0) + tail == Reading(m / 10, grouped, 1) + (Reversed(w) + tail);
      assert HasComma(m / 10, 1);
      t := ReadDigits(m / 10, grouped, 1, Reversed(w) + tail);
    } else {
      var u := ReadDigits(m, grouped, 0, tail);
      t := m;
    }
  }

  /** atoi undoes %d, for every int and all flags, widths and precisions, unless digits are grouped and there are more
      than three of them. */
  lemma AtoiOfText(v: int, c: Conversion)
    requires -H <= v < H
    ensures AtoiOf(Text(if v < 0 then -v else v, true, v < 0, Dec, c)) == v <==>
      !c.flags.group || -1000 < v < 1000
  {
    var m: nat := if v < 0 then -v else v;
    var before, zeros, after := TextParts(m, v < 0, c);
    var t := ReadParts(m, c.flags.group, before, Sign(true, v < 0, c.flags), zeros, after);
    SignedBack(v, m, t, c.flags);
  }

  lemma ReadParts(m: nat, grouped: bool, before: nat, sign: seq<char>, zeros: nat, after: nat) returns (t: nat)
    requires m <= H && (sign == [] || sign == ['-'] || sign == ['+'] || sign == [' '])
    ensures AtoiOf(Times(' ', before) + sign + (Times('0', zeros) + Reading(m, grouped, 0) + Times(' ', after)))
         == Finish(sign == ['-'], 0 - t)
    ensures t <= m && (t == m <==> !grouped || m < 1000)
  {
    t := ReadBody(m, grouped, zeros, after);
    var body := Times('0', zeros) + Reading(m, grouped, 0) + Times(' ', after);
    assert Times(' ', before) + sign + body == Times(' ', before) + (sign + body);
    SkipPadding(before, sign + body);
    ReadSigned(m, grouped, sign, zeros, after);
  }

  lemma SignedBack(v: int, m: nat, t: nat, f: Flags)
    requires -H <= v < H && m == (if v < 0 then 0 - v else v) && t <= m
    ensures Sign(true, v < 0, f) == ['-'] <==> v < 0
    ensures Finish(v < 0, 0 - t) == v <==> t == m
  {
  }

  lemma ReadSigned(m: nat, grouped: bool, sign: seq<char>, zeros: nat, after: nat)
    requires sign == [] || sign == ['-'] || sign == ['+'] || sign == [' ']
    ensures var body := Times('0', zeros) + Reading(m, grouped, 0) + Times(' ', after);
      AtoiOf(sign + body) == Finish(sign == ['-'], CountDown(body, 0))
  {
    BodyStart(m, grouped, zeros, after);
    SignStart(sign, Times('0', zeros) + Reading(m, grouped, 0) + Times(' ', after));
  }

  /** The part after the sign starts with a digit, or is all spaces. */
  lemma BodyStart(m: nat, grouped: bool, zeros: nat, after: nat)
    ensures var body := Times('0', zeros) + Reading(m, grouped, 0) + Times(' ', after);
      (body != [] && IsDigit(body[0])) || (SkipSpaces(body) == [] && CountDown(body, 0) == 0)
  {
    var body := Times('0', zeros) + Reading(m, grouped, 0) + Times(' ', after);
    if zeros == 0 && m == 0 {
      assert body == Times(' ', after) + [];
      SkipPadding(after, []);
      assert body == [] || body[0] == ' ';
    } else {
      FirstIsDigit(m, grouped, zeros);
      assert body[0] == (Times('0', zeros) + Reading(m, grouped, 0))[0];
    }
  }

  lemma SignStart(sign: seq<char>, body: seq<char>)
    requires sign == [] || sign == ['-'] || sign == ['+'] || sign == [' ']
    requires (body != [] && IsDigit(body[0])) || SkipSpaces(body) == []
    ensures var (negative, rest) := SplitSign(SkipSpaces(sign + body));
      negative == (sign == ['-']) && (rest == body || (rest == [] && SkipSpaces(body) == []))
  {
    var s := sign + body;
    if sign == [] {
      assert s == body;
    } else {
      assert s[1..] == body;
    }
  }

  lemma FirstIsDigit(m: nat, grouped: bool, zeros: nat)
    requires zeros > 0 || m > 0
    ensures var s := Times('0', zeros) + Reading(m, grouped, 0); s != [] && IsDigit(s[0])
  {
    if zeros == 0 { TopDigit(m, grouped, 0); }
  }

  lemma {:induction false} TopDigit(m: nat, grouped: bool, cnt: nat)
    requires m > 0
    ensures var s := Reading(m, grouped, cnt); s != [] && IsDigit(s[0])
  {
    var w := Written(m, Dec, grouped, cnt);
    ReverseConcat(w, Digits(m / 10, Dec, grouped, cnt + 1));
    if m / 10 > 0 { TopDigit(m / 10, grouped, cnt + 1); }
  }
}
