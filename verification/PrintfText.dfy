/** What format_integer's text says, for every radix: its digits read back as the value, and where the sign, the prefix,
    the zeros, the commas and the padding stand. */
module PrintfText {

  import opened Sequences
  import opened Printf

  // ----- a reader of digits

  predicate IsDigitOf(ch: char, r: Radix) {
    match r
    case Dec => '0' <= ch <= '9'
    case Oct => '0' <= ch <= '7'
    case Hex(true) => '0' <= ch <= '9' || 'A' <= ch <= 'F'
    case Hex(false) => '0' <= ch <= '9' || 'a' <= ch <= 'f'
  }

  function DigitValue(ch: char): nat {
    if '0' <= ch <= '9' then (ch - '0') as nat
    else if 'a' <= ch <= 'f' then (ch - 'a') as nat + 10
    else if 'A' <= ch <= 'F' then (ch - 'A') as nat + 10
    else 0
  }

  /** The number with one more digit at its end. */
  function WithDigit(n: nat, d: nat, r: Radix): nat {
    match r
    case Dec => 10 * n + d
    case Oct => 8 * n + d
    case Hex(_) => 16 * n + d
  }

  /** The number that digits stand for, first digit first; commas between them do not count. */
  ghost function NumberIn(s: seq<char>, r: Radix): nat {
    if s == [] then 0
    else
      var front, last := s[..|s| - 1], s[|s| - 1];
      if last == ',' then NumberIn(front, r) else WithDigit(NumberIn(front, r), DigitValue(last), r)
  }

  /** Commas stand before each group of three digits from the right, of four in base 16, if at all. */
  ghost predicate CommasIn(s: seq<char>, r: Radix, grouped: bool) {
    forall i :: 0 <= i < |s| ==> (s[i] == ',' <==> grouped && CommaPlace(|s| - 1 - i, r))
  }

  predicate CommaPlace(k: nat, r: Radix) {
    if r.Hex? then k % 5 == 4 else k % 4 == 3
  }

  /** digits is the numeral for value, without zeros in front. */
  ghost predicate Numeral(digits: seq<char>, value: nat, r: Radix, grouped: bool) {
    && NumberIn(digits, r) == value
    && (forall ch :: ch in digits ==> ch == ',' || IsDigitOf(ch, r))
    && CommasIn(digits, r, grouped)
    && (digits != [] ==> digits[0] != '0' && digits[0] != ',')
  }

  // ----- the digits

  lemma DigitReads(d: nat, r: Radix)
    requires d < Base(r)
    ensures IsDigitOf(DigitChar(d, r), r) && DigitValue(DigitChar(d, r)) == d && DigitChar(d, r) != ','
  {
  }

  lemma NumberMore(s: seq<char>, ch: char, r: Radix)
    ensures NumberIn(s + [ch], r)
         == if ch == ',' then NumberIn(s, r) else WithDigit(NumberIn(s, r), DigitValue(ch), r)
  {
    assert (s + [ch])[..|s|] == s;
  }

  lemma LastDigitBack(value: nat, r: Radix)
    ensures WithDigit(Shifted(value, r), LastDigit(value, r), r) == value
  {
  }

  lemma WrittenReads(s: seq<char>, value: nat, r: Radix, grouped: bool, cnt: nat)
    requires NumberIn(s, r) == Shifted(value, r)
    ensures NumberIn(s + Reversed(Written(value, r, grouped, cnt)), r) == value
  {
    var ch := DigitChar(LastDigit(value, r), r);
    DigitReads(LastDigit(value, r), r);
    NumberMore(s, ch, r);
    NumberMore(s + [ch], ',', r);
    var w := Reversed(Written(value, r, grouped, cnt));
    assert s + w == s + [ch] || s + w == s + [ch] + [','];
    LastDigitBack(value, r);
  }

  lemma {:induction false} DigitsRead(value: nat, r: Radix, grouped: bool, cnt: nat)
    ensures NumberIn(Reversed(Digits(value, r, grouped, cnt)), r) == value
    ensures forall ch :: ch in Digits(value, r, grouped, cnt) ==> ch == ',' || IsDigitOf(ch, r)
    decreases value
  {
    if value > 0 {
      var w, rest := Written(value, r, grouped, cnt), Digits(Shifted(value, r), r, grouped, cnt + 1);
      DigitsRead(Shifted(value, r), r, grouped, cnt + 1);
      DigitReads(LastDigit(value, r), r);
      ReverseConcat(w, rest);
      WrittenReads(Reversed(rest), value, r, grouped, cnt);
    }
  }

  lemma {:induction false} FirstDigit(value: nat, r: Radix, grouped: bool, cnt: nat)
    requires value > 0
    ensures var digits := Digits(value, r, grouped, cnt);
      digits != [] && digits[|digits| - 1] != '0' && digits[|digits| - 1] != ','
    decreases value
  {
    DigitReads(LastDigit(value, r), r);
    if Shifted(value, r) > 0 {
      FirstDigit(Shifted(value, r), r, grouped, cnt + 1);
    } else {
      assert Digits(value, r, grouped, cnt) == Written(value, r, grouped, cnt);
    }
  }

  /** at is the place of the next character once cnt digits are written. */
  ghost predicate Phase(at: nat, cnt: nat, r: Radix) {
    at == if cnt == 0 then 0 else if r.Hex? then cnt + (cnt - 1) / 4 else cnt + (cnt - 1) / 3
  }

  lemma PhaseNext(at: nat, cnt: nat, r: Radix)
    requires Phase(at, cnt, r)
    ensures var comma := cnt > 0 && cnt % Group(r) == 0;
      && (comma <==> CommaPlace(at, r))
      && (comma ==> !CommaPlace(at + 1, r))
      && Phase(if comma then at + 2 else at + 1, cnt + 1, r)
  {
    if cnt > 0 {
      if r.Hex? { ByFours(cnt, (cnt - 1) / 4); } else { ByThrees(cnt, (cnt - 1) / 3); }
    }
  }

  lemma ByFours(cnt: nat, q: nat)
    requires 4 * q < cnt <= 4 * q + 4
    ensures cnt % 4 == 0 <==> cnt == 4 * q + 4
    ensures (cnt + q) % 5 == 4 <==> cnt == 4 * q + 4
    ensures cnt == 4 * q + 4 ==> (cnt + q + 1) % 5 == 0 && cnt / 4 == q + 1
    ensures cnt < 4 * q + 4 ==> cnt / 4 == q
  {
    assert cnt + q == 5 * q + (cnt - 4 * q);
  }

  lemma ByThrees(cnt: nat, q: nat)
    requires 3 * q < cnt <= 3 * q + 3
    ensures cnt % 3 == 0 <==> cnt == 3 * q + 3
    ensures (cnt + q) % 4 == 3 <==> cnt == 3 * q + 3
    ensures cnt == 3 * q + 3 ==> (cnt + q + 1) % 4 == 0 && cnt / 3 == q + 1
    ensures cnt < 3 * q + 3 ==> cnt / 3 == q
  {
    assert cnt + q == 4 * q + (cnt - 3 * q);
  }

  ghost predicate CommasFrom(s: seq<char>, at: nat, r: Radix) {
    forall i :: 0 <= i < |s| ==> (s[i] == ',' <==> CommaPlace(at + i, r))
  }

  lemma CommasJoin(s: seq<char>, t: seq<char>, at: nat, r: Radix)
    requires CommasFrom(s, at, r) && CommasFrom(t, at + |s|, r)
    ensures CommasFrom(s + t, at, r)
  {
    var all := s + t;
    forall i | 0 <= i < |all|
      ensures all[i] == ',' <==> CommaPlace(at + i, r)
    {
      if i < |s| {
        assert all[i] == s[i];
      } else {
        assert all[i] == t[i - |s|] && at + |s| + (i - |s|) == at + i;
      }
    }
  }

  lemma WrittenComma(value: nat, r: Radix, cnt: nat, at: nat)
    requires Phase(at, cnt, r)
    ensures CommasFrom(Written(value, r, true, cnt), at, r)
  {
    DigitReads(LastDigit(value, r), r);
    PhaseNext(at, cnt, r);
    assert at + 0 == at;
  }

  lemma {:induction false} CommasWritten(value: nat, r: Radix, cnt: nat, at: nat)
    requires Phase(at, cnt, r)
    ensures CommasFrom(Digits(value, r, true, cnt), at, r)
    decreases value
  {
    if value > 0 {
      var w := Written(value, r, true, cnt);
      PhaseNext(at, cnt, r);
      WrittenComma(value, r, cnt, at);
      CommasWritten(Shifted(value, r), r, cnt + 1, at + |w|);
      CommasJoin(w, Digits(Shifted(value, r), r, true, cnt + 1), at, r);
    }
  }

  lemma {:induction false} NoCommas(value: nat, r: Radix, cnt: nat)
    ensures ',' !in Digits(value, r, false, cnt)
    decreases value
  {
    if value > 0 {
      DigitReads(LastDigit(value, r), r);
      NoCommas(Shifted(value, r), r, cnt + 1);
    }
  }

  lemma DigitsNumeral(value: nat, r: Radix, grouped: bool)
    ensures Numeral(Reversed(Digits(value, r, grouped, 0)), value, r, grouped)
  {
    var digits := Digits(value, r, grouped, 0);
    DigitsRead(value, r, grouped, 0);
    if value > 0 { FirstDigit(value, r, grouped, 0); }
    if grouped { CommasWritten(value, r, 0, 0); } else { NoCommas(value, r, 0); }
  }

  // ----- the text

  /** A minus sign for every negative number, and for the others what the flags ask for. */
  function SignText(isSigned: bool, negative: bool, f: Flags): string {
    if isSigned && negative then "-"
    else if isSigned && f.plus then "+"
    else if isSigned && f.space then " "
    else ""
  }

  function PrefixText(value: nat, r: Radix, f: Flags): string {
    if !f.pound || value == 0 then ""
    else if r == Hex(true) then "0X"
    else if r == Hex(false) then "0x"
    else ""
  }

  /** The zeros that the precision, but at most 63 characters, or the # flag of an octal number calls for. */
  function ZerosFor(len: nat, r: Radix, c: Conversion): nat {
    var least := if c.flags.pound && r == Oct then 1 else 0;
    var precision := if c.precision < 0 then 1 else c.precision;
    Max(least, Min(precision, 63) - len)
  }

  /** What fills the field up to its width: spaces before, zeros after the sign and prefix, or spaces behind. */
  ghost predicate Padded(before: nat, zeros: nat, after: nat, bare: nat, len: nat, r: Radix, c: Conversion) {
    var fill := ZerosFor(len, r, c);
    var missing := Max(0, c.width - (bare + fill));
    && before == (if c.flags.minus || c.flags.zero then 0 else missing)
    && zeros == fill + (if c.flags.zero then missing else 0)
    && after == (if c.flags.minus then missing else 0)
  }

  lemma BufferParts(value: nat, r: Radix, c: Conversion)
    ensures var digits := Digits(value, r, c.flags.group, 0);
      Reversed(Buffer(value, r, c)) == Times('0', ZerosFor(|digits|, r, c)) + Reversed(digits)
  {
    var digits := Digits(value, r, c.flags.group, 0);
    if value > 0 { FirstDigit(value, r, c.flags.group, 0); }
    var fill := Times('0', ZerosFor(|digits|, r, c));
    assert Buffer(value, r, c) == digits + fill;
    ReverseConcat(digits, fill);
    assert Reversed(fill) == fill;
  }

  /** The text is the sign, the prefix and the number, with zeros before its digits, and padded to the width on the side
      the flags name; the digits read back as the value. */
  lemma TextSays(value: nat, isSigned: bool, negative: bool, r: Radix, c: Conversion)
    returns (before: nat, zeros: nat, digits: seq<char>, after: nat)
    ensures Numeral(digits, value, r, c.flags.group)
    ensures var sign, prefix := SignText(isSigned, negative, c.flags), PrefixText(value, r, c.flags);
      && Text(value, isSigned, negative, r, c)
         == Times(' ', before) + sign + prefix + Times('0', zeros) + digits + Times(' ', after)
      && Padded(before, zeros, after, |sign| + |prefix| + |digits|, |digits|, r, c)
  {
    digits := Reversed(Digits(value, r, c.flags.group, 0));
    DigitsNumeral(value, r, c.flags.group);
    before, zeros, after := TextIs(value, isSigned, negative, r, c, digits);
  }

  lemma TextIs(value: nat, isSigned: bool, negative: bool, r: Radix, c: Conversion, digits: seq<char>)
    returns (before: nat, zeros: nat, after: nat)
    requires digits == Reversed(Digits(value, r, c.flags.group, 0))
    ensures var sign, prefix := SignText(isSigned, negative, c.flags), PrefixText(value, r, c.flags);
      && Text(value, isSigned, negative, r, c)
         == Times(' ', before) + sign + prefix + Times('0', zeros) + digits + Times(' ', after)
      && Padded(before, zeros, after, |sign| + |prefix| + |digits|, |digits|, r, c)
  {
    var f := c.flags;
    SignIs(value, isSigned, negative, r, f);
    var fill, missing := ZerosFor(|digits|, r, c), Pad(value, isSigned, negative, r, c);
    BufferParts(value, r, c);
    assert |Buffer(value, r, c)| == fill + |digits|;
    before := if f.minus || f.zero then 0 else missing;
    zeros := fill + if f.zero then missing else 0;
    after := if f.minus then missing else 0;
    FieldIs(SignText(isSigned, negative, f), PrefixText(value, r, f), fill, digits, missing, f);
  }

  lemma SignIs(value: nat, isSigned: bool, negative: bool, r: Radix, f: Flags)
    ensures Sign(isSigned, negative, f) == SignText(isSigned, negative, f)
    ensures Prefix(value, r, f) == PrefixText(value, r, f)
  {
  }

  lemma FieldIs(sign: seq<char>, prefix: seq<char>, fill: nat, digits: seq<char>, pad: nat, f: Flags)
    ensures Field(sign, prefix, Times('0', fill) + digits, pad, f)
         == Times(' ', if f.minus || f.zero then 0 else pad) + sign + prefix
            + Times('0', fill + if f.zero then pad else 0) + digits + Times(' ', if f.minus then pad else 0)
  {
    TimesMore('0', if f.zero then pad else 0, fill);
  }
}
