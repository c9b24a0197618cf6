/**
 Printing numbers (lib/libc/src/stdio/format.c) and reading them back
 (userland/pablo/src/text.c).
 */
module Numbers {

  const INT_MAX := 0x7fff_ffff
  const UINT32_MAX := 0xffff_ffff

  type UInt64 = x: int | 0 <= x < 0x1_0000_0000_0000_0000
  type Int64 = x: int | -0x8000_0000_0000_0000 <= x < 0x8000_0000_0000_0000
  type Base = b: int | b == 8 || b == 10 || b == 16 witness 10

  // ----- Digits and their value

  const LOWER := "0123456789abcdef"
  const UPPER := "0123456789ABCDEF"

  function DigitChar(d: nat, upper: bool): char
    requires d < 16
  {
    if upper then UPPER[d] else LOWER[d]
  }

  /** The value of a digit, or -1. */
  function DigitValue(c: char): (r: int)
    ensures -1 <= r < 16
  {
    if '0' <= c <= '9' then c as int - '0' as int
    else if 'a' <= c <= 'f' then c as int - 'a' as int + 10
    else if 'A' <= c <= 'F' then c as int - 'A' as int + 10
    else -1
  }

  lemma DigitRoundTrip(d: nat, upper: bool)
    requires d < 16
    ensures DigitValue(DigitChar(d, upper)) == d
  {
  }

  /** Digits from ten on are capitals if and only if capitals were asked for. */
  lemma DigitCase(d: nat, upper: bool)
    requires d < 16
    ensures d < 10 ==> '0' <= DigitChar(d, upper) <= '9'
    ensures d >= 10 ==> if upper then 'A' <= DigitChar(d, upper) <= 'F' else 'a' <= DigitChar(d, upper) <= 'f'
  {
  }

  predicate AllDigits(s: string, base: nat) {
    forall k :: 0 <= k < |s| ==> 0 <= DigitValue(s[k]) < base
  }

  /** What a string of digits stands for. */
  function Eval(s: string, base: nat): nat
    requires AllDigits(s, base)
  {
    if s == "" then 0 else Eval(s[..|s| - 1], base) * base + DigitValue(s[|s| - 1])
  }

  function Digits(v: nat, base: Base, upper: bool): (s: string)
    ensures |s| > 0
    decreases v
  {
    if v < base then [DigitChar(v, upper)]
    else Digits(Quo(v, base), base, upper) + [DigitChar(Rem(v, base), upper)]
  }

  function Quo(v: nat, base: Base): (r: nat)
    ensures v > 0 ==> r < v
    ensures r == 0 <==> v < base
  {
    Quotient(v, base);
    v / base
  }

  function Rem(v: nat, base: Base): (r: nat)
    ensures r < base && (v < base ==> r == v)
  {
    Quotient(v, base);
    v % base
  }

  lemma Quotient(v: nat, base: Base)
    ensures 0 <= v % base < base && 0 <= v / base && v / base * base + v % base == v
    ensures v / base <= v / 8 && (v > 0 ==> v / base < v) && (v / base == 0 <==> v < base)
  {
    if base == 8 {
      assert v / base == v / 8;
    } else if base == 10 {
      assert v / base == v / 10 && v % base == v % 10;
    } else {
      assert v / base == v / 16 && v % base == v % 16;
    }
  }

  /** Printed digits evaluate back to the number. */
  lemma {:induction false} DigitsEval(v: nat, base: Base, upper: bool)
    ensures AllDigits(Digits(v, base, upper), base) && Eval(Digits(v, base, upper), base) == v
    decreases v
  {
    var s := Digits(v, base, upper);
    if v < base {
      DigitRoundTrip(v, upper);
      assert s[..|s| - 1] == "";
      assert Eval("", base) == 0;
    } else {
      Quotient(v, base);
      DigitsEval(Quo(v, base), base, upper);
      DigitRoundTrip(Rem(v, base), upper);
      assert s[..|s| - 1] == Digits(Quo(v, base), base, upper);
    }
  }

  /** No capitals in `%x` and nothing else in `%X`; no zero in front of another digit. */
  lemma {:induction false} DigitsCanonical(v: nat, base: Base, upper: bool)
    ensures var s := Digits(v, base, upper);
            && (forall k :: 0 <= k < |s| ==>
                  '0' <= s[k] <= '9' || (if upper then 'A' <= s[k] <= 'F' else 'a' <= s[k] <= 'f'))
            && (s[0] == '0' <==> v == 0) && (v == 0 ==> s == "0")
    decreases v
  {
    hide DigitChar, Quo, Rem;
    if v < base {
      DigitCase(v, upper);
      ZeroOnly(v, upper);
    } else {
      Quotient(v, base);
      DigitsCanonical(Quo(v, base), base, upper);
      DigitCase(Rem(v, base), upper);
    }
  }

  lemma ZeroOnly(d: nat, upper: bool)
    requires d < 16
    ensures DigitChar(d, upper) == '0' <==> d == 0
  {
  }

  function Eights(n: nat): nat {
    if n == 0 then 1 else 8 * Eights(n - 1)
  }

  lemma {:induction false} DigitsShort(v: nat, base: Base, upper: bool, n: nat)
    requires n > 0 && v < Eights(n)
    ensures |Digits(v, base, upper)| <= n
    decreases n
  {
    if v >= base {
      Quotient(v, base);
      DigitsShort(Quo(v, base), base, upper, n - 1);
    }
  }

  /** A 64-bit number has at most 22 digits, so the 32-byte buffer is enough. */
  lemma DigitsFit(v: UInt64, base: Base, upper: bool)
    ensures |Digits(v, base, upper)| <= 22
  {
    assert Eights(6) == 0x4_0000;
    assert Eights(12) == 0x10_0000_0000;
    assert Eights(18) == 0x40_0000_0000_0000;
    assert Eights(22) == 0x4_0000_0000_0000_0000;
    DigitsShort(v, base, upper, 22);
  }

  // ----- The printed field

  function Repeat(c: char, n: int): (s: string)
    ensures |s| == if n < 0 then 0 else n
    ensures forall k :: 0 <= k < |s| ==> s[k] == c
  {
    if n <= 0 then "" else Repeat(c, n - 1) + [c]
  }

  function Marker(upper: bool, negative: bool, prefix: bool): string {
    (if negative then "-" else "") + if !prefix then "" else if upper then "0X" else "0x"
  }

  /** The room the padding leaves for the marker; no conversion has both a sign and a prefix. */
  function MarkerRoom(negative: bool, prefix: bool): nat {
    if negative then 1 else if prefix then 2 else 0
  }

  lemma MarkerLength(upper: bool, negative: bool, prefix: bool)
    ensures |Marker(upper, negative, prefix)| == MarkerRoom(negative, prefix) + if negative && prefix then 2 else 0
  {
  }

  /** The text of a number: spaces, sign or prefix, zeros, digits. */
  function Number(v: nat, base: Base, upper: bool, negative: bool, prefix: bool, width: int, zero: bool): string {
    var digits, marker := Digits(v, base, upper), Marker(upper, negative, prefix);
    var pad := width - |digits| - MarkerRoom(negative, prefix);
    if zero then marker + Repeat('0', pad) + digits else Repeat(' ', pad) + marker + digits
  }

  lemma NumberLength(v: nat, base: Base, upper: bool, negative: bool, prefix: bool, width: int, zero: bool)
    ensures var n := |Digits(v, base, upper)| + MarkerRoom(negative, prefix);
      |Number(v, base, upper, negative, prefix, width, zero)| ==
      (if width > n then width else n) + if negative && prefix then 2 else 0
  {
    hide Digits, Repeat;
  }

  lemma ZeroDigit()
    ensures DigitValue('0') == 0
  {
  }

  lemma EvalSnoc(s: string, c: char, base: Base)
    requires AllDigits(s, base) && 0 <= DigitValue(c) < base
    ensures AllDigits(s + [c], base) && Eval(s + [c], base) == Eval(s, base) * base + DigitValue(c)
  {
    hide DigitValue;
    assert (s + [c])[..|s|] == s;
  }

  lemma {:induction false} ZerosOnly(s: string, base: Base)
    requires forall k :: 0 <= k < |s| ==> s[k] == '0'
    ensures AllDigits(s, base) && Eval(s, base) == 0
  {
    if s != "" {
      var front := s[..|s| - 1];
      hide DigitValue, Eval, AllDigits;
      ZeroDigit();
      ZerosOnly(front, base);
      EvalSnoc(front, '0', base);
      Nothing(Eval(front, base), base);
      assert front + ['0'] == s;
    }
  }

  lemma Nothing(x: nat, base: nat)
    requires x == 0
    ensures x * base == 0
  {
  }

  lemma ZerosSnoc(zeros: string, front: string, c: char, base: Base)
    requires AllDigits(front, base) && AllDigits(zeros + front, base) && Eval(zeros + front, base) == Eval(front, base)
    requires 0 <= DigitValue(c) < base
    ensures AllDigits(zeros + (front + [c]), base)
    ensures AllDigits(front + [c], base) && Eval(zeros + (front + [c]), base) == Eval(front + [c], base)
  {
    hide *;
    EvalSnoc(front, c, base);
    EvalSnoc(zeros + front, c, base);
    Associative(zeros, front, [c]);
  }

  lemma SplitDigits(s: string, base: Base)
    requires AllDigits(s, base) && s != ""
    ensures AllDigits(s[..|s| - 1], base) && 0 <= DigitValue(s[|s| - 1]) < base && s[..|s| - 1] + [s[|s| - 1]] == s
  {
  }

  lemma {:induction false} ZerosEval(n: int, s: string, base: Base)
    requires AllDigits(s, base)
    ensures AllDigits(Repeat('0', n) + s, base) && Eval(Repeat('0', n) + s, base) == Eval(s, base)
    decreases |s|
  {
    var zeros := Repeat('0', n);
    if s == "" {
      ZerosOnly(zeros, base);
      assert zeros + s == zeros;
    } else {
      hide *;
      SplitDigits(s, base);
      ZerosEval(n, s[..|s| - 1], base);
      ZerosSnoc(zeros, s[..|s| - 1], s[|s| - 1], base);
    }
  }

  /** How a reader takes a number apart: leading spaces, then a marker, then digits. */
  ghost predicate Reads(text: string, marker: string, base: Base, v: nat) {
    exists spaces: nat, digits: string ::
      text == Repeat(' ', spaces) + marker + digits && digits != "" && AllDigits(digits, base)
        && Eval(digits, base) == v
  }

  lemma NumberReads(v: nat, base: Base, upper: bool, negative: bool, prefix: bool, width: int, zero: bool)
    ensures Reads(Number(v, base, upper, negative, prefix, width, zero), Marker(upper, negative, prefix), base, v)
  {
    hide Digits, Eval, Repeat, AllDigits, Marker;
    var digits, marker := Digits(v, base, upper), Marker(upper, negative, prefix);
    var pad := width - |digits| - MarkerRoom(negative, prefix);
    DigitsEval(v, base, upper);
    if zero {
      ZerosEval(pad, digits, base);
      var rest := Repeat('0', pad) + digits;
      assert marker + Repeat('0', pad) + digits == Repeat(' ', 0) + marker + rest;
      assert Number(v, base, upper, negative, prefix, width, zero) == Repeat(' ', 0) + marker + rest;
    } else {
      var spaces: nat := if pad < 0 then 0 else pad;
      assert Repeat(' ', spaces) == Repeat(' ', pad);
      assert Number(v, base, upper, negative, prefix, width, zero) == Repeat(' ', spaces) + marker + digits;
    }
  }

  /** A hexadecimal number is read behind its prefix, in the case that was asked for. */
  lemma HexReads(v: nat, upper: bool, width: int, zero: bool)
    ensures Reads(Number(v, 16, upper, false, true, width, zero), if upper then "0X" else "0x", 16, v)
  {
    hide Digits, Number, Reads;
    assert Marker(upper, false, true) == if upper then "0X" else "0x";
    NumberReads(v, 16, upper, false, true, width, zero);
  }

  /** With the zero flag there are no spaces; without it nothing but spaces is put in front, and the digits
      are the shortest ones. */
  lemma PaddingOnly(v: nat, base: Base, upper: bool, negative: bool, prefix: bool, width: int, zero: bool)
    ensures var text := Number(v, base, upper, negative, prefix, width, zero);
            if zero then ' ' !in text
            else exists n: nat, digits: string :: text == Repeat(' ', n) + Marker(upper, negative, prefix) + digits
                   && digits != "" && (digits[0] == '0' ==> digits == "0")
  {
    var digits, marker := Digits(v, base, upper), Marker(upper, negative, prefix);
    DigitsCanonical(v, base, upper);
    hide Digits, Repeat;
    var pad := width - |digits| - MarkerRoom(negative, prefix);
    if zero {
      assert ' ' !in Repeat('0', pad) && ' ' !in digits && ' ' !in marker;
    } else {
      var n: nat := if pad < 0 then 0 else pad;
      assert Repeat(' ', n) == Repeat(' ', pad);
    }
  }

  // ----- The printer

  /** The number as what the printer emits one after the other. */
  lemma NumberParts(v: nat, base: Base, upper: bool, negative: bool, prefix: bool, width: int, zero: bool,
                    front: string)
    ensures var digits, marker := Digits(v, base, upper), Marker(upper, negative, prefix);
      var spaces := if zero then "" else Repeat(' ', width - (|digits| + MarkerRoom(negative, prefix)));
      var zeros := if zero then Repeat('0', width - (|digits| + MarkerRoom(negative, prefix))) else "";
      && front + Number(v, base, upper, negative, prefix, width, zero) == front + spaces + marker + zeros + digits
      && |Number(v, base, upper, negative, prefix, width, zero)| == |spaces| + |marker| + |zeros| + |digits|
  {
    hide Digits, Repeat, Marker;
  }

  class Stream {
    var text: string
    var total: nat

    constructor ()
      ensures text == "" && total == 0
    {
      text, total := "", 0;
    }

    method Emit(data: string) returns (ok: bool)
      requires total <= INT_MAX
      modifies this
      ensures ok <==> old(total) + |data| <= INT_MAX
      ensures ok ==> text == old(text) + data && total == old(total) + |data|
      ensures !ok ==> text == old(text) && total == old(total)
    {
      if |data| > INT_MAX - total {
        return false;
      }
      text, total := text + data, total + |data|;
      return true;
    }

    /** One character at a time while the width is larger than what follows. */
    method EmitPadding(padding: char, width: int, rest: nat) returns (ok: bool)
      requires total <= INT_MAX
      modifies this
      ensures ok <==> old(total) + |Repeat(padding, width - rest)| <= INT_MAX
      ensures ok ==> text == old(text) + Repeat(padding, width - rest)
      ensures ok ==> total == old(total) + |Repeat(padding, width - rest)|
      ensures total <= INT_MAX && old(text) <= text
    {
      var left := width;
      while left > rest
        invariant width <= rest ==> left == width
        invariant width > rest ==> rest <= left <= width
        invariant total == old(total) + (width - left) <= INT_MAX
        invariant text == old(text) + Repeat(padding, width - left)
      {
        ok := Emit([padding]);
        if !ok {
          return;
        }
        left := left - 1;
      }
      return true;
    }

    method EmitMarker(upper: bool, negative: bool, prefix: bool) returns (ok: bool)
      requires total <= INT_MAX
      modifies this
      ensures ok <==> old(total) + |Marker(upper, negative, prefix)| <= INT_MAX
      ensures ok ==> text == old(text) + Marker(upper, negative, prefix)
      ensures ok ==> total == old(total) + |Marker(upper, negative, prefix)|
      ensures old(text) <= text
    {
      if negative {
        ok := Emit("-");
        if !ok {
          return;
        }
      }
      if prefix {
        ok := Emit(if upper then "0X" else "0x");
        if !ok {
          return;
        }
      }
      return true;
    }

    /** Prints `Number`, unless the count of characters would pass `INT_MAX`. */
    method EmitNumber(v: UInt64, base: Base, upper: bool, negative: bool, prefix: bool, width: int, zero: bool)
      returns (ok: bool)
      requires total <= INT_MAX
      modifies this
      ensures ok <==> old(total) + |Number(v, base, upper, negative, prefix, width, zero)| <= INT_MAX
      ensures ok ==> text == old(text) + Number(v, base, upper, negative, prefix, width, zero)
      ensures ok ==> total == old(total) + |Number(v, base, upper, negative, prefix, width, zero)|
      ensures old(text) <= text
    {
      hide *;
      var buffer, length := FillBuffer(v, base, upper);
      var marker := MarkerRoom(negative, prefix);
      MarkerLength(upper, negative, prefix);
      NumberParts(v, base, upper, negative, prefix, width, zero, old(text));
      if !zero {
        ok := EmitPadding(' ', width, length + marker);
        if !ok {
          return;
        }
      }
      ok := EmitMarker(upper, negative, prefix);
      if !ok {
        return;
      }
      if zero {
        ok := EmitPadding('0', width, length + marker);
        if !ok {
          return;
        }
      }
      ok := EmitBuffer(buffer, length);
    }

    /** The buffer holds the digits backwards. */
    method EmitBuffer(buffer: array<char>, length: nat) returns (ok: bool)
      requires total <= INT_MAX && length <= buffer.Length
      modifies this
      ensures ok <==> old(total) + length <= INT_MAX
      ensures ok ==> text == old(text) + Backwards(buffer[..length]) && total == old(total) + length
      ensures old(text) <= text
    {
      var left := length;
      while left > 0
        invariant 0 <= left <= length && total == old(total) + (length - left) <= INT_MAX
        invariant text + Backwards(buffer[..left]) == old(text) + Backwards(buffer[..length])
        invariant old(text) <= text
      {
        left := left - 1;
        assert buffer[..left + 1][..left] == buffer[..left];
        ok := Emit([buffer[left]]);
        if !ok {
          return;
        }
      }
      return true;
    }
  }

  function Backwards(s: string): (r: string)
    ensures |r| == |s|
  {
    if s == "" then "" else [s[|s| - 1]] + Backwards(s[..|s| - 1])
  }

  /** The digits still to come. */
  function Lead(v: nat, base: Base, upper: bool): string {
    if v == 0 then "" else Digits(v, base, upper)
  }

  lemma BackwardsSnoc(done: string, c: char)
    ensures Backwards(done + [c]) == [c] + Backwards(done)
  {
    assert (done + [c])[..|done|] == done;
  }

  lemma LeadSnoc(v: nat, base: Base, upper: bool)
    ensures Lead(Quo(v, base), base, upper) + [DigitChar(Rem(v, base), upper)] == Digits(v, base, upper)
  {
    hide DigitChar, Quo, Rem;
  }

  lemma Associative(a: string, b: string, c: string)
    ensures a + (b + c) == a + b + c
  {
  }

  lemma LeadStep(v: nat, base: Base, upper: bool, done: string)
    ensures Lead(Quo(v, base), base, upper) + Backwards(done + [DigitChar(Rem(v, base), upper)]) ==
      Digits(v, base, upper) + Backwards(done)
  {
    BackwardsSnoc(done, DigitChar(Rem(v, base), upper));
    LeadSnoc(v, base, upper);
    Associative(Lead(Quo(v, base), base, upper), [DigitChar(Rem(v, base), upper)], Backwards(done));
    hide *;
  }

  /** The digits, least significant first, in 32 bytes. */
  method FillBuffer(v: UInt64, base: Base, upper: bool) returns (buffer: array<char>, length: nat)
    ensures fresh(buffer) && buffer.Length == 32 && length <= 32
    ensures Backwards(buffer[..length]) == Digits(v, base, upper)
  {
    hide DigitChar, Quo, Rem, Digits, Backwards;
    buffer := new char[32];
    DigitsFit(v, base, upper);
    length := 0;
    var value: nat := v;
    var more := true;
    assert Backwards(buffer[..0]) == "";
    while more
      invariant length <= 22 && buffer.Length == 32
      invariant more ==> length + |Digits(value, base, upper)| == |Digits(v, base, upper)|
      invariant more ==> Digits(value, base, upper) + Backwards(buffer[..length]) == Digits(v, base, upper)
      invariant !more ==> Backwards(buffer[..length]) == Digits(v, base, upper)
      decreases more, value
    {
      ghost var done := buffer[..length];
      var c := DigitChar(Rem(value, base), upper);
      LeadStep(value, base, upper, done);
      buffer[length] := c;
      length := length + 1;
      assert buffer[..length] == done + [c];
      value := Quo(value, base);
      more := value != 0;
    }
  }

  // ----- Signed numbers

  /** The magnitude as the printer computes it, without leaving 64 bits on the way. */
  function Magnitude(v: Int64): (r: UInt64)
    ensures r as int == if v < 0 then -(v as int) else v as int
  {
    if v < 0 then
      var shifted: Int64 := v + 1;
      var positive: Int64 := -shifted;
      positive + 1
    else v
  }

  /** `%d` reads back as the number, down to the smallest one. */
  lemma SignedReads(v: Int64, width: int, zero: bool)
    ensures Reads(Number(Magnitude(v), 10, false, v < 0, false, width, zero), if v < 0 then "-" else "", 10,
                  if v < 0 then -(v as int) else v as int)
  {
    hide Digits, Number, Reads;
    assert Marker(false, v < 0, false) == if v < 0 then "-" else "";
    NumberReads(Magnitude(v), 10, false, v < 0, false, width, zero);
  }

  // ----- Reading numbers

  predicate Decimal(s: string) {
    forall k :: 0 <= k < |s| ==> '0' <= s[k] <= '9'
  }

  lemma DecimalDigits(s: string)
    ensures Decimal(s) <==> AllDigits(s, 10)
  {
    if AllDigits(s, 10) {
      forall k | 0 <= k < |s| ensures '0' <= s[k] <= '9' {
        assert 0 <= DigitValue(s[k]) < 10;
      }
    }
  }

  lemma {:induction false} PrefixSmaller(s: string, k: nat)
    requires AllDigits(s, 10) && k <= |s|
    ensures Eval(s[..k], 10) <= Eval(s, 10)
  {
    if k == |s| {
      assert s[..k] == s;
    } else {
      PrefixSmaller(s[..|s| - 1], k);
      assert s[..|s| - 1][..k] == s[..k];
    }
  }

  /** Accepts exactly the non-empty digit strings that fit in 32 bits. */
  method ParseUnsigned(text: string) returns (ok: bool, value: nat)
    ensures ok <==> text != "" && AllDigits(text, 10) && Eval(text, 10) <= UINT32_MAX
    ensures ok ==> value == Eval(text, 10)
  {
    if text == "" {
      return false, 0;
    }
    value := 0;
    var i := 0;
    while i < |text|
      invariant 0 <= i <= |text| && AllDigits(text[..i], 10) && value == Eval(text[..i], 10) <= UINT32_MAX
    {
      if text[i] < '0' || text[i] > '9' {
        DecimalDigits(text);
        return false, 0;
      }
      var digit := text[i] as int - '0' as int;
      assert text[..i + 1][..i] == text[..i] && text[..i + 1][i] == text[i];
      assert AllDigits(text[..i + 1], 10);
      assert Eval(text[..i + 1], 10) == value * 10 + digit;
      if value > (UINT32_MAX - digit) / 10 {
        if AllDigits(text, 10) {
          PrefixSmaller(text, i + 1);
        }
        return false, 0;
      }
      value := value * 10 + digit;
      i := i + 1;
    }
    assert text[..i] == text;
    return true, value;
  }

  /** The reader accepts the printed number, and gives it back, exactly when no spaces were put before it. */
  lemma ParseInvertsPrint(v: nat, width: int, zero: bool)
    requires v <= UINT32_MAX
    ensures var text := Number(v, 10, false, false, false, width, zero);
      text != "" && (AllDigits(text, 10) <==> zero || width <= |Digits(v, 10, false)|)
    ensures var text := Number(v, 10, false, false, false, width, zero);
      AllDigits(text, 10) ==> Eval(text, 10) == v
  {
    hide Digits, Eval, Repeat;
    var digits := Digits(v, 10, false);
    var pad := width - |digits|;
    var text := Number(v, 10, false, false, false, width, zero);
    DigitsEval(v, 10, false);
    if zero {
      assert text == Repeat('0', pad) + digits;
      ZerosEval(pad, digits, 10);
    } else {
      assert text == Repeat(' ', pad) + digits;
      if pad > 0 {
        assert text[0] == ' ';
        assert DigitValue(text[0]) == -1;
      } else {
        assert text == digits;
      }
    }
  }

  /** The width of a conversion saturates at `INT_MAX`. */
  method ParseWidth(digits: string) returns (width: nat)
    requires AllDigits(digits, 10)
    ensures width == if Eval(digits, 10) <= INT_MAX then Eval(digits, 10) else INT_MAX
  {
    width := 0;
    var i := 0;
    while i < |digits|
      invariant 0 <= i <= |digits|
      invariant width == if Eval(digits[..i], 10) <= INT_MAX then Eval(digits[..i], 10) else INT_MAX
    {
      var digit := DigitValue(digits[i]);
      assert digits[..i + 1][..i] == digits[..i] && digits[..i + 1][i] == digits[i];
      if width <= (INT_MAX - digit) / 10 {
        width := width * 10 + digit;
      } else {
        width := INT_MAX;
      }
      i := i + 1;
    }
    assert digits[..i] == digits;
  }
}
