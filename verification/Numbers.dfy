/** Numbers as text: the kernel's printers, which write digits backwards into a buffer, and its
    readers. */
module Numbers {
  import opened Bits

  /** A digit's character; letters are lower case. */
  function DigitChar(d: nat): char
    requires d < 16
  {
    if d < 10 then '0' + d as char else 'a' + (d - 10) as char
  }

  predicate IsDecimal(c: char) {
    '0' <= c <= '9'
  }

  predicate IsHex(c: char) {
    IsDecimal(c) || 'a' <= c <= 'f' || 'A' <= c <= 'F'
  }

  function DigitValue(c: char): nat
    requires IsHex(c)
  {
    if IsDecimal(c) then c as nat - '0' as nat
    else if 'a' <= c <= 'f' then c as nat - 'a' as nat + 10
    else c as nat - 'A' as nat + 10
  }

  function Base(hex: bool): nat {
    if hex then 16 else 10
  }

  function Shorter(x: nat, hex: bool): (r: nat)
    ensures x > 0 ==> r < x
  {
    if hex then x / 16 else x / 10
  }

  function LastDigit(x: nat, hex: bool): (d: nat)
    ensures d < Base(hex)
  {
    if hex then x % 16 else x % 10
  }

  /** The digits of a number, none for zero. */
  function Digits(x: nat, hex: bool): seq<char> {
    if x == 0 then [] else Digits(Shorter(x, hex), hex) + [DigitChar(LastDigit(x, hex))]
  }

  /** The number as it is printed. */
  function Text(x: nat, hex: bool): (r: seq<char>) {
    if x == 0 then ['0'] else Digits(x, hex)
  }

  predicate IsDigit(c: char, hex: bool) {
    if hex then IsHex(c) else IsDecimal(c)
  }

  predicate AllDigits(s: seq<char>, hex: bool) {
    forall k | 0 <= k < |s| :: IsDigit(s[k], hex)
  }

  function Append(v: nat, base: nat, d: nat): nat {
    v * base + d
  }

  /** What a string of digits is worth. */
  function Value(digits: seq<char>, base: nat): nat
    requires AllDigits(digits, true)
  {
    if digits == [] then 0
    else Append(Value(digits[..|digits| - 1], base), base, DigitValue(digits[|digits| - 1]))
  }

  lemma DigitReads(x: nat, hex: bool)
    ensures var d := DigitChar(LastDigit(x, hex));
      && IsDigit(d, hex) && IsHex(d) && Append(Shorter(x, hex), Base(hex), DigitValue(d)) == x
  {}

  lemma ValueMore(digits: seq<char>, d: char, base: nat)
    requires AllDigits(digits, true) && IsHex(d)
    ensures AllDigits(digits + [d], true)
    ensures Value(digits + [d], base) == Append(Value(digits, base), base, DigitValue(d))
  {
    assert (digits + [d])[..|digits|] == digits;
  }

  /** Printing and reading back. */
  lemma {:induction false} DigitsValue(x: nat, hex: bool)
    ensures AllDigits(Digits(x, hex), hex) && AllDigits(Digits(x, hex), true)
    ensures Value(Digits(x, hex), Base(hex)) == x
  {
    if x > 0 {
      DigitsValue(Shorter(x, hex), hex);
      DigitReads(x, hex);
      var shorter, d := Digits(Shorter(x, hex), hex), DigitChar(LastDigit(x, hex));
      assert Digits(x, hex) == shorter + [d];
      hide IsDigit, IsHex, DigitValue, DigitChar, LastDigit, Shorter, Base, Value, Digits, Append;
      ValueMore(shorter, d, Base(hex));
    }
  }

  lemma TextValue(x: nat, hex: bool)
    ensures Text(x, hex) != []
    ensures AllDigits(Text(x, hex), hex) && AllDigits(Text(x, hex), true)
    ensures Value(Text(x, hex), Base(hex)) == x
  {
    DigitsValue(x, hex);
    assert ['0'][..0] == [];
  }

  function Power(base: nat, n: nat): nat {
    if n == 0 then 1 else base * Power(base, n - 1)
  }

  lemma {:induction false} DigitsFit(x: nat, hex: bool, n: nat)
    requires x < Power(Base(hex), n)
    ensures |Digits(x, hex)| <= n
  {
    if x > 0 {
      DigitsFit(Shorter(x, hex), hex, n - 1);
    }
  }

  /** A 64-bit number has at most 20 decimal and 16 hexadecimal digits. */
  lemma TextFits(x: Word)
    ensures |Text(x, false)| <= 20 && |Text(x, true)| <= 16
  {
    assert Power(10, 5) == 100_000;
    assert Power(10, 10) == 10_000_000_000;
    assert Power(10, 15) == 1_000_000_000_000_000;
    assert Power(10, 20) == 100_000_000_000_000_000_000;
    assert Power(16, 5) == 0x10_0000;
    assert Power(16, 10) == 0x100_0000_0000;
    assert Power(16, 16) == WORD_LIMIT;
    DigitsFit(x, false, 20);
    DigitsFit(x, true, 16);
  }

  // ---------------------------------------------------------------- printing

  /** The text lies between start and s, and nothing else has changed. */
  ghost predicate Printed(was: seq<char>, now: seq<char>, start: nat, s: nat, text: seq<char>) {
    start + |text| == s <= |was| && now == was[..start] + text + was[s..]
  }

  /** Writes one character in front of the text. */
  method Prepend(buffer: array<char>, start: nat, c: char, ghost was: seq<char>, ghost s: nat, ghost text: seq<char>)
    requires 0 < start <= buffer.Length && Printed(was, buffer[..], start, s, text)
    modifies buffer
    ensures Printed(was, buffer[..], start - 1, s, [c] + text)
  {
    buffer[start - 1] := c;
  }

  /** `dec` and `decX`, which differ in the base. */
  method Print(x: Word, hex: bool, buffer: array<char>, s: nat) returns (start: nat)
    requires (if hex then 17 else 21) <= s <= buffer.Length
    modifies buffer
    ensures Printed(old(buffer[..]), buffer[..], start, s, Text(x, hex) + ['\0'])
  {
    ghost var was := buffer[..];
    TextFits(x);
    TextStarts(x, hex);
    Prepend(buffer, s, '\0', was, s, []);
    start := s - 1;
    ghost var text := ['\0'];
    if x == 0 {
      Prepend(buffer, start, '0', was, s, text);
      start := start - 1;
      text := ['0'] + text;
    }
    var v: nat := x;
    hide Printed, LastDigit, DigitChar, Shorter, Digits, Text;
    while v != 0
      invariant start + |text| == s
      invariant Text(x, hex) + ['\0'] == Digits(v, hex) + text
      invariant Printed(was, buffer[..], start, s, text)
    {
      DigitsMore(v, hex, text);
      var c := DigitChar(LastDigit(v, hex));
      Prepend(buffer, start, c, was, s, text);
      start := start - 1;
      text := [c] + text;
      v := Shorter(v, hex);
    }
    assert Digits(0, hex) + text == text;
  }

  lemma TextStarts(x: nat, hex: bool)
    ensures Text(x, hex) == Digits(x, hex) + if x == 0 then ['0'] else []
    ensures Digits(0, hex) == []
  {}

  lemma DigitsMore(x: nat, hex: bool, done: seq<char>)
    requires x > 0
    ensures |Digits(x, hex)| > 0
    ensures Digits(x, hex) + done == Digits(Shorter(x, hex), hex) + ([DigitChar(LastDigit(x, hex))] + done)
  {}

  // ---------------------------------------------------------------- reading

  /** The end of the digits that start at p. */
  function DigitsEnd(s: seq<char>, p: nat, hex: bool): (r: nat)
    requires p <= |s|
    ensures p <= r <= |s| && AllDigits(s[p..r], hex)
    ensures r == |s| || !IsDigit(s[r], hex)
    decreases |s| - p
  {
    if p < |s| && IsDigit(s[p], hex) then DigitsEnd(s, p + 1, hex) else p
  }

  /** What an unsigned integer of 64 or 32 bits keeps of a number. */
  function Wrap(v: nat, wide: bool): nat {
    if wide then v % WORD_LIMIT else v % 0x1_0000_0000
  }

  /** Wrapping at each digit is wrapping once. */
  lemma WrapMore(v: nat, base: nat, d: nat, wide: bool)
    ensures Wrap(Append(Wrap(v, wide), base, d), wide) == Wrap(Append(v, base, d), wide)
  {
    var r := Wrap(v, wide);
    var q := if wide then v / WORD_LIMIT else v / 0x1_0000_0000;
    var limit := if wide then WORD_LIMIT else 0x1_0000_0000;
    assert v == q * limit + r;
    WrapTimes(q * base, r * base + d, wide);
    assert q * base * limit + (r * base + d) == (q * limit + r) * base + d;
  }

  lemma WrapTimes(q: nat, w: nat, wide: bool)
    ensures Wrap(q * (if wide then WORD_LIMIT else 0x1_0000_0000) + w, wide) == Wrap(w, wide)
  {}

  lemma ReadMore(s: seq<char>, p: nat, end: nat, base: nat, hex: bool)
    requires p <= end < |s| && end <= DigitsEnd(s, p, hex) && IsDigit(s[end], hex)
    requires AllDigits(s[p..end], true)
    ensures end + 1 <= DigitsEnd(s, p, hex) && IsHex(s[end]) && AllDigits(s[p..end], true)
    ensures AllDigits(s[p..end + 1], true)
    ensures Value(s[p..end + 1], base) == Append(Value(s[p..end], base), base, DigitValue(s[end]))
  {
    assert s[p..end + 1] == s[p..end] + [s[end]];
    ValueMore(s[p..end], s[end], base);
  }

  lemma DigitWithin(s: seq<char>, p: nat, d: nat, k: nat, hex: bool)
    requires p <= k < d <= |s| && AllDigits(s[p..d], hex)
    ensures IsDigit(s[k], hex)
  {
    assert s[p..d][k - p] == s[k];
  }

  lemma EndIs(s: seq<char>, p: nat, end: nat, hex: bool)
    requires p <= end < |s| && end <= DigitsEnd(s, p, hex) && !IsDigit(s[end], hex)
    ensures end == DigitsEnd(s, p, hex)
  {
    if end < DigitsEnd(s, p, hex) {
      DigitWithin(s, p, DigitsEnd(s, p, hex), end, hex);
    }
  }

  /** `strtoul`: the end of the hexadecimal digits and their value in 64 bits. */
  method Strtoul(s: seq<char>, p: nat, base: nat) returns (value: nat, end: nat)
    requires p <= |s| && DigitsEnd(s, p, true) < |s|
    ensures end == DigitsEnd(s, p, true) && AllDigits(s[p..end], true)
    ensures value == Wrap(Value(s[p..end], base), true)
  {
    value, end := 0, p;
    while IsHex(s[end])
      invariant p <= end <= DigitsEnd(s, p, true) && AllDigits(s[p..end], true)
      invariant value == Wrap(Value(s[p..end], base), true)
      decreases |s| - end
    {
      ReadMore(s, p, end, base, true);
      hide Value, DigitValue, Wrap, DigitsEnd, Append;
      WrapMore(Value(s[p..end], base), base, DigitValue(s[end]), true);
      value := Wrap(Append(value, base, DigitValue(s[end])), true);
      end := end + 1;
    }
    EndIs(s, p, end, true);
  }

  /** `atou`: decimal digits, in 32 bits. */
  method Atou(s: seq<char>, p: nat) returns (value: nat, end: nat)
    requires p <= |s| && DigitsEnd(s, p, false) < |s|
    ensures end == DigitsEnd(s, p, false) && AllDigits(s[p..end], true)
    ensures value == Wrap(Value(s[p..end], 10), false)
  {
    value, end := 0, p;
    while IsDecimal(s[end])
      invariant p <= end <= DigitsEnd(s, p, false) && AllDigits(s[p..end], true)
      invariant value == Wrap(Value(s[p..end], 10), false)
      decreases |s| - end
    {
      ReadMore(s, p, end, 10, false);
      hide Value, DigitValue, Wrap, DigitsEnd, Append;
      WrapMore(Value(s[p..end], 10), 10, DigitValue(s[end]), false);
      value := Wrap(Append(value, 10, DigitValue(s[end])), false);
      end := end + 1;
    }
    EndIs(s, p, end, false);
  }

  /** The text t lies in s at p. */
  predicate At(s: seq<char>, p: nat, t: seq<char>) {
    p + |t| <= |s| && s[p..p + |t|] == t
  }

  lemma {:induction false} DigitsEndIs(s: seq<char>, p: nat, e: nat, hex: bool)
    requires p <= e < |s| && AllDigits(s[p..e], hex) && !IsDigit(s[e], hex)
    ensures DigitsEnd(s, p, hex) == e
    decreases e - p
  {
    if p < e {
      assert s[p..e][0] == s[p];
      assert s[p + 1..e] == s[p..e][1..];
      DigitsEndIs(s, p + 1, e, hex);
    }
  }

  /** Wherever a number is printed, followed by anything but a digit, reading it gives it back. */
  lemma ReadBack(s: seq<char>, p: nat, x: nat, hex: bool)
    requires At(s, p, Text(x, hex)) && p + |Text(x, hex)| < |s| && !IsDigit(s[p + |Text(x, hex)|], hex)
    ensures AllDigits(Text(x, hex), true)
    ensures DigitsEnd(s, p, hex) == p + |Text(x, hex)|
    ensures Value(s[p..DigitsEnd(s, p, hex)], Base(hex)) == x
  {
    TextValue(x, hex);
    DigitsEndIs(s, p, p + |Text(x, hex)|, hex);
  }

  /** What `decX` prints, `strtoul` reads, for every 64-bit number. */
  method HexRoundTrip(x: Word) returns (y: nat)
    ensures y == x
  {
    var buffer := new char[17](_ => '\0');
    var start := Print(x, true, buffer, 17);
    var s := buffer[start..];
    assert s == Text(x, true) + ['\0'];
    ReadBack(s, 0, x, true);
    var end;
    y, end := Strtoul(s, 0, 16);
  }

  // ---------------------------------------------------------------- which characters, in which order

  lemma DigitCharacters(d: nat)
    requires d < 16
    ensures DigitChar(d) == "0123456789abcdef"[d]
  {}

  lemma DigitValues(d: nat)
    requires d < 16
    ensures IsHex("0123456789abcdef"[d]) && DigitValue("0123456789abcdef"[d]) == d
    ensures IsHex("0123456789ABCDEF"[d]) && DigitValue("0123456789ABCDEF"[d]) == d
    ensures d < 10 <==> IsDecimal("0123456789abcdef"[d])
  {}

  lemma HexDigits(c: char)
    ensures IsHex(c) <==> c in "0123456789abcdefABCDEF"
    ensures IsDecimal(c) <==> c in "0123456789"
  {}

  /** The most significant digit comes first, and is not a zero unless it is the only one. */
  lemma {:induction false} DigitsOrder(x: nat, hex: bool)
    requires x > 0
    ensures Digits(x, hex) != []
    ensures Digits(x, hex)[0] != '0'
    ensures Digits(x, hex)[|Digits(x, hex)| - 1] == "0123456789abcdef"[LastDigit(x, hex)]
  {
    DigitCharacters(LastDigit(x, hex));
    if Shorter(x, hex) > 0 {
      DigitsOrder(Shorter(x, hex), hex);
    }
  }
}
