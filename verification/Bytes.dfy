/** Bytes within little-endian words, in memory and in files. */
module Bytes {
  import opened Bits
  import opened Memory

  type Byte = b: int | 0 <= b < 0x100

  function Pow256(n: nat): (r: nat)
    ensures r > 0
  {
    if n == 0 then 1 else 0x100 * Pow256(n - 1)
  }

  /** Byte i of a word. */
  function ByteOf(w: nat, i: nat): Byte {
    if i == 0 then w % 0x100 else ByteOf(w / 0x100, i - 1)
  }

  function SetByte(w: nat, i: nat, b: Byte): nat {
    if i == 0 then w - w % 0x100 + b else SetByte(w / 0x100, i - 1, b) * 0x100 + w % 0x100
  }

  lemma {:induction false} SetByteBelow(w: nat, i: nat, b: Byte, n: nat)
    requires w < Pow256(n) && i < n
    ensures SetByte(w, i, b) < Pow256(n)
  {
    if i > 0 {
      SetByteBelow(w / 0x100, i - 1, b, n - 1);
    }
  }

  lemma SetByteInWord(w: Word, i: nat, b: Byte)
    requires i < 8
    ensures SetByte(w, i, b) < WORD_LIMIT
  {
    assert Pow256(8) == WORD_LIMIT;
    SetByteBelow(w, i, b, 8);
  }

  /** Setting one byte changes that byte and no other. */
  lemma {:induction false} SetByteGets(w: nat, i: nat, b: Byte, j: nat)
    ensures ByteOf(SetByte(w, i, b), j) == if j == i then b else ByteOf(w, j)
  {
    if i > 0 && j > 0 {
      SetByteGets(w / 0x100, i - 1, b, j - 1);
    }
  }

  /** The bytes of a word are its digits to the base 256, the lowest first. */
  lemma {:induction false} ByteDigit(w: nat, i: nat)
    ensures ByteOf(w, i) == w / Pow256(i) % 256
  {
    if i > 0 {
      ByteDigit(w / 0x100, i - 1);
      DivideTwice(w, Pow256(i - 1));
    }
  }

  lemma {:induction false} ZeroByte(i: nat)
    ensures ByteOf(0, i) == 0
  {
    if i > 0 {
      ZeroByte(i - 1);
    }
  }

  /** Byte o of frame f. */
  function FrameByte(ram: Ram, f: nat, o: nat): Byte
    requires f < |ram| && o < PAGE_SIZE
  {
    ByteOf(ram[f][o / 8], o % 8)
  }

  /** What a byte store leaves in memory. */
  function StoreByte(ram: Ram, f: nat, o: nat, b: Byte): Ram
    requires f < |ram| && o < PAGE_SIZE
  {
    StoreWord(ram, f, o / 8, SetByte(ram[f][o / 8], o % 8, b) % WORD_LIMIT)
  }

  lemma StoreByteGets(ram: Ram, f: nat, o: nat, b: Byte, g: nat, p: nat)
    requires f < |ram| && o < PAGE_SIZE && g < |ram| && p < PAGE_SIZE
    ensures FrameByte(StoreByte(ram, f, o, b), g, p) == if g == f && p == o then b else FrameByte(ram, g, p)
  {
    hide ByteOf, SetByte;
    SetByteInWord(ram[f][o / 8], o % 8, b);
    SetByteGets(ram[f][o / 8], o % 8, b, p % 8);
  }

  /** The little-endian number in n bytes from o. */
  function LittleEndian(s: seq<Byte>, o: nat, n: nat): nat
    requires o + n <= |s|
    decreases n
  {
    if n == 0 then 0 else s[o] + 0x100 * LittleEndian(s, o + 1, n - 1)
  }

  lemma {:induction false} LittleEndianBelow(s: seq<Byte>, o: nat, n: nat)
    requires o + n <= |s|
    ensures LittleEndian(s, o, n) < Pow256(n)
    decreases n
  {
    if n > 0 {
      LittleEndianBelow(s, o + 1, n - 1);
    }
  }

  /** The n low bytes of a number, lowest first. */
  function Little(v: nat, n: nat): (r: seq<Byte>)
    ensures |r| == n
  {
    if n == 0 then [] else [v % 0x100] + Little(v / 0x100, n - 1)
  }

  function Number(b: seq<Byte>): nat {
    if b == [] then 0 else b[0] + 0x100 * Number(b[1..])
  }

  lemma {:induction false} NumberLittle(v: nat, n: nat)
    requires v < Pow256(n)
    ensures Number(Little(v, n)) == v
  {
    if n > 0 {
      NumberLittle(v / 0x100, n - 1);
      assert Little(v, n)[1..] == Little(v / 0x100, n - 1);
    }
  }

  /** Byte i of a laid-out number is its digit of weight 256^i. */
  lemma {:induction false} LittleDigit(v: nat, n: nat, i: nat)
    requires i < n
    ensures Little(v, n)[i] == v / Pow256(i) % 256
  {
    if i > 0 {
      LittleDigit(v / 0x100, n - 1, i - 1);
      DivideTwice(v, Pow256(i - 1));
    }
  }

  lemma DivideTwice(v: nat, d: nat)
    requires d > 0
    ensures v / 0x100 / d == v / (0x100 * d)
  {
    var q, r := v / 0x100 / d, v / 0x100 % d;
    assert v == 0x100 * (q * d + r) + v % 0x100;
    assert v == q * (0x100 * d) + (0x100 * r + v % 0x100);
    Quotient(v, 0x100 * d, q, 0x100 * r + v % 0x100);
  }

  lemma Quotient(v: nat, d: nat, q: nat, r: nat)
    requires v == q * d + r && r < d
    ensures v / d == q
  {
    var p := v / d;
    assert v == p * d + v % d;
    if p < q {
      Multiples(p + 1, q, d);
    } else if p > q {
      Multiples(q + 1, p, d);
    }
  }

  lemma Multiples(a: nat, b: nat, d: nat)
    requires a <= b
    ensures a * d <= b * d
  {}

  /** A number laid out at o is what is read there. */
  lemma {:induction false} LittleEndianIs(s: seq<Byte>, o: nat, n: nat, v: nat)
    requires o + n <= |s| && s[o..o + n] == Little(v, n) && v < Pow256(n)
    ensures LittleEndian(s, o, n) == v
    decreases n
  {
    if n > 0 {
      var b := s[o..o + n];
      assert b[0] == s[o] && b[1..] == s[o + 1..o + n] && Little(v, n)[1..] == Little(v / 0x100, n - 1);
      LittleEndianIs(s, o + 1, n - 1, v / 0x100);
    }
  }

  lemma Slice(s: seq<Byte>, i: nat, j: nat, k: nat, l: nat)
    requires i <= j <= |s| && k <= l <= j - i
    ensures s[i..j][k..l] == s[i + k..i + l]
  {
    var a, b := s[i..j][k..l], s[i + k..i + l];
    forall q | 0 <= q < |a| ensures a[q] == b[q] {
      assert s[i..j][k + q] == s[i + k + q];
    }
  }
}
