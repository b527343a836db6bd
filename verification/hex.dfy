/** Hexadecimal text: what printf writes, and the two ways the loaders read it back. */
module Hex {
  import opened Bits

  function Digit(d: nat): char
    requires d < 16
  {
    if d < 10 then '0' + d as char else 'A' + (d - 10) as char
  }

  /** The format %w.pX: at least prec digits, more if the number needs them. */
  function PrintHex(n: nat, prec: nat): (s: string)
    ensures |s| >= prec
    decreases n, prec
  {
    if n < 16 && prec <= 1 then [Digit(n)]
    else PrintHex(n / 16, if prec > 0 then prec - 1 else 0) + [Digit(n % 16)]
  }

  function HexByte(b: byte): string {
    [Digit(b / 16), Digit(b % 16)]
  }

  function HexBytes(bs: seq<byte>): (s: string)
    ensures |s| == 2 * |bs|
  {
    if bs == [] then [] else HexByte(bs[0]) + HexBytes(bs[1..])
  }

  /** The digits in order: above 9 the capital letters. */
  lemma HexDigits()
    ensures forall d: nat :: d < 16 ==> Digit(d) == "0123456789ABCDEF"[d]
  {
  }

  /** Bytes in hexadecimal, two digits each, the higher one first. */
  lemma {:induction false} HexText(bs: seq<byte>, i: nat)
    requires i < |bs|
    ensures |HexBytes(bs)| == 2 * |bs|
    ensures HexBytes(bs)[2 * i] == Digit(bs[i] / 16) && HexBytes(bs)[2 * i + 1] == Digit(bs[i] % 16)
  {
    if i > 0 {
      HexText(bs[1..], i - 1);
      assert HexBytes(bs)[2..] == HexBytes(bs[1..]);
    }
  }

  lemma HexPair(a: byte, b: byte)
    ensures HexBytes([a, b]) == [Digit(a / 16), Digit(a % 16), Digit(b / 16), Digit(b % 16)]
  {
    hide HexBytes, Digit;
    HexText([a, b], 0);
    HexText([a, b], 1);
  }

  /** Letters are read in either case, and nothing but digits and these letters counts. */
  lemma DigitValues(c: char)
    ensures forall d: nat :: d < 6 ==> DigitValue("abcdef"[d]) == 10 + d == DigitValue("ABCDEF"[d])
    ensures DigitValue(c) < 16 <==> '0' <= c <= '9' || 'A' <= c <= 'F' || 'a' <= c <= 'f'
    ensures DigitValue(c) <= 16
  {
  }

  /** The number a byte sequence stands for, the highest byte first. */
  function Value(bs: seq<byte>): nat {
    ValueFrom(bs, 0)
  }

  function ValueFrom(bs: seq<byte>, acc: nat): (v: nat)
    ensures v >= acc
    decreases |bs|
  {
    if bs == [] then acc else ValueFrom(bs[1..], acc * 256 + bs[0])
  }

  /** What a hexadecimal digit is worth, 16 for any other character. */
  function DigitValue(c: char): nat {
    if '0' <= c <= '9' then (c - '0') as nat
    else if 'A' <= c <= 'F' then (c - 'A') as nat + 10
    else if 'a' <= c <= 'f' then (c - 'a') as nat + 10
    else 16
  }

  lemma DigitRead(d: nat)
    requires d < 16
    ensures DigitValue(Digit(d)) == d && Digit(d) !in " \t\n\r+-xX"
  {
  }

  /** scan of the boot loader: digits count, blanks are skipped, anything else ends it. */
  function ScanFrom(s: string, acc: nat): nat
    decreases |s|
  {
    if s == [] then acc
    else if DigitValue(s[0]) < 16 then ScanFrom(s[1..], (acc * 16 + DigitValue(s[0])) % WORD)
    else if s[0] == ' ' then ScanFrom(s[1..], acc)
    else acc
  }

  function ScanValue(s: string): int {
    ScanFrom(s, 0)
  }

  /** scan, with its result in data and the rest of the text behind the answer. */
  method Scan(s: string) returns (data: nat, rest: nat)
    ensures data == ScanValue(s) && rest <= |s|
  {
    data, rest := 0, 0;
    while rest < |s|
      invariant 0 <= rest <= |s| && ScanFrom(s[rest..], data) == ScanValue(s)
    {
      var d := DigitValue(s[rest]);
      if d < 16 {
        data := (data * 16 + d) % WORD;
      } else if s[rest] != ' ' {
        rest := rest + 1;
        return;
      }
      rest := rest + 1;
    }
  }

  predicate IsSpace(c: char) {
    c == ' ' || '\t' <= c <= '\r'
  }

  function SkipSpace(s: string): (r: string)
    ensures |r| <= |s|
  {
    if s != [] && IsSpace(s[0]) then SkipSpace(s[1..]) else s
  }

  /** The digits at the head of a text, up to the first other character. */
  function Digits(s: string, acc: nat): nat
    decreases |s|
  {
    if s == [] || DigitValue(s[0]) == 16 then acc else Digits(s[1..], acc * 16 + DigitValue(s[0]))
  }

  function Unprefixed(s: string): string {
    if |s| >= 3 && s[0] == '0' && s[1] in "xX" && DigitValue(s[2]) < 16 then s[2..] else s
  }

  /** strtol with base 16, on a long whose largest value is max. */
  function Strtol(s: string, max: nat): int {
    var t := SkipSpace(s);
    var negative := t != [] && t[0] == '-';
    var u := if t != [] && t[0] in "+-" then t[1..] else t;
    var n := Digits(Unprefixed(u), 0);
    var limit := if negative then max + 1 else max;
    var m := if n > limit then limit else n;
    if negative then 0 - m else m
  }

  /** scan passes over blanks and ends at any other character; strtol takes white space, a sign and
      the prefix 0x, and ends at the first character that is no digit. */
  lemma ReadExample(max: nat)
    requires max >= 0x1F
    ensures ScanValue("1f 2\r3") == 0x1F2 && ScanValue("-1") == 0
    ensures Strtol(" \t-0x1fG", max) == -0x1F && Strtol("+1F 2", max) == 0x1F && Strtol("0xG", max) == 0
  {
    ScanExample();
    StrtolExample(max);
  }

  lemma ScanExample()
    ensures ScanValue("1f 2\r3") == 0x1F2 && ScanValue("-1") == 0
  {
    hide ScanFrom;
    ScanStep("1f 2\r3", 0);
    ScanStep("f 2\r3", 1);
    ScanStep(" 2\r3", 0x1F);
    ScanStep("2\r3", 0x1F);
    ScanStep("\r3", 0x1F2);
    ScanStep("-1", 0);
    assert "1f 2\r3"[1..] == "f 2\r3" && "f 2\r3"[1..] == " 2\r3" && " 2\r3"[1..] == "2\r3" && "2\r3"[1..] == "\r3";
  }

  lemma ScanStep(s: string, acc: nat)
    requires s != []
    ensures ScanFrom(s, acc) == if DigitValue(s[0]) < 16 then ScanFrom(s[1..], (acc * 16 + DigitValue(s[0])) % WORD)
                                else if s[0] == ' ' then ScanFrom(s[1..], acc) else acc
  {
  }

  lemma StrtolExample(max: nat)
    requires max >= 0x1F
    ensures Strtol(" \t-0x1fG", max) == -0x1F && Strtol("+1F 2", max) == 0x1F && Strtol("0xG", max) == 0
  {
    var s, t, u := " \t-0x1fG", "+1F 2", "0xG";
    assert s[1..] == "\t-0x1fG" && s[1..][1..] == "-0x1fG" && SkipSpace(s[1..]) == "-0x1fG";
    assert s[2..][1..] == "0x1fG" && "0x1fG"[2..] == "1fG" && "1fG"[1..] == "fG" && "fG"[1..] == "G";
    assert Digits("fG", 1) == 0x1F && Digits("1fG", 0) == 0x1F;
    assert t[1..] == "1F 2" && "1F 2"[1..] == "F 2" && "F 2"[1..] == " 2";
    assert Digits("F 2", 1) == 0x1F && Digits("1F 2", 0) == 0x1F;
    assert u[1..] == "xG" && Digits(u, 0) == 0;
  }

  /** How a reader turns text into numbers: exactly, up to a largest value. */
  ghost predicate Reads(num: string -> int, max: nat) {
    && (forall d: nat :: d < 16 ==> num([Digit(d)]) == d)
    && forall bs: seq<byte> :: 1 <= |bs| <= 4 ==> num(HexBytes(bs)) == if Value(bs) > max then max else Value(bs)
  }

  lemma ReadsBytes(num: string -> int, max: nat, bs: seq<byte>)
    requires Reads(num, max) && 1 <= |bs| <= 4
    ensures num(HexBytes(bs)) == if Value(bs) > max then max else Value(bs)
  {
  }

  lemma ReadsByte(num: string -> int, max: nat, b: byte)
    requires Reads(num, max) && max >= 255
    ensures num(HexBytes([b])) == b
  {
    hide Reads, HexBytes;
    assert 0 * 256 + [b][0] == b && [b][1..] == [];
    assert ValueFrom([b], 0) == ValueFrom([b][1..], b);
    ReadsBytes(num, max, [b]);
  }

  lemma {:induction false} ValueBound(bs: seq<byte>, acc: nat, k: nat)
    requires acc < Pow2(k)
    ensures ValueFrom(bs, acc) < Pow2(k + 8 * |bs|)
    decreases |bs|
  {
    if bs != [] {
      Pow2Sum(8, k);
      assert Pow2(8) == 256;
      assert k + 8 + 8 * |bs[1..]| == k + 8 * |bs|;
      ValueBound(bs[1..], acc * 256 + bs[0], k + 8);
    }
  }

  lemma FourBytes(bs: seq<byte>)
    requires |bs| <= 4
    ensures Value(bs) < WORD
  {
    ValueBound(bs, 0, 32 - 8 * |bs|);
    Pow32();
  }

  /** scan reads back up to four bytes. */
  lemma {:induction false} ScanHexBytes(bs: seq<byte>, acc: nat)
    requires ValueFrom(bs, acc) < WORD
    ensures ScanFrom(HexBytes(bs), acc) == ValueFrom(bs, acc)
    decreases |bs|
  {
    if bs != [] {
      var hi, lo, s := bs[0] / 16, bs[0] % 16, HexBytes(bs);
      DigitRead(hi);
      DigitRead(lo);
      assert s[1..][1..] == HexBytes(bs[1..]) && s[0] == Digit(hi) && s[1..][0] == Digit(lo);
      assert acc * 256 + bs[0] < WORD;
      ScanTwo(s, acc, hi, lo);
      hide ScanFrom;
      ScanHexBytes(bs[1..], acc * 256 + bs[0]);
    }
  }

  lemma ScanTwo(s: string, acc: nat, hi: nat, lo: nat)
    requires |s| >= 2 && DigitValue(s[0]) == hi < 16 && DigitValue(s[1]) == lo < 16 && acc * 256 + 16 * hi + lo < WORD
    ensures ScanFrom(s, acc) == ScanFrom(s[1..][1..], acc * 256 + 16 * hi + lo)
  {
    hide DigitValue;
    assert ScanFrom(s, acc) == ScanFrom(s[1..], acc * 16 + hi);
    assert ScanFrom(s[1..], acc * 16 + hi) == ScanFrom(s[1..][1..], (acc * 16 + hi) * 16 + lo);
  }

  lemma ScanReads()
    ensures Reads(ScanValue, WORD - 1)
  {
    forall d: nat | d < 16
      ensures ScanValue([Digit(d)]) == d
    {
      DigitRead(d);
      assert ScanFrom([Digit(d)][1..], d) == d;
    }
    forall bs: seq<byte> | 1 <= |bs| <= 4
      ensures ScanValue(HexBytes(bs)) == Value(bs) <= WORD - 1
    {
      FourBytes(bs);
      ScanHexBytes(bs, 0);
    }
  }

  lemma {:induction false} DigitsHexBytes(bs: seq<byte>, acc: nat)
    ensures Digits(HexBytes(bs), acc) == ValueFrom(bs, acc)
    decreases |bs|
  {
    if bs != [] {
      var hi, lo, s := bs[0] / 16, bs[0] % 16, HexBytes(bs);
      DigitRead(hi);
      DigitRead(lo);
      assert s[1..][1..] == HexBytes(bs[1..]) && s[0] == Digit(hi) && s[1..][0] == Digit(lo);
      assert (acc * 16 + hi) * 16 + lo == acc * 256 + bs[0];
      DigitsHexBytes(bs[1..], acc * 256 + bs[0]);
    }
  }

  /** strtol reads back what does not exceed a long, and the largest long for the rest. */
  lemma StrtolReads(max: nat)
    requires max >= 15
    ensures Reads(s => Strtol(s, max), max)
  {
    var num := s => Strtol(s, max);
    forall d: nat | d < 16
      ensures num([Digit(d)]) == d
    {
      DigitRead(d);
      assert SkipSpace([Digit(d)]) == [Digit(d)];
      assert Digits([Digit(d)], 0) == d;
    }
    forall bs: seq<byte> | 1 <= |bs| <= 4
      ensures num(HexBytes(bs)) == if Value(bs) > max then max else Value(bs)
    {
      var s := HexBytes(bs);
      DigitRead(bs[0] / 16);
      DigitRead(bs[0] % 16);
      assert s[0] == Digit(bs[0] / 16) && s[1] == Digit(bs[0] % 16);
      assert SkipSpace(s) == s && Unprefixed(s) == s;
      DigitsHexBytes(bs, 0);
    }
  }

  /** The sum of bytes. */
  function Sum(bs: seq<byte>): nat {
    if bs == [] then 0 else Sum(bs[..|bs| - 1]) + bs[|bs| - 1]
  }

  lemma {:induction false} SumAppend(a: seq<byte>, b: seq<byte>)
    ensures Sum(a + b) == Sum(a) + Sum(b)
    decreases |b|
  {
    if b == [] {
      assert a + b == a;
    } else {
      assert (a + b)[..|a + b| - 1] == a + b[..|b| - 1];
      SumAppend(a, b[..|b| - 1]);
    }
  }

  lemma SumOne(x: byte)
    ensures Sum([x]) == x
  {
    assert [x][..0] == [];
  }

  /** + on uint8_t. */
  function Add8(a: int, b: int): byte {
    (a + b) % 256
  }

  /** Sums on uint8_t are sums, cut once. */
  lemma Add8Sum(total: nat, x: nat)
    ensures Add8(total % 256, x) == (total + x) % 256
  {
    var q := (total % 256 + x) / 256;
    RemainderIs(total + x, 256, total / 256 + q, (total % 256 + x) % 256);
  }

  lemma {:induction false} SumUpdate(a: seq<byte>, k: nat, v: byte)
    requires k < |a|
    ensures Sum(a[k := v]) == Sum(a) - a[k] + v && Sum(a) >= a[k]
    decreases |a|
  {
    var n := |a| - 1;
    if k == n {
      assert a[k := v][..n] == a[..n];
    } else {
      assert a[k := v][..n] == a[..n][k := v];
      SumUpdate(a[..n], k, v);
    }
  }

  lemma {:induction false} HexBytesAppend(a: seq<byte>, b: seq<byte>)
    ensures HexBytes(a + b) == HexBytes(a) + HexBytes(b)
    decreases |a|
  {
    if a == [] {
      assert a + b == b;
    } else {
      assert (a + b)[1..] == a[1..] + b;
      HexBytesAppend(a[1..], b);
    }
  }

  /** The text of a part of the bytes. */
  lemma HexBytesSlice(a: seq<byte>, i: nat, j: nat)
    requires i <= j <= |a|
    ensures HexBytes(a)[2 * i..2 * j] == HexBytes(a[i..j])
  {
    hide HexBytes;
    var x, y, z := a[..i], a[i..j], a[j..];
    Parts(a, i, j);
    HexBytesAppend(x + y, z);
    HexBytesAppend(x, y);
    Middle(HexBytes(x), HexBytes(y), HexBytes(z));
  }

  lemma Parts<T>(a: seq<T>, i: nat, j: nat)
    requires i <= j <= |a|
    ensures a == a[..i] + a[i..j] + a[j..]
  {
  }

  lemma Middle<T>(x: seq<T>, y: seq<T>, z: seq<T>)
    ensures (x + y + z)[|x|..|x| + |y|] == y
  {
    assert x + y + z == x + (y + z);
  }

  /** What the formats %2.2X, %2.4X and %2.8X print for numbers that fit. */
  lemma PrintByte(b: nat)
    requires b < 256
    ensures PrintHex(b, 2) == HexBytes([b as byte])
  {
    assert PrintHex(b / 16, 1) == [Digit(b / 16)];
    assert HexBytes([b as byte]) == HexByte(b as byte) + HexBytes([b as byte][1..]);
  }

  lemma PrintTail(n: nat, prec: nat)
    requires prec >= 2
    ensures PrintHex(n, prec + 2) == PrintHex(n / 256, prec) + HexBytes([n % 256])
  {
    var b := n % 256;
    assert n / 16 / 16 == n / 256 && n / 16 % 16 == b / 16 && n % 16 == b % 16;
    assert HexBytes([n % 256]) == HexByte(b) + HexBytes([n % 256][1..]);
    assert PrintHex(n, prec + 2) == PrintHex(n / 16, prec + 1) + [Digit(n % 16)];
    assert PrintHex(n / 16, prec + 1) == PrintHex(n / 256, prec) + [Digit(n / 16 % 16)];
  }

  /** The line a reader takes from a file: what fgets puts into a buffer of size characters, up
      to the first end-of-line character. */
  function Line(s: string): (r: string)
    ensures |r| <= |s|
  {
    if s == [] || s[0] == '\r' || s[0] == '\n' then [] else [s[0]] + Line(s[1..])
  }

  function FirstLine(file: string, size: nat): string
    requires size > 0
  {
    Line(if |file| < size then file else file[..size - 1])
  }

  predicate OneLine(s: string) {
    forall i :: 0 <= i < |s| ==> s[i] != '\r' && s[i] != '\n'
  }

  /** The line is a beginning of the file without an end of line. It is cut by an end of line, by the
      end of the file, or by the size of the buffer, which holds one character less than its size. */
  lemma FirstLineIs(file: string, size: nat)
    requires size > 0
    ensures var s := FirstLine(file, size);
      && s <= file && OneLine(s) && |s| < size
      && (|s| + 1 == size || |s| == |file| || file[|s|] in "\r\n")
  {
    LineIs(if |file| < size then file else file[..size - 1]);
  }

  lemma {:induction false} LineIs(s: string)
    ensures Line(s) <= s && OneLine(Line(s)) && (|Line(s)| < |s| ==> s[|Line(s)|] in "\r\n")
    decreases |s|
  {
    if s != [] {
      LineIs(s[1..]);
    }
  }

  /** A line as the writers end it is found again, whatever follows. */
  lemma {:induction false} LineFound(s: string, rest: string)
    requires OneLine(s)
    ensures Line(s + "\r\n" + rest) == s
    decreases |s|
  {
    var t := s + "\r\n" + rest;
    if s != [] {
      assert t[1..] == s[1..] + "\r\n" + rest;
      LineFound(s[1..], rest);
    }
  }

  lemma {:induction false} HexOneLine(bs: seq<byte>)
    ensures OneLine(HexBytes(bs))
  {
    if bs != [] {
      DigitRead(bs[0] / 16);
      DigitRead(bs[0] % 16);
      HexOneLine(bs[1..]);
    }
  }

  lemma FirstLineFound(s: string, rest: string, size: nat)
    requires OneLine(s) && |s| + 2 < size
    ensures FirstLine(s + "\r\n" + rest, size) == s
  {
    var file := s + "\r\n" + rest;
    if |file| < size {
      LineFound(s, rest);
    } else {
      assert file[..size - 1] == s + "\r\n" + rest[..size - 3 - |s|];
      LineFound(s, rest[..size - 3 - |s|]);
    }
  }

  /** What the readers and writers of records answer. */
  datatype Status = Ok | Eof | InvalidRecord | InvalidArguments | Newline

  /** strncpy into the conversion buffer: at most len characters from off on. */
  function Field(buf: string, off: nat, len: nat): string
    requires off <= |buf|
  {
    if off + len <= |buf| then buf[off..off + len] else buf[off..]
  }

  /** Bytes that differ make sums that differ, modulo 256. */
  lemma OtherSum(total: nat, was: byte, v: byte)
    requires was != v && total >= was
    ensures (total - was + v) % 256 != total % 256
  {
    var d := (total - was + v) / 256 - total / 256;
    assert v - was == 256 * d + (total - was + v) % 256 - total % 256;
  }
}
