/** Intel HEX records: the writer and the reader. */
module IHex {
  import opened Bits
  import opened Hex

  const MAX_DATA_LEN: nat := 512    // hexadecimal digits
  const BUFF_SIZE: nat := 768

  /** A record as a value. Type and length are of the signed type int; with a negative length there are
      no data. */
  datatype Rec = Rec(rtype: int, dataLen: int, address: nat, data: seq<byte>) {
    predicate Typed() {
      && address < 0x1_0000 && |data| == (if dataLen < 0 then 0 else dataLen) && dataLen <= MAX_DATA_LEN / 2
      && -0x8000_0000 <= dataLen && -0x8000_0000 <= rtype < 0x8000_0000
    }

    /** Length and type fit into one byte each. */
    predicate Fits() {
      0 <= dataLen < 256 && 0 <= rtype < 256
    }
  }

  /** The two's complement of the sum of length, type, address and data. */
  function Checksum(r: Rec): byte {
    (256 - (r.dataLen + r.rtype + r.address % 256 + r.address / 256 % 256 + Sum(r.data)) % 256) % 256
  }

  /** The bytes the text of a record holds. */
  function Contents(r: Rec): seq<byte>
    requires r.Typed() && r.Fits()
  {
    [|r.data|, r.address / 256, r.address % 256, r.rtype] + r.data + [Checksum(r)]
  }

  function Text(bs: seq<byte>): string {
    [':'] + HexBytes(bs)
  }

  /** An int as printf takes it for the format X, as unsigned. */
  function Unsigned(n: int): nat {
    n % WORD
  }

  /** What the writer prints, field by field. */
  function Written(r: Rec): string {
    [':'] + PrintHex(Unsigned(r.dataLen), 2) + PrintHex(r.address, 4) + PrintHex(Unsigned(r.rtype), 2)
    + HexBytes(r.data)
    + PrintHex(Checksum(r), 2)
  }

  class IHexRecord {
    var rtype: int
    var address: nat
    const data: array<byte>
    var dataLen: int
    var checksum: byte

    constructor ()
      ensures data.Length == MAX_DATA_LEN / 2 && fresh(data)
    {
      data := new byte[MAX_DATA_LEN / 2](i => 0);
      rtype, address, dataLen, checksum := 0, 0, 0, 0;
    }

    /** What the widths of the fields allow. */
    predicate InRange()
      reads this
    {
      && data.Length == MAX_DATA_LEN / 2 && address < 0x1_0000
      && -0x8000_0000 <= dataLen < 0x8000_0000 && -0x8000_0000 <= rtype < 0x8000_0000
    }

    ghost predicate Valid()
      reads this, data
    {
      InRange() && dataLen <= data.Length
    }

    ghost function Value(): Rec
      requires Valid()
      reads this, data
    {
      Rec(rtype, dataLen, address, data[..if dataLen < 0 then 0 else dataLen])
    }
  }

  /** Checksum_IHexRecord, on uint8_t. */
  method ChecksumIHexRecord(s: IHexRecord) returns (checksum: byte)
    requires s.Valid()
    ensures checksum == Checksum(s.Value())
  {
    var sum: byte := s.dataLen % 256;
    hide Add8;
    ghost var base := s.dataLen;
    SumMore(base, s.rtype);
    sum := Add8(sum, s.rtype);
    base := base + s.rtype;
    SumMore(base, s.address % 256);
    sum := Add8(sum, s.address % 256);
    base := base + s.address % 256;
    SumMore(base, s.address / 256 % 256);
    sum := Add8(sum, s.address / 256 % 256);
    base := base + s.address / 256 % 256;
    assert s.data[..0] == [];
    var i := 0;
    while i < s.dataLen
      invariant 0 <= i <= (if s.dataLen < 0 then 0 else s.dataLen) && sum == (base + Sum(s.data[..i])) % 256
    {
      assert s.data[..i + 1][..i] == s.data[..i];
      SumMore(base + Sum(s.data[..i]), s.data[i]);
      sum := Add8(sum, s.data[i]);
      i := i + 1;
    }
    checksum := (255 - sum + 1) % 256;
  }

  /** Sums on uint8_t, of numbers of any sign. */
  lemma SumMore(total: int, x: int)
    ensures Add8(total % 256, x) == (total + x) % 256
  {
  }

  /** Write_IHexRecord, into text. */
  method WriteIHexRecord(s: IHexRecord) returns (res: Status, out: string)
    requires s.InRange()
    ensures res.Ok? <==> s.dataLen <= MAX_DATA_LEN / 2
    ensures res.Ok? ==> out == Written(s.Value()) + "\r\n"
  {
    hide PrintHex, HexBytes, Checksum;
    out := "";
    if s.dataLen > MAX_DATA_LEN / 2 {
      return InvalidRecord, out;
    }
    out := [':'] + PrintHex(Unsigned(s.dataLen), 2) + PrintHex(s.address, 4) + PrintHex(Unsigned(s.rtype), 2);
    out := WriteBytes(out, s.data[..if s.dataLen < 0 then 0 else s.dataLen]);
    var checksum := ChecksumIHexRecord(s);
    out := out + PrintHex(checksum, 2) + "\r\n";
    res := Ok;
  }

  /** The loop over the data bytes. */
  method WriteBytes(start: string, data: seq<byte>) returns (out: string)
    ensures out == start + HexBytes(data)
  {
    out := start;
    var i := 0;
    assert data[..0] == [] && HexBytes([]) == [];
    while i < |data|
      invariant 0 <= i <= |data| && out == start + HexBytes(data[..i])
    {
      PrintByte(data[i]);
      HexBytesAppend(data[..i], [data[i]]);
      assert data[..i + 1] == data[..i] + [data[i]];
      out := out + PrintHex(data[i], 2);
      i := i + 1;
    }
    assert data[..i] == data;
  }

  datatype Parsed = NotRecord | Parsed(r: Rec)

  function ParseData(buf: string, n: nat, num: string -> int): (d: seq<byte>)
    requires 9 + 2 * n <= |buf|
    ensures |d| == n
  {
    seq<byte>(n, i requires 0 <= i < n => num(Field(buf, 9 + 2 * i, 2)) % 256)
  }

  /** What a line of text stands for, when num reads its numbers. A negative count moves the checksum
      to the left, and makes the line too short when it moves it before the line. */
  function Parse(buf: string, num: string -> int): (p: Parsed)
    ensures p.Parsed? ==> p.r.Typed()
  {
    if |buf| < 9 || buf[0] != ':' then NotRecord
    else
      var count, t := num(Field(buf, 1, 2)), num(Field(buf, 7, 2));
      if count > MAX_DATA_LEN / 2 || 9 + 2 * count < 0 || |buf| < 11 + 2 * count || !(-0x8000_0000 <= t < 0x8000_0000)
      then NotRecord
      else
        var r := Rec(t, count, num(Field(buf, 3, 4)) % 0x1_0000, ParseData(buf, if count < 0 then 0 else count, num));
        if num(Field(buf, 9 + 2 * count, 2)) % 256 != Checksum(r) then NotRecord else Parsed(r)
  }

  /** Read_IHexRecord, from the text of a file. */
  method ReadIHexRecord(s: IHexRecord, file: string, num: string -> int) returns (res: Status)
    requires s.data.Length == MAX_DATA_LEN / 2
    modifies s, s.data
    ensures res.Eof? <==> file == ""
    ensures res.Newline? <==> file != "" && FirstLine(file, BUFF_SIZE) == ""
    ensures res.Ok? <==> Parse(FirstLine(file, BUFF_SIZE), num).Parsed?
    ensures res.Ok? ==> s.Valid() && s.Value() == Parse(FirstLine(file, BUFF_SIZE), num).r
    ensures res.Ok? ==> s.checksum == Checksum(s.Value())
  {
    if file == "" {
      return Eof;
    }
    var buf := FirstLine(file, BUFF_SIZE);
    if buf == "" {
      return Newline;
    }
    if |buf| < 9 {
      return InvalidRecord;
    }
    if buf[0] != ':' {
      return InvalidRecord;
    }
    var dataCount := num(Field(buf, 1, 2));
    s.address := num(Field(buf, 3, 4)) % 0x1_0000;
    var t := num(Field(buf, 7, 2));
    if dataCount > MAX_DATA_LEN / 2 || !(-0x8000_0000 <= t < 0x8000_0000) {
      // two digits are never read as such numbers
      return InvalidRecord;
    }
    s.rtype := t;
    if 9 + dataCount * 2 < 0 || |buf| < 11 + dataCount * 2 {
      return InvalidRecord;
    }
    ReadData(s, buf, if dataCount < 0 then 0 else dataCount, num);
    s.dataLen := dataCount;
    s.checksum := num(Field(buf, 9 + dataCount * 2, 2)) % 256;
    var checksum := ChecksumIHexRecord(s);
    res := if s.checksum != checksum then InvalidRecord else Ok;
  }

  /** The loop over the data bytes. */
  method ReadData(s: IHexRecord, buf: string, n: nat, num: string -> int)
    requires n <= s.data.Length && 9 + 2 * n <= |buf|
    modifies s.data
    ensures s.data[..n] == ParseData(buf, n, num)
  {
    var i := 0;
    while i < n
      invariant 0 <= i <= n && s.data[..i] == ParseData(buf, n, num)[..i]
    {
      s.data[i] := num(Field(buf, 9 + 2 * i, 2)) % 256;
      i := i + 1;
    }
  }

  /** A record in characters: type 0, address 01AB, data 21 46. */
  lemma WrittenExample()
    ensures Written(Rec(0, 2, 0x01AB, [0x21, 0x46])) == ":0201AB002146EB"
  {
    hide HexBytes, Sum, Written, Contents;
    WrittenText(Rec(0, 2, 0x01AB, [0x21, 0x46]));
    BytesExample();
    var a, b, c, d: seq<byte> := [2, 1], [0xAB, 0], [0x21, 0x46], [0xEB];
    assert [2, 1, 0xAB, 0, 0x21, 0x46, 0xEB] == a + b + c + d;
    HexBytesAppend(a + b + c, d);
    HexBytesAppend(a + b, c);
    HexBytesAppend(a, b);
    HexPair(2, 1);
    HexPair(0xAB, 0);
    HexPair(0x21, 0x46);
    HexText(d, 0);
    assert HexBytes(d) == "EB";
  }

  lemma BytesExample()
    ensures Contents(Rec(0, 2, 0x01AB, [0x21, 0x46])) == [2, 1, 0xAB, 0, 0x21, 0x46, 0xEB]
  {
    hide Sum;
    SumAppend([0x21], [0x46]);
    SumOne(0x21);
    SumOne(0x46);
    assert [0x21 as byte, 0x46] == [0x21] + [0x46];
  }

  /** A text of bytes, in its fields. */
  lemma TextField(bs: seq<byte>, i: nat, n: nat)
    requires i + n <= |bs|
    ensures |Text(bs)| == 1 + 2 * |bs| && Field(Text(bs), 1 + 2 * i, 2 * n) == HexBytes(bs[i..i + n])
  {
    var s, h := Text(bs), HexBytes(bs);
    HexBytesSlice(bs, i, i + n);
    assert s[1 + 2 * i..1 + 2 * i + 2 * n] == h[2 * i..2 * i + 2 * n];
  }

  lemma OneByteRead(bs: seq<byte>, i: nat, num: string -> int, max: nat)
    requires i < |bs| && Reads(num, max) && max >= 255
    ensures |Text(bs)| == 1 + 2 * |bs| && num(Field(Text(bs), 1 + 2 * i, 2)) == bs[i]
  {
    hide Text, HexBytes, Field, Reads;
    TextField(bs, i, 1);
    assert bs[i..i + 1] == [bs[i]];
    ReadsByte(num, max, bs[i]);
  }

  lemma AddressRead(bs: seq<byte>, num: string -> int, max: nat)
    requires |bs| >= 3 && Reads(num, max) && max >= 0xFFFF
    ensures |Text(bs)| == 1 + 2 * |bs| && num(Field(Text(bs), 3, 4)) == 256 * (bs[1] as int) + bs[2]
  {
    hide Text, HexBytes, Field, Reads;
    TextField(bs, 1, 2);
    var x := bs[1..3];
    var a: nat, y := x[0], x[1..];
    assert Value(x) == ValueFrom(y, a) == ValueFrom(y[1..], a * 256 + y[0]);
    ReadsBytes(num, max, x);
  }

  lemma DataRead(bs: seq<byte>, n: nat, num: string -> int, max: nat)
    requires 4 + n <= |bs| && Reads(num, max) && max >= 255
    ensures |Text(bs)| == 1 + 2 * |bs| && ParseData(Text(bs), n, num) == bs[4..4 + n]
  {
    hide Text, HexBytes, Field, Reads;
    TextField(bs, 0, 0);
    var d := ParseData(Text(bs), n, num);
    forall j | 0 <= j < n
      ensures d[j] == bs[4 + j]
    {
      OneByteRead(bs, 4 + j, num, max);
      assert 9 + 2 * j == 1 + 2 * (4 + j);
    }
  }

  /** The text holds as many data bytes as its first byte says. */
  ghost predicate Consistent(bs: seq<byte>) {
    |bs| >= 5 && bs[0] == |bs| - 5
  }

  function RecordOf(bs: seq<byte>): Rec
    requires |bs| >= 5
  {
    Rec(bs[3], |bs| - 5, 256 * (bs[1] as int) + bs[2], bs[4..|bs| - 1])
  }

  lemma ParseText(bs: seq<byte>, num: string -> int, max: nat)
    requires Consistent(bs) && Reads(num, max) && max >= 0xFFFF
    ensures Parse(Text(bs), num) == if bs[|bs| - 1] == Checksum(RecordOf(bs)) then Parsed(RecordOf(bs)) else NotRecord
  {
    hide Text, HexBytes, Field, Reads, Checksum, ParseData, Parse;
    StartCode(bs);
    OneByteRead(bs, 0, num, max);
    AddressRead(bs, num, max);
    OneByteRead(bs, 3, num, max);
    OneByteRead(bs, |bs| - 1, num, max);
    DataRead(bs, |bs| - 5, num, max);
    ParseUnfold(Text(bs), num, RecordOf(bs), bs[|bs| - 1]);
  }

  lemma StartCode(bs: seq<byte>)
    ensures Text(bs) != [] && Text(bs)[0] == ':'
  {
  }

  /** The reader on a line whose fields are known. */
  lemma ParseUnfold(buf: string, num: string -> int, r: Rec, c: byte)
    requires r.Typed() && r.dataLen >= 0 && |buf| == 11 + 2 * |r.data| && buf[0] == ':'
    requires num(Field(buf, 1, 2)) == |r.data| && num(Field(buf, 7, 2)) == r.rtype
    requires num(Field(buf, 3, 4)) == r.address
    requires ParseData(buf, |r.data|, num) == r.data && num(Field(buf, 9 + 2 * |r.data|, 2)) == c
    ensures Parse(buf, num) == if c == Checksum(r) then Parsed(r) else NotRecord
  {
    hide Field, Checksum, ParseData;
  }

  /** A text of bytes is accepted if and only if all its bytes sum to 0, modulo 256. */
  lemma AcceptedIff(bs: seq<byte>, num: string -> int, max: nat)
    requires Consistent(bs) && Reads(num, max) && max >= 0xFFFF
    ensures Parse(Text(bs), num).Parsed? <==> Sum(bs) % 256 == 0
    ensures Parse(Text(bs), num).Parsed? ==> Parse(Text(bs), num).r == RecordOf(bs)
  {
    hide Text, HexBytes, Reads, Parse, Sum;
    ParseText(bs, num, max);
    var r, last := RecordOf(bs), bs[|bs| - 1];
    assert bs == [bs[0]] + [bs[1]] + [bs[2]] + [bs[3]] + r.data + [last];
    SumAppend([bs[0]] + [bs[1]] + [bs[2]] + [bs[3]] + r.data, [last]);
    SumAppend([bs[0]] + [bs[1]] + [bs[2]] + [bs[3]], r.data);
    SumAppend([bs[0]] + [bs[1]] + [bs[2]], [bs[3]]);
    SumAppend([bs[0]] + [bs[1]], [bs[2]]);
    SumAppend([bs[0]], [bs[1]]);
    SumOne(bs[0]);
    SumOne(bs[1]);
    SumOne(bs[2]);
    SumOne(bs[3]);
    SumOne(last);
    RemainderIs(r.address, 256, bs[1], bs[2]);
    Complement(|r.data| + r.rtype + bs[2] + bs[1] + Sum(r.data), last);
  }

  lemma Complement(total: nat, last: byte)
    ensures last == (256 - total % 256) % 256 <==> (total + last) % 256 == 0
  {
  }

  /** Changing one byte of an accepted record but its length makes the reader refuse it. */
  lemma ByteChange(bs: seq<byte>, i: nat, v: byte, num: string -> int, max: nat)
    requires Consistent(bs) && Reads(num, max) && max >= 0xFFFF && 0 < i < |bs| && v != bs[i]
    requires Parse(Text(bs), num).Parsed?
    ensures Parse(Text(bs[i := v]), num).NotRecord?
  {
    hide Text, Reads, Parse, Sum;
    AcceptedIff(bs, num, max);
    AcceptedIff(bs[i := v], num, max);
    SumUpdate(bs, i, v);
    OtherSum(Sum(bs), bs[i], v);
  }

  /** What the writer prints of a record whose length and type fit. */
  lemma WrittenText(r: Rec)
    requires r.Typed() && r.Fits()
    ensures Written(r) == Text(Contents(r))
  {
    hide PrintHex, HexBytes, Checksum;
    var n, hi, lo, c := |r.data| as byte, (r.address / 256) as byte, (r.address % 256) as byte, Checksum(r);
    PrintByte(n);
    PrintByte(hi);
    PrintByte(c);
    PrintByte(r.rtype);
    PrintTail(r.address, 2);
    var t := r.rtype as byte;
    HexBytesAppend([n] + [hi] + [lo] + [t] + r.data, [c]);
    HexBytesAppend([n] + [hi] + [lo] + [t], r.data);
    HexBytesAppend([n] + [hi] + [lo], [t]);
    HexBytesAppend([n] + [hi], [lo]);
    HexBytesAppend([n], [hi]);
    assert Contents(r) == [n] + [hi] + [lo] + [t] + r.data + [c];
  }

  /** The first two digits of a number of three or more digits make a byte. */
  lemma {:induction false} PrintHead(n: nat, prec: nat) returns (b: byte)
    requires n >= 16 && prec <= 2
    ensures |PrintHex(n, prec)| >= 2 && PrintHex(n, prec)[..2] == HexBytes([b])
    ensures n == 256 ==> b == 16
    decreases n
  {
    var p := if prec > 0 then prec - 1 else 0;
    assert PrintHex(n, prec) == PrintHex(n / 16, p) + [Digit(n % 16)];
    if n < 256 {
      b := n;
      assert PrintHex(n / 16, p) == [Digit(n / 16)];
      assert HexBytes([b]) == HexByte(b) + HexBytes([b][1..]);
    } else {
      b := PrintHead(n / 16, p);
      if n == 256 {
        assert PrintHex(16, p) == PrintHex(1, 0) + [Digit(0)] && PrintHex(1, 0) == [Digit(1)];
        assert PrintHex(256, prec)[..2] == [Digit(1), Digit(0)];
        b := 16;
        assert HexBytes([16 as byte]) == HexByte(16) + HexBytes([16 as byte][1..]);
      }
    }
  }

  /** Writing a record and reading it back gives the same record if and only if its length and
      its type each fit into one byte; the writer also accepts 256 data bytes, negative lengths and
      any type. */
  lemma RoundTrip(r: Rec, num: string -> int, max: nat)
    requires r.Typed() && Reads(num, max) && max >= 0xFFFF
    ensures Parse(Written(r), num) == Parsed(r) <==> r.Fits()
  {
    if r.Fits() {
      FitsBack(r, num, max);
    } else if r.dataLen < 0 || r.dataLen == 256 {
      LongLine(r, num, max);
    } else {
      WideType(r, num, max);
    }
  }

  lemma FitsBack(r: Rec, num: string -> int, max: nat)
    requires r.Typed() && r.Fits() && Reads(num, max) && max >= 0xFFFF
    ensures Parse(Written(r), num) == Parsed(r)
  {
    hide Text, Reads, Parse, Checksum, Written;
    WrittenText(r);
    ParseText(Contents(r), num, max);
    assert RecordOf(Contents(r)) == r;
  }

  lemma LongLine(r: Rec, num: string -> int, max: nat)
    requires r.Typed() && (r.dataLen < 0 || r.dataLen == 256) && Reads(num, max) && max >= 255
    ensures Parse(Written(r), num) != Parsed(r)
  {
    hide PrintHex, HexBytes, Checksum, Reads;
    var b := PrintHead(Unsigned(r.dataLen), 2);
    var s := Written(r);
    assert Field(s, 1, 2) == PrintHex(Unsigned(r.dataLen), 2)[..2];
    ReadsByte(num, max, b);
  }

  lemma WideType(r: Rec, num: string -> int, max: nat)
    requires r.Typed() && 0 <= r.dataLen < 256 && !(0 <= r.rtype < 256) && Reads(num, max) && max >= 255
    ensures Parse(Written(r), num) != Parsed(r)
  {
    hide PrintHex, HexBytes, Checksum, Reads;
    var n, hi, lo := |r.data| as byte, (r.address / 256) as byte, (r.address % 256) as byte;
    var b := PrintHead(Unsigned(r.rtype), 2);
    PrintByte(n);
    PrintByte(hi);
    PrintTail(r.address, 2);
    var s := Written(r);
    assert Field(s, 7, 2) == PrintHex(Unsigned(r.rtype), 2)[..2];
    ReadsByte(num, max, b);
  }
}
