/** Motorola S-records: the writer, and the reader in its two builds, the library's with strtol
    and the boot loader's with its own parser. */
module SRecords {
  import opened Bits
  import opened Hex

  const MAX_DATA_LEN: nat := 64    // hexadecimal digits
  const BUFF_SIZE: nat := 768

  /** Hexadecimal digits of the address, by record type. */
  function AddressLength(t: nat): (n: nat)
    requires t <= 9
    ensures n == 4 || n == 6 || n == 8
  {
    [4, 4, 6, 8, 8, 4, 6, 8, 6, 4][t]
  }

  /** Types 0, 1, 5 and 9 have addresses of 16 bits, 2, 6 and 8 of 24, and 3, 4 and 7 of 32. */
  lemma AddressWidths(t: nat)
    requires t <= 9
    ensures AddressLength(t) == if t in {0, 1, 5, 9} then 4 else if t in {2, 6, 8} then 6 else 8
  {
  }

  /** A record as a value. */
  datatype Rec = Rec(rtype: nat, address: nat, data: seq<byte>) {
    predicate Typed() {
      rtype <= 9 && address < WORD && |data| <= MAX_DATA_LEN / 2
    }

    /** The address fits into the digits of its type. */
    predicate Fits()
      requires rtype <= 9
    {
      match AddressLength(rtype)
      case 4 => address < 0x1_0000
      case 6 => address < 0x100_0000
      case _ => address < WORD
    }
  }

  /** The bytes a record counts: address, data and checksum. */
  function FieldCount(t: nat, dataLen: nat): nat
    requires t <= 9
  {
    AddressLength(t) / 2 + dataLen + 1
  }

  /** All four bytes of an address, the highest first. */
  function AddressBytes(a: nat): (bs: seq<byte>)
    ensures |bs| == 4
  {
    [a / 0x100_0000 % 256, a / 0x1_0000 % 256, a / 256 % 256, a % 256]
  }

  /** The ones' complement of the sum of count, address and data. */
  function Checksum(r: Rec): byte
    requires r.rtype <= 9
  {
    255 - (FieldCount(r.rtype, |r.data|) + Sum(AddressBytes(r.address)) + Sum(r.data)) % 256
  }

  /** The bytes the text of a record holds behind its type. */
  function Contents(r: Rec): seq<byte>
    requires r.Typed()
  {
    [FieldCount(r.rtype, |r.data|)] + AddressBytes(r.address)[4 - AddressLength(r.rtype) / 2..] + r.data + [Checksum(r)]
  }

  /** The text of a record of type t with given bytes. */
  function Text(t: nat, bs: seq<byte>): string
    requires t <= 9
  {
    ['S', Digit(t)] + HexBytes(bs)
  }

  class SRecord {
    var rtype: int
    var address: nat
    const data: array<byte>
    var dataLen: nat
    var checksum: byte

    constructor ()
      ensures data.Length == MAX_DATA_LEN / 2 && fresh(data)
    {
      data := new byte[MAX_DATA_LEN / 2](i => 0);
      rtype, address, dataLen, checksum := 0, 0, 0, 0;
    }

    ghost predicate Valid()
      reads this, data
    {
      data.Length == MAX_DATA_LEN / 2 && dataLen <= data.Length && 0 <= rtype <= 9 && address < WORD
    }

    ghost function Value(): Rec
      requires Valid()
      reads this, data
    {
      Rec(rtype, address, data[..dataLen])
    }
  }

  /** New_SRecord. */
  method NewSRecord(t: nat, address: nat, bytes: seq<byte>, s: SRecord) returns (res: Status)
    requires t <= 9 && address < WORD && s.data.Length == MAX_DATA_LEN / 2
    modifies s, s.data
    ensures res.Ok? <==> |bytes| <= MAX_DATA_LEN / 2
    ensures res.Ok? ==> s.Valid() && s.Value() == Rec(t, address, bytes) && s.checksum == Checksum(s.Value())
  {
    if |bytes| > MAX_DATA_LEN / 2 {
      return InvalidArguments;
    }
    s.rtype, s.address := t, address;
    var i := 0;
    while i < |bytes|
      invariant 0 <= i <= |bytes| && s.data[..i] == bytes[..i] && s.rtype == t && s.address == address
    {
      s.data[i] := bytes[i];
      i := i + 1;
    }
    s.dataLen := |bytes|;
    assert s.data[..s.dataLen] == bytes;
    s.checksum := ChecksumSRecord(s);
    res := Ok;
  }

  /** Checksum_SRecord, on uint8_t. */
  method ChecksumSRecord(s: SRecord) returns (checksum: byte)
    requires s.Valid()
    ensures checksum == Checksum(s.Value())
  {
    hide AddressBytes, Add8;
    var count := FieldCount(s.rtype, s.dataLen);
    var sum := count % 256;
    sum := AddAddress(sum, s.address, count);
    ghost var base := count + Sum(AddressBytes(s.address));
    var i := 0;
    while i < s.dataLen
      invariant 0 <= i <= s.dataLen && sum == (base + Sum(s.data[..i])) % 256
    {
      assert s.data[..i + 1][..i] == s.data[..i];
      Add8Sum(base + Sum(s.data[..i]), s.data[i]);
      sum := Add8(sum, s.data[i]);
      i := i + 1;
    }
    checksum := 255 - sum;
  }

  /** The four address bytes, the lowest first. */
  method AddAddress(start: byte, address: nat, ghost total: nat) returns (sum: byte)
    requires start == total % 256
    ensures sum == (total + Sum(AddressBytes(address))) % 256
  {
    AddressSum(address);
    ghost var b0, b1 := address % 256, address / 256 % 256;
    ghost var b2, b3 := address / 0x1_0000 % 256, address / 0x100_0000 % 256;
    Add8Sum(total, b0);
    Add8Sum(total + b0, b1);
    Add8Sum(total + b0 + b1, b2);
    Add8Sum(total + b0 + b1 + b2, b3);
    hide Add8;
    sum := Add8(start, address % 256);
    sum := Add8(sum, address / 256 % 256);
    sum := Add8(sum, address / 0x1_0000 % 256);
    sum := Add8(sum, address / 0x100_0000 % 256);
  }

  lemma AddressSum(a: nat)
    ensures Sum(AddressBytes(a)) == a % 256 + a / 256 % 256 + a / 0x1_0000 % 256 + a / 0x100_0000 % 256
  {
    var bs := AddressBytes(a);
    assert bs == [bs[0]] + [bs[1]] + [bs[2]] + [bs[3]];
    SumAppend([bs[0]] + [bs[1]] + [bs[2]], [bs[3]]);
    SumAppend([bs[0]] + [bs[1]], [bs[2]]);
    SumAppend([bs[0]], [bs[1]]);
    SumOne(bs[0]);
    SumOne(bs[1]);
    SumOne(bs[2]);
    SumOne(bs[3]);
  }

  datatype Parsed = NotRecord | Parsed(r: Rec)

  /** The data bytes of a record text, n of them from off on. */
  function ParseData(buf: string, off: nat, n: nat, num: string -> int): (d: seq<byte>)
    requires off + 2 * n <= |buf|
    ensures |d| == n
  {
    seq<byte>(n, i requires 0 <= i < n => num(Field(buf, off + 2 * i, 2)) % 256)
  }

  /** What a line of text stands for, when num reads its numbers. */
  function Parse(buf: string, num: string -> int): (p: Parsed)
    ensures p.Parsed? ==> p.r.Typed()
  {
    if |buf| < 3 || buf[0] != 'S' then NotRecord
    else
      var t, count := num(Field(buf, 1, 1)), num(Field(buf, 2, 2));
      if t < 0 || t > 9 then NotRecord
      else
        var a := AddressLength(t);
        var d := 2 * count - a - 2;
        if |buf| < 4 + a || d < 0 || d > MAX_DATA_LEN || |buf| < 4 + a + d + 2 then NotRecord
        else
          var r := Rec(t, num(Field(buf, 4, a)) % WORD, ParseData(buf, 4 + a, d / 2, num));
          if num(Field(buf, 4 + a + d, 2)) % 256 != Checksum(r) then NotRecord else Parsed(r)
  }

  /** Read_SRecord on a line in memory, the body common to both builds. */
  method ReadSRecord(s: SRecord, buf: string, num: string -> int) returns (res: Status)
    requires s.data.Length == MAX_DATA_LEN / 2
    modifies s, s.data
    ensures res.Ok? || res.InvalidRecord?
    ensures res.Ok? <==> Parse(buf, num).Parsed?
    ensures res.Ok? ==> s.Valid() && s.Value() == Parse(buf, num).r && s.checksum == Checksum(s.Value())
  {
    hide Checksum;
    if |buf| < 3 {
      return InvalidRecord;
    }
    if buf[0] != 'S' {
      return InvalidRecord;
    }
    s.rtype := num(Field(buf, 1, 1));
    var fieldDataCount := num(Field(buf, 2, 2));
    if s.rtype < 0 || s.rtype > 9 {
      return InvalidRecord;
    }
    var asciiAddressLen := AddressLength(s.rtype);
    if |buf| < 4 + asciiAddressLen {
      return InvalidRecord;
    }
    s.address := num(Field(buf, 4, asciiAddressLen)) % WORD;
    var asciiDataLen := fieldDataCount * 2 - asciiAddressLen - 2;
    if asciiDataLen < 0 || asciiDataLen > MAX_DATA_LEN {
      return InvalidRecord;
    }
    if |buf| < 4 + asciiAddressLen + asciiDataLen + 2 {
      return InvalidRecord;
    }
    var dataOffset := 4 + asciiAddressLen;
    ReadData(s, buf, dataOffset, asciiDataLen / 2, num);
    s.dataLen := asciiDataLen / 2;
    s.checksum := num(Field(buf, dataOffset + asciiDataLen, 2)) % 256;
    var checksum := ChecksumSRecord(s);
    res := if s.checksum != checksum then InvalidRecord else Ok;
  }

  /** A record in characters: type 1, address 7AF0, data 0A 0D. */
  lemma WrittenExample()
    ensures var r := Rec(1, 0x7AF0, [0x0A, 0x0D]); r.Typed() && Text(1, Contents(r)) == "S1057AF00A0D79"
  {
    hide HexBytes, Sum, AddressBytes;
    var bs := Contents(Rec(1, 0x7AF0, [0x0A, 0x0D]));
    BytesExample();
    assert bs == [5, 0x7A] + [0xF0, 0x0A] + [0x0D, 0x79];
    HexBytesAppend([5, 0x7A] + [0xF0, 0x0A], [0x0D, 0x79]);
    HexBytesAppend([5, 0x7A], [0xF0, 0x0A]);
    HexPair(5, 0x7A);
    HexPair(0xF0, 0x0A);
    HexPair(0x0D, 0x79);
  }

  lemma BytesExample()
    ensures Contents(Rec(1, 0x7AF0, [0x0A, 0x0D])) == [5, 0x7A, 0xF0, 0x0A, 0x0D, 0x79]
  {
    hide Sum, AddressBytes;
    AddressSum(0x7AF0);
    AddressExample();
    SumAppend([0x0A], [0x0D]);
    SumOne(0x0A);
    SumOne(0x0D);
    assert [0x0A as byte, 0x0D] == [0x0A] + [0x0D];
  }

  lemma AddressExample()
    ensures AddressBytes(0x7AF0) == [0, 0, 0x7A, 0xF0]
  {
  }

  /** The loop over the data bytes. */
  method ReadData(s: SRecord, buf: string, off: nat, n: nat, num: string -> int)
    requires n <= s.data.Length && off + 2 * n <= |buf|
    modifies s.data
    ensures s.data[..n] == ParseData(buf, off, n, num)
  {
    var i := 0;
    while i < n
      invariant 0 <= i <= n && s.data[..i] == ParseData(buf, off, n, num)[..i]
    {
      s.data[i] := num(Field(buf, off + 2 * i, 2)) % 256;
      i := i + 1;
    }
  }

  /** Write_SRecord, into text. */
  method WriteSRecord(s: SRecord) returns (res: Status, out: string)
    requires s.data.Length == MAX_DATA_LEN / 2 && s.address < WORD
    ensures res.Ok? <==> 0 <= s.rtype <= 9 && s.dataLen <= MAX_DATA_LEN / 2
    ensures res.Ok? ==> out == Text(s.rtype, Contents(s.Value())) + "\r\n"
  {
    hide PrintHex, HexBytes, Checksum, AddressBytes, Text;
    out := "";
    if s.rtype < 0 || s.rtype > 9 || s.dataLen > MAX_DATA_LEN / 2 {
      return InvalidRecord, out;
    }
    var fieldDataCount := FieldCount(s.rtype, s.dataLen);
    var asciiAddressLen := AddressLength(s.rtype);
    var strAddress := PrintHex(s.address, 8);
    out := ['S'] + PrintHex(s.rtype, 1) + PrintHex(fieldDataCount, 2) + strAddress[8 - asciiAddressLen..];
    ghost var k := AddressLength(s.rtype) / 2;
    ghost var head := [fieldDataCount as byte] + AddressBytes(s.address)[4 - k..];
    HeadText(s.rtype, fieldDataCount, s.address, k);
    out := WriteBytes(out, s.data[..s.dataLen], s.rtype, head);
    var checksum := ChecksumSRecord(s);
    PrintByte(checksum);
    TextAppend(s.rtype, head + s.data[..s.dataLen], [checksum]);
    out := out + PrintHex(checksum, 2) + "\r\n";
    res := Ok;
  }

  lemma TextAppend(t: nat, a: seq<byte>, b: seq<byte>)
    requires t <= 9
    ensures Text(t, a) + HexBytes(b) == Text(t, a + b)
  {
    HexBytesAppend(a, b);
  }

  /** The loop over the data bytes. */
  method WriteBytes(start: string, data: seq<byte>, ghost t: nat, ghost head: seq<byte>) returns (out: string)
    requires t <= 9 && start == Text(t, head)
    ensures out == Text(t, head + data)
  {
    hide PrintHex, HexBytes;
    out := start;
    var i := 0;
    assert head + data[..0] == head;
    while i < |data|
      invariant 0 <= i <= |data| && out == Text(t, head + data[..i])
    {
      PrintByte(data[i]);
      HexBytesAppend(head + data[..i], [data[i]]);
      assert head + data[..i + 1] == head + data[..i] + [data[i]];
      out := out + PrintHex(data[i], 2);
      i := i + 1;
    }
    assert data[..i] == data;
  }

  /** The eight digits of an address are its four bytes. */
  lemma PrintAddress(a: nat)
    requires a < WORD
    ensures PrintHex(a, 8) == HexBytes(AddressBytes(a))
  {
    hide PrintHex, HexBytes;
    Quotients(a);
    var bs := AddressBytes(a);
    PrintByte(bs[0]);
    PrintTail(a / 256 / 256, 2);
    HexBytesAppend([bs[0]], [bs[1]]);
    PrintTail(a / 256, 4);
    HexBytesAppend([bs[0]] + [bs[1]], [bs[2]]);
    PrintTail(a, 6);
    HexBytesAppend([bs[0]] + [bs[1]] + [bs[2]], [bs[3]]);
    assert bs == [bs[0]] + [bs[1]] + [bs[2]] + [bs[3]];
  }

  lemma Quotients(a: nat)
    requires a < WORD
    ensures a / 256 / 256 == a / 0x1_0000 && a / 256 / 256 / 256 == a / 0x100_0000 < 256
  {
  }

  lemma HeadText(t: nat, count: nat, a: nat, k: nat)
    requires t <= 9 && count < 256 && a < WORD && k <= 4
    ensures ['S'] + PrintHex(t, 1) + PrintHex(count, 2) + PrintHex(a, 8)[8 - 2 * k..]
            == Text(t, [count as byte] + AddressBytes(a)[4 - k..])
  {
    hide HexBytes, AddressBytes;
    PrintAddress(a);
    PrintByte(count);
    HexBytesSlice(AddressBytes(a), 4 - k, 4);
    HexBytesAppend([count as byte], AddressBytes(a)[4 - k..]);
    assert AddressBytes(a)[4 - k..4] == AddressBytes(a)[4 - k..];
    assert PrintHex(t, 1) == [Digit(t)];
  }

  /** A text of bytes, in its fields. */
  lemma TextField(t: nat, bs: seq<byte>, i: nat, n: nat)
    requires t <= 9 && i + n <= |bs|
    ensures |Text(t, bs)| == 2 + 2 * |bs|
    ensures Field(Text(t, bs), 2 + 2 * i, 2 * n) == HexBytes(bs[i..i + n])
  {
    var s, h := Text(t, bs), HexBytes(bs);
    HexBytesSlice(bs, i, i + n);
    assert s[2 + 2 * i..2 + 2 * i + 2 * n] == h[2 * i..2 * i + 2 * n];
  }

  lemma OneByteRead(t: nat, bs: seq<byte>, i: nat, num: string -> int, max: nat)
    requires t <= 9 && i < |bs| && Reads(num, max) && max >= 255
    ensures |Text(t, bs)| == 2 + 2 * |bs| && num(Field(Text(t, bs), 2 + 2 * i, 2)) == bs[i]
  {
    hide Text, HexBytes, Field, Value, Reads;
    TextField(t, bs, i, 1);
    assert bs[i..i + 1] == [bs[i]];
    ReadsByte(num, max, bs[i]);
  }

  /** The record a text of bytes stands for if its checksum is right. */
  function RecordOf(t: nat, bs: seq<byte>, max: nat): Rec
    requires t <= 9 && AddressLength(t) / 2 + 2 <= |bs|
  {
    var k := AddressLength(t) / 2;
    var v := Value(bs[1..1 + k]);
    Rec(t, (if v > max then max else v) % WORD, bs[1 + k..|bs| - 1])
  }

  /** The text holds as many bytes as its first one says, and no more data than fits. */
  ghost predicate Consistent(t: nat, bs: seq<byte>) {
    && t <= 9 && AddressLength(t) / 2 + 2 <= |bs| <= AddressLength(t) / 2 + 2 + MAX_DATA_LEN / 2
    && bs[0] == |bs| - 1
  }

  lemma ParseText(t: nat, bs: seq<byte>, num: string -> int, max: nat)
    requires Consistent(t, bs) && Reads(num, max) && max >= 255
    ensures var r := RecordOf(t, bs, max);
      Parse(Text(t, bs), num) == if bs[|bs| - 1] == Checksum(r) then Parsed(r) else NotRecord
  {
    hide Text, HexBytes, Field, Value, Reads, Checksum, AddressLength, Parse, ParseData;
    TypeRead(t, bs, num, max);
    AddressRead(t, bs, num, max);
    OneByteRead(t, bs, 0, num, max);
    OneByteRead(t, bs, |bs| - 1, num, max);
    DataRead(t, bs, 1 + AddressLength(t) / 2, |bs| - AddressLength(t) / 2 - 2, num, max);
    ParseUnfold(Text(t, bs), num, t, |bs| - 1, RecordOf(t, bs, max), bs[|bs| - 1]);
  }

  lemma AddressRead(t: nat, bs: seq<byte>, num: string -> int, max: nat)
    requires Consistent(t, bs) && Reads(num, max)
    ensures |Text(t, bs)| == 2 + 2 * |bs|
    ensures num(Field(Text(t, bs), 4, AddressLength(t))) % WORD == RecordOf(t, bs, max).address
  {
    hide Text, HexBytes, Field, Value, Reads;
    TextField(t, bs, 1, AddressLength(t) / 2);
    ReadsBytes(num, max, bs[1..1 + AddressLength(t) / 2]);
  }

  lemma DataRead(t: nat, bs: seq<byte>, i: nat, n: nat, num: string -> int, max: nat)
    requires t <= 9 && i + n <= |bs| && Reads(num, max) && max >= 255
    ensures |Text(t, bs)| == 2 + 2 * |bs| && ParseData(Text(t, bs), 2 + 2 * i, n, num) == bs[i..i + n]
  {
    hide Text, HexBytes, Field, Reads;
    TextField(t, bs, 0, 0);
    var d := ParseData(Text(t, bs), 2 + 2 * i, n, num);
    forall j | 0 <= j < n
      ensures d[j] == bs[i + j]
    {
      OneByteRead(t, bs, i + j, num, max);
      assert 2 + 2 * i + 2 * j == 2 + 2 * (i + j);
    }
  }

  /** The reader on a line whose fields are known. */
  lemma ParseUnfold(buf: string, num: string -> int, t: nat, n: nat, r: Rec, c: byte)
    requires t <= 9 && r.rtype == t && |buf| == 4 + 2 * n && buf[0] == 'S'
    requires AddressLength(t) / 2 + 1 + |r.data| == n && |r.data| <= 32
    requires num(Field(buf, 1, 1)) == t && num(Field(buf, 2, 2)) == n
    requires num(Field(buf, 4, AddressLength(t))) % WORD == r.address
    requires ParseData(buf, 4 + AddressLength(t), |r.data|, num) == r.data && num(Field(buf, 2 + 2 * n, 2)) == c
    ensures Parse(buf, num) == if c == Checksum(r) then Parsed(r) else NotRecord
  {
    hide Field, Checksum, ParseData;
    var a := AddressLength(t);
    assert 2 * n - a - 2 == 2 * |r.data| && 4 + a + 2 * |r.data| == 2 + 2 * n;
  }

  lemma TypeRead(t: nat, bs: seq<byte>, num: string -> int, max: nat)
    requires t <= 9 && |bs| > 0 && Reads(num, max)
    ensures num(Field(Text(t, bs), 1, 1)) == t && Text(t, bs)[0] == 'S'
  {
    assert Field(Text(t, bs), 1, 1) == [Digit(t)];
  }

  /** Leading zero bytes. */
  function Zeros(n: nat): seq<byte> {
    seq<byte>(n, i => 0)
  }

  lemma {:induction false} SumZeros(n: nat)
    ensures Sum(Zeros(n)) == 0
  {
    if n > 0 {
      assert Zeros(n)[..n - 1] == Zeros(n - 1);
      SumZeros(n - 1);
    }
  }

  /** Two to four bytes are the lowest bytes of the number they stand for. */
  lemma AddressOf(x: seq<byte>)
    requires 2 <= |x| <= 4
    ensures AddressBytes(Value(x)) == Zeros(4 - |x|) + x
  {
    ValueOf(x);
    if |x| == 4 {
      FourDigits(x[0], x[1], x[2], x[3]);
    } else if |x| == 3 {
      FourDigits(0, x[0], x[1], x[2]);
    } else {
      FourDigits(0, 0, x[0], x[1]);
    }
  }

  lemma ValueOf(x: seq<byte>)
    requires 2 <= |x| <= 4
    ensures |x| == 2 ==> Value(x) == 256 * (x[0] as int) + x[1]
    ensures |x| == 3 ==> Value(x) == 0x1_0000 * (x[0] as int) + 256 * (x[1] as int) + x[2]
    ensures |x| == 4 ==> Value(x) == 0x100_0000 * (x[0] as int) + 0x1_0000 * (x[1] as int) + 256 * (x[2] as int) + x[3]
  {
    var a: nat, y := x[0], x[1..];
    var b: nat, z := y[0], y[1..];
    assert Value(x) == ValueFrom(y, a) == ValueFrom(z, a * 256 + b);
    if |x| > 2 {
      var c: nat, w := z[0], z[1..];
      assert ValueFrom(z, a * 256 + b) == ValueFrom(w, (a * 256 + b) * 256 + c);
      if |x| > 3 {
        var d: nat := w[0];
        assert ValueFrom(w, (a * 256 + b) * 256 + c) == ValueFrom(w[1..], ((a * 256 + b) * 256 + c) * 256 + d);
      }
    }
  }

  lemma FourDigits(b3: byte, b2: byte, b1: byte, b0: byte)
    ensures AddressBytes(0x100_0000 * b3 + 0x1_0000 * b2 + 256 * b1 + b0) == [b3, b2, b1, b0]
  {
    var a: nat := 0x100_0000 * b3 + 0x1_0000 * b2 + 256 * b1 + b0;
    RemainderIs(a, 0x100_0000, b3, 0x1_0000 * b2 + 256 * b1 + b0);
    RemainderIs(a, 0x1_0000, 256 * b3 + b2, 256 * b1 + b0);
    RemainderIs(256 * b3 + b2, 256, b3, b2);
    RemainderIs(a, 256, 0x1_0000 * b3 + 256 * b2 + b1, b0);
    RemainderIs(0x1_0000 * b3 + 256 * b2 + b1, 256, 256 * b3 + b2, b1);
  }

  /** The bytes of an address its type leaves room for stand for its remainder. */
  lemma LowAddress(a: nat, t: nat)
    requires t <= 9 && a < WORD
    ensures var k := AddressLength(t) / 2; var v := Value(AddressBytes(a)[4 - k..]);
      && v <= a && (v == a <==> Rec(t, a, []).Fits())
      && AddressBytes(v) == Zeros(4 - k) + AddressBytes(a)[4 - k..]
  {
    var k, bs := AddressLength(t) / 2, AddressBytes(a);
    ValueOf(bs[4 - k..]);
    AddressOf(bs[4 - k..]);
    Recompose(a);
  }

  lemma Recompose(a: nat)
    requires a < WORD
    ensures a == 0x100_0000 * (a / 0x100_0000 % 256) + 0x1_0000 * (a / 0x1_0000 % 256) + 256 * (a / 256 % 256) + a % 256
  {
    Quotients(a);
    assert a / 256 == 256 * (a / 256 / 256) + a / 256 % 256;
    assert a / 256 / 256 == 256 * (a / 256 / 256 / 256) + a / 256 / 256 % 256;
  }

  /** The sum of the bytes of a text, with the address as the reader takes it: one above the largest
      number it can hold is cut down to that. */
  function SumRead(t: nat, bs: seq<byte>, max: nat): nat
    requires t <= 9 && AddressLength(t) / 2 + 2 <= |bs|
  {
    bs[0] + Sum(AddressBytes(RecordOf(t, bs, max).address)) + Sum(bs[1 + AddressLength(t) / 2..])
  }

  /** The sum is that of the bytes themselves where the address can be held. */
  lemma SumReadExact(t: nat, bs: seq<byte>, max: nat)
    requires Consistent(t, bs) && Value(bs[1..1 + AddressLength(t) / 2]) <= max
    ensures SumRead(t, bs, max) == Sum(bs)
  {
    hide AddressBytes, Value, Sum;
    var k := AddressLength(t) / 2;
    var x, rest := bs[1..1 + k], bs[1 + k..];
    FourBytes(x);
    AddressOf(x);
    SumAppend(Zeros(4 - k), x);
    SumZeros(4 - k);
    assert bs == [bs[0]] + x + rest;
    SumAppend([bs[0]] + x, rest);
    SumAppend([bs[0]], x);
    SumOne(bs[0]);
  }

  /** A text of bytes is accepted if and only if its bytes, with the address as it is read, sum to
      255, modulo 256. */
  lemma AcceptedIff(t: nat, bs: seq<byte>, num: string -> int, max: nat)
    requires Consistent(t, bs) && Reads(num, max) && max >= 255
    ensures Parse(Text(t, bs), num)
         == if SumRead(t, bs, max) % 256 == 255 then Parsed(RecordOf(t, bs, max)) else NotRecord
    ensures Value(bs[1..1 + AddressLength(t) / 2]) <= max ==> SumRead(t, bs, max) == Sum(bs)
  {
    hide Text, HexBytes, Reads, Parse, AddressBytes, Value, Sum;
    var r, last := RecordOf(t, bs, max), bs[|bs| - 1];
    ParseText(t, bs, num, max);
    assert bs[1 + AddressLength(t) / 2..] == r.data + [last];
    SumAppend(r.data, [last]);
    SumOne(last);
    Complement(bs[0] + Sum(AddressBytes(r.address)) + Sum(r.data), last);
    if Value(bs[1..1 + AddressLength(t) / 2]) <= max {
      SumReadExact(t, bs, max);
    }
  }

  lemma Complement(total: nat, last: byte)
    ensures last == 255 - total % 256 <==> (total + last) % 256 == 255
  {
  }

  /** Writing a record and reading it back gives the same record if and only if its address fits
      into the digits of its type and into what the reader's numbers can hold. */
  lemma RoundTrip(r: Rec, num: string -> int, max: nat)
    requires r.Typed() && Reads(num, max) && max >= 255
    ensures Parse(Text(r.rtype, Contents(r)), num) == Parsed(r) <==> r.Fits() && r.address <= max
  {
    hide Text, HexBytes, Reads, Parse, AddressBytes, Value, Sum, Checksum;
    var t, bs, k := r.rtype, Contents(r), AddressLength(r.rtype) / 2;
    ParseText(t, bs, num, max);
    LowAddress(r.address, t);
    var x := AddressBytes(r.address)[4 - k..];
    assert bs[1..1 + k] == x && bs[1 + k..|bs| - 1] == r.data;
    var s := RecordOf(t, bs, max);
    assert s == r <==> r.Fits() && r.address <= max;
  }

  /** A record whose address does not fit is not refused when it is read as one with the same sum of
      bytes, modulo 256. Where the reader can hold what is left of the address, these are the records
      whose bytes cut off sum to a multiple of 256. */
  lemma CutAddress(r: Rec, num: string -> int, max: nat)
    requires r.Typed() && Reads(num, max) && max >= 255
    ensures var bs, k := Contents(r), AddressLength(r.rtype) / 2;
      && (Parse(Text(r.rtype, bs), num).Parsed? <==>
          Sum(AddressBytes(RecordOf(r.rtype, bs, max).address)) % 256 == Sum(AddressBytes(r.address)) % 256)
      && (Value(AddressBytes(r.address)[4 - k..]) <= max ==>
            (Parse(Text(r.rtype, bs), num).Parsed? <==> Sum(AddressBytes(r.address)[..4 - k]) % 256 == 0))
  {
    hide Text, HexBytes, Reads, Parse, AddressBytes, Value, Sum, Checksum;
    var t, bs, k := r.rtype, Contents(r), AddressLength(r.rtype) / 2;
    LowAddress(r.address, t);
    ChecksumSum(r);
    var x, cut := AddressBytes(r.address)[4 - k..], AddressBytes(r.address)[..4 - k];
    ContentsParts(r);
    AcceptedIff(t, bs, num, max);
    SumAppend(r.data, [Checksum(r)]);
    SumOne(Checksum(r));
    SameSum(bs[0] + Sum(r.data), Sum(AddressBytes(RecordOf(t, bs, max).address)), Sum(AddressBytes(r.address)),
            Checksum(r));
    if Value(x) <= max {
      Joined(AddressBytes(r.address), 4 - k);
      SumAppend(cut, x);
      SumAppend(Zeros(4 - k), x);
      SumZeros(4 - k);
      MultipleOf256(Sum(x), Sum(cut));
    }
  }

  lemma ContentsParts(r: Rec)
    requires r.Typed()
    ensures var bs, k := Contents(r), AddressLength(r.rtype) / 2;
      && Consistent(r.rtype, bs) && bs[1..1 + k] == AddressBytes(r.address)[4 - k..]
      && bs[1 + k..] == r.data + [Checksum(r)] && bs[0] == FieldCount(r.rtype, |r.data|)
  {
    hide Sum, Checksum, AddressBytes;
  }

  lemma ChecksumSum(r: Rec)
    requires r.rtype <= 9
    ensures Checksum(r) == 255 - (FieldCount(r.rtype, |r.data|) + Sum(AddressBytes(r.address)) + Sum(r.data)) % 256
  {
  }

  lemma Joined(s: seq<byte>, n: nat)
    requires n <= |s|
    ensures s == s[..n] + s[n..]
  {
  }

  /** A checksum made for one sum of address bytes fits exactly the sums equal to it. */
  lemma SameSum(rest: nat, a: nat, b: nat, c: byte)
    requires c == 255 - (rest + b) % 256
    ensures (rest + a + c) % 256 == 255 <==> a % 256 == b % 256
  {
  }

  lemma MultipleOf256(a: nat, b: nat)
    ensures a % 256 == (b + a) % 256 <==> b % 256 == 0
  {
  }

  /** An S1 record for address 0x80800000 is read back as one for address 0. */
  lemma CutExample(num: string -> int, max: nat)
    requires Reads(num, max) && max >= 255
    ensures var r := Rec(1, 0x8080_0000, []); r.Typed() && Parse(Text(1, Contents(r)), num) == Parsed(Rec(1, 0, []))
  {
    hide Text, Reads, Parse, Value, Sum, Checksum;
    var r := Rec(1, 0x8080_0000, []);
    var bs := Contents(r);
    SameChecksum();
    assert bs == [3, 0, 0, Checksum(r)];
    assert bs[1..3] == [0, 0] && bs[3..3] == [];
    ValueOf([0, 0]);
    ParseText(1, bs, num, max);
  }

  lemma SameChecksum()
    ensures Checksum(Rec(1, 0x8080_0000, [])) == Checksum(Rec(1, 0, []))
  {
    hide Sum, AddressBytes, Checksum;
    ChecksumSum(Rec(1, 0x8080_0000, []));
    ChecksumSum(Rec(1, 0, []));
    CutSums();
  }

  lemma CutSums()
    ensures Sum(AddressBytes(0x8080_0000)) == 256 && Sum(AddressBytes(0)) == 0
  {
    hide Sum, AddressBytes;
    AddressSum(0x8080_0000);
    AddressSum(0);
  }

  /** Changing one byte of an accepted record in its data or its checksum makes the reader refuse it.
      Changing one of its address does so if and only if the addresses it reads differ in the sum of
      their bytes, modulo 256; they do whenever it can hold both. */
  lemma ByteChange(t: nat, bs: seq<byte>, i: nat, v: byte, num: string -> int, max: nat)
    requires Consistent(t, bs) && Reads(num, max) && max >= 255 && 0 < i < |bs| && v != bs[i]
    requires Parse(Text(t, bs), num).Parsed?
    ensures var k, a, b := AddressLength(t) / 2, RecordOf(t, bs, max).address, RecordOf(t, bs[i := v], max).address;
      && (i > k ==> Parse(Text(t, bs[i := v]), num).NotRecord?)
      && (i <= k ==> (Parse(Text(t, bs[i := v]), num).NotRecord?
                      <==> Sum(AddressBytes(a)) % 256 != Sum(AddressBytes(b)) % 256))
      && (Value(bs[1..1 + k]) <= max && Value(bs[i := v][1..1 + k]) <= max ==>
            Parse(Text(t, bs[i := v]), num).NotRecord?)
  {
    hide Text, Reads, Parse, Value, Sum, AddressLength, AddressBytes;
    var k, cs := AddressLength(t) / 2, bs[i := v];
    AcceptedIff(t, bs, num, max);
    AcceptedIff(t, cs, num, max);
    SumUpdate(bs, i, v);
    OtherSum(Sum(bs), bs[i], v);
    if i > k {
      assert cs[1..1 + k] == bs[1..1 + k] && cs[1 + k..] == bs[1 + k..][i - 1 - k := v];
      SumUpdate(bs[1 + k..], i - 1 - k, v);
      OtherSum(SumRead(t, bs, max), bs[i], v);
    } else {
      assert cs[1 + k..] == bs[1 + k..];
      SameSums(bs[0] + Sum(bs[1 + k..]), Sum(AddressBytes(RecordOf(t, bs, max).address)),
               Sum(AddressBytes(RecordOf(t, cs, max).address)));
    }
  }

  lemma SameSums(rest: nat, a: nat, b: nat)
    requires (rest + a) % 256 == 255
    ensures (rest + b) % 256 == 255 <==> a % 256 == b % 256
  {
  }

  /** The library reader with a long of 32 bits accepts an S3 record for address 0x7FFFFFFF also when the
      first address byte, 7F, has become 80: both addresses are read as the largest long. */
  lemma ClampedExample(num: string -> int)
    requires Reads(num, 0x7FFF_FFFF)
    ensures var r := Rec(3, 0x7FFF_FFFF, []);
      && r.Typed() && Contents(r)[1] == 0x7F && Parse(Text(3, Contents(r)), num) == Parsed(r)
      && Parse(Text(3, Contents(r)[1 := 0x80]), num) == Parsed(r)
  {
    hide Text, Reads, Parse, Value, Sum, Checksum;
    var r, max := Rec(3, 0x7FFF_FFFF, []), 0x7FFF_FFFF;
    var bs, cs := Contents(r), Contents(r)[1 := 0x80];
    assert bs == [5, 0x7F, 255, 255, 255, Checksum(r)];
    assert bs[1..5] == [0x7F, 255, 255, 255] && cs[1..5] == [0x80, 255, 255, 255] && bs[5..5] == cs[5..5] == [];
    ValueOf([0x7F, 255, 255, 255]);
    ValueOf([0x80, 255, 255, 255]);
    ParseText(3, bs, num, max);
    ParseText(3, cs, num, max);
  }

  /** Changing a byte of a text changes its two digits and no other character. */
  lemma ByteDigits(t: nat, bs: seq<byte>, i: nat, v: byte)
    requires t <= 9 && i < |bs|
    ensures Text(t, bs[i := v]) == Text(t, bs)[2 + 2 * i := Digit(v / 16)][3 + 2 * i := Digit(v % 16)]
  {
    var a, b := bs[..i], bs[i + 1..];
    assert bs == a + [bs[i]] + b && bs[i := v] == a + [v] + b;
    HexBytesAppend(a + [bs[i]], b);
    HexBytesAppend(a, [bs[i]]);
    HexBytesAppend(a + [v], b);
    HexBytesAppend(a, [v]);
    assert HexBytes([v]) == HexByte(v) + HexBytes([v][1..]);
    assert HexBytes([bs[i]]) == HexByte(bs[i]) + HexBytes([bs[i]][1..]);
  }

  /** The boot loader's build reads back every record whose address fits its type. */
  lemma LoaderRoundTrip(r: Rec)
    requires r.Typed()
    ensures Parse(Text(r.rtype, Contents(r)), ScanValue) == Parsed(r) <==> r.Fits()
  {
    ScanReads();
    RoundTrip(r, ScanValue, WORD - 1);
  }

  /** The library's build does so where long is wider than 32 bits; with a long of 32 bits it
      stops at addresses above 0x7FFFFFFF. */
  lemma LibraryRoundTrip(r: Rec, longMax: nat)
    requires r.Typed() && longMax >= 0x7FFF_FFFF
    ensures Parse(Text(r.rtype, Contents(r)), s => Strtol(s, longMax)) == Parsed(r)
       <==> r.Fits() && r.address <= longMax
  {
    StrtolReads(longMax);
    RoundTrip(r, s => Strtol(s, longMax), longMax);
  }

  /** Read_SRecord of the library, from the text of a file. */
  method ReadFromFile(s: SRecord, file: string, num: string -> int) returns (res: Status)
    requires s.data.Length == MAX_DATA_LEN / 2
    modifies s, s.data
    ensures res.Eof? <==> file == ""
    ensures res.Newline? <==> file != "" && FirstLine(file, BUFF_SIZE) == ""
    ensures res.Ok? <==> Parse(FirstLine(file, BUFF_SIZE), num).Parsed?
    ensures res.Ok? ==> s.Valid() && s.Value() == Parse(FirstLine(file, BUFF_SIZE), num).r
    ensures res.Ok? ==> s.checksum == Checksum(s.Value())
  {
    if file == "" {
      return Eof;
    }
    var recordBuff := FirstLine(file, BUFF_SIZE);
    if recordBuff == "" {
      return Newline;
    }
    res := ReadSRecord(s, recordBuff, num);
  }

  /** A written record is the first line of any file it is written at the head of. */
  lemma WrittenLine(r: Rec, rest: string)
    requires r.Typed()
    ensures FirstLine(Text(r.rtype, Contents(r)) + "\r\n" + rest, BUFF_SIZE) == Text(r.rtype, Contents(r))
  {
    hide HexBytes, Contents, Checksum;
    var bs := Contents(r);
    ContentsLength(r);
    HexOneLine(bs);
    DigitRead(r.rtype);
    FirstLineFound(Text(r.rtype, bs), rest, BUFF_SIZE);
  }

  lemma ContentsLength(r: Rec)
    requires r.Typed()
    ensures |Contents(r)| <= 38
  {
  }
}
