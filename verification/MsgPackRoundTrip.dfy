/** Reading back what was written, for all nested values
    (opsiclientd_data/common/static_html/javascript/msgpack.js). */
module MsgPackRoundTrip {
  import opened Common
  import opened MsgPack
  import opened Utf8

  // ----- big endian numbers -----

  lemma BigEndianAppend(s: seq<Byte>, c: Byte)
    ensures BigEndian(s + [c]) == BigEndian(s) * 0x100 + c
  {
    assert (s + [c])[..|s|] == s;
  }

  lemma BigEndian1(a: Byte)
    ensures BigEndian([a]) == a
  {
    BigEndianAppend([], a);
    assert [] + [a] == [a];
  }

  lemma BigEndian2(a: Byte, b: Byte)
    ensures BigEndian([a, b]) == a * 0x100 + b
  {
    BigEndian1(a);
    BigEndianAppend([a], b);
    assert [a] + [b] == [a, b];
  }

  lemma BigEndian4(a: Byte, b: Byte, c: Byte, d: Byte)
    ensures BigEndian([a, b, c, d]) == a * 0x100_0000 + b * 0x1_0000 + c * 0x100 + d
  {
    BigEndian2(a, b);
    BigEndianAppend([a, b], c);
    BigEndianAppend([a, b, c], d);
    assert [a, b] + [c] == [a, b, c] && [a, b, c] + [d] == [a, b, c, d];
  }

  lemma FourBytes(u: int)
    requires 0 <= u < POW32
    ensures u / 0x100_0000 % 0x100 * 0x100_0000 + u / 0x1_0000 % 0x100 * 0x1_0000 + u / 0x100 % 0x100 * 0x100 +
              u % 0x100 == u
  {
    assert u == u / 0x100 * 0x100 + u % 0x100;
    assert u / 0x100 == u / 0x1_0000 * 0x100 + u / 0x100 % 0x100;
    assert u / 0x1_0000 == u / 0x100_0000 * 0x100 + u / 0x1_0000 % 0x100;
  }

  lemma LowByte(k: int, u: int)
    ensures (k * 0x100 + u) % 0x100 == u % 0x100
  {
  }

  lemma LowWord(k: int, u: int)
    ensures (k * 0x1_0000 + u) % 0x1_0000 == u % 0x1_0000
  {
  }

  lemma SameLowBytes(n: int)
    ensures n % 0x100 == ToUint32(n) % 0x100 && n % 0x1_0000 == ToUint32(n) % 0x1_0000
  {
    var q, u := n / POW32, ToUint32(n);
    assert n == q * POW32 + u;
    LowByte(q * 0x100_0000, u);
    LowWord(q * 0x1_0000, u);
  }

  lemma TwoBytes(u: int)
    requires 0 <= u
    ensures u % 0x1_0000 == u / 0x100 % 0x100 * 0x100 + u % 0x100
  {
    assert u == u / 0x100 * 0x100 + u % 0x100;
    assert u / 0x100 == u / 0x1_0000 * 0x100 + u / 0x100 % 0x100;
  }

  lemma Bytes2Back(n: int)
    ensures BigEndian(Bytes2(n)) == n % 0x1_0000
  {
    BigEndian2(ToByte(ToUint32(n) / 0x100), ToByte(n));
    SameLowBytes(n);
    TwoBytes(ToUint32(n));
  }

  lemma Bytes4Back(n: int)
    ensures BigEndian(Bytes4(n)) == ToUint32(n)
  {
    var u := ToUint32(n);
    BigEndian4(ToByte(u / 0x100_0000), ToByte(u / 0x1_0000), ToByte(u / 0x100), ToByte(n));
    SameLowBytes(n);
    FourBytes(u);
  }

  /** The signed reading is the unsigned one minus the full range where the highest bit is set. */
  lemma {:induction false} SignedMeaning(s: seq<Byte>, range: int)
    requires s != [] && range == Range(|s|)
    ensures Signed(s) == BigEndian(s) - (if s[0] >= 0x80 then range else 0)
    ensures BigEndian(s) < range
  {
    if |s| == 1 {
      assert s == [s[0]];
      BigEndian1(s[0]);
    } else {
      SignedMeaning(s[..|s| - 1], Range(|s| - 1));
    }
  }

  function Range(k: nat): nat {
    if k == 0 then 1 else Range(k - 1) * 0x100
  }

  lemma Ranges()
    ensures Range(1) == 0x100 && Range(2) == 0x1_0000 && Range(4) == POW32 && Range(8) == POW32 * POW32
  {
    assert Range(3) == Range(2) * 0x100 && Range(5) == Range(4) * 0x100;
    assert Range(6) == Range(5) * 0x100 && Range(7) == Range(6) * 0x100;
  }

  lemma {:induction false} BigEndianConcat(s: seq<Byte>, t: seq<Byte>)
    ensures BigEndian(s + t) == BigEndian(s) * Range(|t|) + BigEndian(t)
  {
    if t == [] {
      assert s + t == s;
    } else {
      var n := |t| - 1;
      BigEndianConcat(s, t[..n]);
      assert (s + t)[..|s + t| - 1] == s + t[..n];
      assert BigEndian(s) * Range(n) * 0x100 == BigEndian(s) * (Range(n) * 0x100);
    }
  }

  /** Two words make a two's complement number. */
  lemma WordsBack(hi: int, lo: int)
    ensures Signed(Bytes4(hi) + Bytes4(lo)) == ToInt32(hi) * POW32 + ToUint32(lo)
  {
    hide BigEndian, Signed;
    var s := Bytes4(hi) + Bytes4(lo);
    Ranges();
    Bytes4Back(hi);
    Bytes4Back(lo);
    BigEndianConcat(Bytes4(hi), Bytes4(lo));
    SignedMeaning(s, Range(8));
    assert s[0] == ToByte(ToUint32(hi) / 0x100_0000);
  }

  // ----- 64 bit splitting of a possibly fractional number -----

  lemma TruncSplit(x: real)
    requires x >= 0.0
    ensures Trunc(x / POW32 as real) == Trunc(x) / POW32
    ensures Trunc(RealMod(x, POW32)) == Trunc(x) % POW32
  {
    var q, n := (x / POW32 as real).Floor, x.Floor;
    assert q as real <= x / POW32 as real < q as real + 1.0;
    assert (q * POW32) as real == q as real * POW32 as real;
    assert q as real * POW32 as real <= x < (q as real + 1.0) * POW32 as real;
    assert q * POW32 <= n < (q + 1) * POW32;
    assert n / POW32 == q && n % POW32 == n - q * POW32;
    assert RealMod(x, POW32) == x - (q * POW32) as real;
    assert (x - (q * POW32) as real).Floor == n - q * POW32;
  }

  /** The number that `appendInt64` writes. For a negative number with a fraction it is rounded up where the
      number is below -1, and down otherwise. */
  function Written(value: real): int {
    if value >= 0.0 then Trunc(value)
    else -Trunc(if value + 1.0 < 0.0 then -(value + 1.0) else value + 1.0) - 1
  }

  lemma NonNegativeWords(n: int)
    requires 0 <= n < 0x4000_0000 * POW32
    ensures Signed(Bytes4(n / POW32) + Bytes4(n % POW32)) == n
  {
    hide Signed, Bytes4;
    var q, r := n / POW32, n % POW32;
    assert 0 <= q < 0x4000_0000 && n == q * POW32 + r;
    WordsBack(q, r);
  }

  lemma LowComplement(lo: int)
    requires 0 <= lo < POW32
    ensures ToUint32(BitNot(lo)) == POW32 - 1 - lo
  {
  }

  lemma HighComplement(hi: int)
    requires 0 <= hi <= 0x4000_0000
    ensures ToInt32(BitNot(hi)) == -hi - 1
  {
  }

  lemma NegativeWords(n: int)
    requires 0 <= n <= 0x4000_0000 * POW32
    ensures Signed(Bytes4(BitNot(n / POW32)) + Bytes4(BitNot(n % POW32))) == -n - 1
  {
    hide Signed, Bytes4, BitNot;
    var q, r := n / POW32, n % POW32;
    assert 0 <= q <= 0x4000_0000 && n == q * POW32 + r;
    HighComplement(q);
    LowComplement(r);
    WordsBack(BitNot(q), BitNot(r));
  }

  lemma Int64Back(value: real)
    requires -(0x4000_0000 * POW32) as real < value < (0x4000_0000 * POW32) as real
    ensures |Int64Bytes(value)| == 8 && Signed(Int64Bytes(value)) == Written(value)
  {
    if value >= 0.0 {
      TruncSplit(value);
      NonNegativeWords(Trunc(value));
    } else {
      var a := if value + 1.0 < 0.0 then -(value + 1.0) else value + 1.0;
      TruncSplit(a);
      NegativeWords(Trunc(a));
    }
  }

  // ----- integers -----

  lemma UIntAt(s: seq<Byte>, b: seq<Byte>, pos: nat)
    requires Occurs(s, b, pos)
    ensures ReadUInt(b, pos, |s|) == Got(BigEndian(s), pos + |s|)
  {
  }

  lemma IntAt(s: seq<Byte>, b: seq<Byte>, pos: nat)
    requires Occurs(s, b, pos) && s != []
    ensures ReadInt(b, pos, |s|) == Got(Signed(s), pos + |s|)
  {
  }

  /** Reads a tag byte that is followed by the bytes t. */
  lemma TagAt(c: Byte, t: seq<Byte>, b: seq<Byte>, pos: nat)
    requires Occurs([c] + t, b, pos)
    ensures pos < |b| && b[pos] == c && Occurs(t, b, pos + 1)
  {
    OccursSplit([c], t, b, pos);
    OccursAt([c], b, pos, 0);
  }

  lemma UnsignedBack(n: SafeInt, c: Byte, t: seq<Byte>, b: seq<Byte>, pos: nat)
    requires Occurs([c] + t, b, pos) && TagOf(c) == Unsigned(|t|) && BigEndian(t) == n
    ensures ReadValue(b, pos) == Got(Int(n), pos + 1 + |t|)
  {
    TagAt(c, t, b, pos);
    UIntAt(t, b, pos + 1);
  }

  lemma SignedBack(n: SafeInt, c: Byte, t: seq<Byte>, b: seq<Byte>, pos: nat)
    requires Occurs([c] + t, b, pos) && TagOf(c) == Integer(|t|) && t != [] && Signed(t) == n
    ensures ReadValue(b, pos) == Got(Int(n), pos + 1 + |t|)
  {
    TagAt(c, t, b, pos);
    IntAt(t, b, pos + 1);
  }

  lemma IntRoundTrip(n: SafeInt, b: seq<Byte>, pos: nat)
    requires Occurs(IntBytes(n), b, pos)
    ensures ReadValue(b, pos) == Got(Int(n), pos + |IntBytes(n)|)
  {
    if -0x20 <= n <= 0x7f {
      OccursAt(IntBytes(n), b, pos, 0);
      assert TagOf(ToByte(n)) == Direct(Int(n));
    } else if -0x80 <= n <= 0xffff {
      IntRoundTripSmall(n, b, pos);
    } else if n < 0 && -0x8000 <= n {
      IntRoundTrip16(n, b, pos);
    } else if -0x8000_0000 <= n <= 0xffff_ffff {
      IntRoundTrip32(n, b, pos);
    } else {
      IntRoundTrip64(n, b, pos);
    }
  }

  lemma IntRoundTripSmall(n: SafeInt, b: seq<Byte>, pos: nat)
    requires Occurs(IntBytes(n), b, pos) && (-0x80 <= n < -0x20 || 0x7f < n <= 0xffff)
    ensures ReadValue(b, pos) == Got(Int(n), pos + |IntBytes(n)|)
  {
    hide ReadValue, Occurs;
    Ranges();
    if 0 < n <= 0xff {
      BigEndian1(n);
      assert IntBytes(n) == [0xcc] + [n];
      UnsignedBack(n, 0xcc, [n], b, pos);
    } else if n <= 0x7f {
      BigEndian1(ToByte(n));
      assert IntBytes(n) == [0xd0] + [ToByte(n)];
      SignedMeaning([ToByte(n)], Range(1));
      SignedBack(n, 0xd0, [ToByte(n)], b, pos);
    } else {
      Bytes2Back(n);
      UnsignedBack(n, 0xcd, Bytes2(n), b, pos);
    }
  }

  lemma IntRoundTrip16(n: SafeInt, b: seq<Byte>, pos: nat)
    requires Occurs(IntBytes(n), b, pos) && -0x8000 <= n < -0x80
    ensures ReadValue(b, pos) == Got(Int(n), pos + |IntBytes(n)|)
  {
    hide ReadValue, Occurs;
    Ranges();
    Bytes2Back(n);
    SignedMeaning(Bytes2(n), Range(2));
    SignedBack(n, 0xd1, Bytes2(n), b, pos);
  }

  lemma IntRoundTrip32(n: SafeInt, b: seq<Byte>, pos: nat)
    requires Occurs(IntBytes(n), b, pos) && (-0x8000_0000 <= n < -0x8000 || 0xffff < n <= 0xffff_ffff)
    ensures ReadValue(b, pos) == Got(Int(n), pos + |IntBytes(n)|)
  {
    hide ReadValue, Occurs, Signed, BigEndian;
    Bytes4Back(n);
    if n > 0 {
      UnsignedBack(n, 0xce, Bytes4(n), b, pos);
    } else {
      Ranges();
      SignedMeaning(Bytes4(n), Range(4));
      SignedBack(n, 0xd2, Bytes4(n), b, pos);
    }
  }

  lemma IntRoundTrip64(n: SafeInt, b: seq<Byte>, pos: nat)
    requires Occurs(IntBytes(n), b, pos) && (n < -0x8000_0000 || 0xffff_ffff < n)
    ensures ReadValue(b, pos) == Got(Int(n), pos + |IntBytes(n)|)
  {
    hide ReadValue, Occurs;
    if n > 0 {
      TruncSplit(n as real);
      NonNegativeWords(n);
      SignedBack(n, 0xd3, Bytes4(n / POW32) + Bytes4(n % POW32), b, pos);
    } else {
      Int64Back(n as real);
      SignedBack(n, 0xd3, Int64Bytes(n as real), b, pos);
    }
  }

  // ----- lengths -----

  lemma BytesByLength(n: nat)
    requires n < POW32
    ensures n <= 0xff ==> BigEndian([n]) == n
    ensures n <= 0xffff ==> BigEndian(Bytes2(n)) == n
    ensures BigEndian(Bytes4(n)) == n
  {
    hide BigEndian, Bytes2, Bytes4;
    if n <= 0xff {
      BigEndian1(n);
    }
    Bytes2Back(n);
    Bytes4Back(n);
  }

  lemma LengthAt(n: nat, c: Byte, t: seq<Byte>, b: seq<Byte>, pos: nat)
    requires Occurs([c] + t, b, pos) && BigEndian(t) == n
    ensures pos < |b| && b[pos] == c && ReadUInt(b, pos + 1, |t|) == Got(n, pos + 1 + |t|)
  {
    TagAt(c, t, b, pos);
    UIntAt(t, b, pos + 1);
  }

  lemma StrHeadBack(n: nat, b: seq<Byte>, pos: nat)
    requires n < POW32 && Occurs(StrHead(n), b, pos)
    ensures ReadValue(b, pos) == ReadStr(b, pos + |StrHead(n)|, n)
  {
    hide BigEndian, ReadStr, ReadUInt;
    var h := StrHead(n);
    BytesByLength(n);
    if n <= 0x1f {
      OccursAt(h, b, pos, 0);
    } else if n <= 0xff {
      assert h == [0xd9] + [n];
      LengthAt(n, 0xd9, [n], b, pos);
    } else if n <= 0xffff {
      LengthAt(n, 0xda, Bytes2(n), b, pos);
    } else {
      LengthAt(n, 0xdb, Bytes4(n), b, pos);
    }
  }

  lemma ReadStrAt(s: Text, b: seq<Byte>, pos: nat)
    requires Encode(s).Ok? && Occurs(TextBytes(s), b, pos)
    ensures ReadStr(b, pos, |TextBytes(s)|) == Got(Str(s), pos + |TextBytes(s)|)
  {
    hide Encode, Decode;
    DecodeEncode(s, b, pos);
  }

  lemma StrRoundTrip(s: Text, b: seq<Byte>, pos: nat)
    requires Encode(s).Ok? && |TextBytes(s)| < POW32 && Occurs(StrBytes(s), b, pos)
    ensures ReadValue(b, pos) == Got(Str(s), pos + |StrBytes(s)|)
  {
    hide ReadValue, ReadStr, Encode, Occurs, StrHead;
    var t := TextBytes(s);
    OccursSplit(StrHead(|t|), t, b, pos);
    StrHeadBack(|t|, b, pos);
    ReadStrAt(s, b, pos + |StrHead(|t|)|);
  }

  lemma BinRoundTrip(t: seq<Byte>, b: seq<Byte>, pos: nat)
    requires |t| < POW32 && Occurs(BinHead(|t|) + t, b, pos)
    ensures ReadValue(b, pos) == Got(Bin(t), pos + |BinHead(|t|) + t|)
  {
    hide ReadValue, ReadBin, Occurs, BinHead;
    OccursSplit(BinHead(|t|), t, b, pos);
    BinHeadBack(|t|, b, pos);
    BinAt(t, b, pos + |BinHead(|t|)|);
  }

  lemma BinAt(t: seq<Byte>, b: seq<Byte>, pos: nat)
    requires Occurs(t, b, pos)
    ensures ReadBin(b, pos, |t|) == Got(t, pos + |t|)
  {
  }

  lemma BinHeadBack(n: nat, b: seq<Byte>, pos: nat)
    requires n < POW32 && Occurs(BinHead(n), b, pos)
    ensures ReadValue(b, pos) == BinValue(ReadBin(b, pos + |BinHead(n)|, n))
  {
    hide Occurs, BigEndian, ReadBin, ReadUInt;
    BytesByLength(n);
    if n <= 0xf {
      assert BinHead(n) == [0xc4] + [n];
      LengthAt(n, 0xc4, [n], b, pos);
    } else if n <= 0xffff {
      LengthAt(n, 0xc5, Bytes2(n), b, pos);
    } else {
      LengthAt(n, 0xc6, Bytes4(n), b, pos);
    }
  }

  lemma ArrHeadBack(n: nat, b: seq<Byte>, pos: nat)
    requires n < POW32 && Occurs(ArrHead(n), b, pos)
    ensures ReadValue(b, pos) == ReadArray(b, pos + |ArrHead(n)|, n)
  {
    hide BigEndian, ReadArray, ReadUInt;
    var h := ArrHead(n);
    BytesByLength(n);
    if n <= 0xf {
      OccursAt(h, b, pos, 0);
    } else if n <= 0xffff {
      LengthAt(n, 0xdc, Bytes2(n), b, pos);
    } else {
      LengthAt(n, 0xdd, Bytes4(n), b, pos);
    }
  }

  lemma ObjHeadBack(n: nat, b: seq<Byte>, pos: nat)
    requires n < POW32 && Occurs(ObjHead(n), b, pos)
    ensures ReadValue(b, pos) == ReadMap(b, pos + |ObjHead(n)|, n)
  {
    hide BigEndian, ReadMap, ReadUInt;
    var h := ObjHead(n);
    BytesByLength(n);
    if n <= 0xf {
      OccursAt(h, b, pos, 0);
    } else if n <= 0xffff {
      LengthAt(n, 0xde, Bytes2(n), b, pos);
    } else {
      LengthAt(n, 0xdf, Bytes4(n), b, pos);
    }
  }

  // ----- dates -----

  lemma ExtAt(b: seq<Byte>, pos: nat, data: seq<Byte>)
    requires Occurs([0xff] + data, b, pos)
    ensures ReadExt(b, pos, |data|) == ReadDate(data, pos + 1 + |data|)
  {
    TagAt(0xff, data, b, pos);
  }

  lemma NewDateAt(ms: TimeValue, pos: nat)
    ensures NewDate(ms as real, pos) == Got(Date(ms), pos)
  {
  }

  /** Seconds and milliseconds of a time value. */
  lemma Seconds(t: int)
    ensures t as real / 1000.0 == (t / 1000) as real + (t % 1000) as real / 1000.0
    ensures t >= 0 ==> Trunc(t as real / 1000.0) == t / 1000
  {
    assert t as real == ((t / 1000) * 1000) as real + (t % 1000) as real;
    assert ((t / 1000) * 1000) as real == (t / 1000) as real * 1000.0;
  }

  /** Whole milliseconds are read back from nanoseconds. */
  lemma Nanoseconds(sec: int, millis: int)
    ensures (sec * 1000) as real + (millis * 1_000_000) as real / 1_000_000.0 == (sec * 1000 + millis) as real
  {
    assert (millis * 1_000_000) as real == millis as real * 1_000_000.0;
  }

  lemma Date4(sec: int, pos: nat)
    requires 0 <= sec < POW32
    ensures ReadDate(Bytes4(sec), pos) == Got(Date(sec * 1000), pos)
  {
    Bytes4Back(sec);
    NewDateAt(sec * 1000, pos);
  }

  function StampNs(d: seq<Byte>): int
    requires |d| >= 4
  {
    (d[0] as int) * 0x40_0000 + (d[1] as int) * 0x4000 + (d[2] as int) * 0x40 + d[3] / 4
  }

  lemma StampBytes(ns: int, hi: int)
    requires 0 <= ns < 0x4000_0000 && 0 <= hi < 4
    ensures var d := [ToByte(ns / 0x40_0000), ToByte(ns / 0x4000), ToByte(ns / 0x40), ToByte(ns * 4 + hi)];
      StampNs(d) == ns && d[3] % 4 == hi
  {
    var a, c, e := ns / 0x40_0000, ns / 0x4000, ns / 0x40;
    assert 0 <= a < 0x100;
    assert c == a * 0x100 + c % 0x100;
    assert e == c * 0x100 + e % 0x100;
    assert ns == e * 0x40 + ns % 0x40;
    assert (ns * 4 + hi) % 0x100 == ns % 0x40 * 4 + hi;
  }

  lemma Date8(sec: real, whole: int, millis: int, pos: nat)
    requires 0 <= millis < 1000 && 0.0 <= sec < 17_179_869_184.0 && Trunc(sec) == whole
    ensures ReadDate(Stamp8(millis * 1_000_000, sec), pos) == Got(Date(whole * 1000 + millis), pos)
  {
    var ns, d := millis * 1_000_000, Stamp8(millis * 1_000_000, sec);
    TruncSplit(sec);
    assert 0 <= whole < 17_179_869_184 && 0 <= whole / POW32 < 4;
    StampBytes(ns, whole / POW32);
    assert d[..4] == [ToByte(ns / 0x40_0000), ToByte(ns / 0x4000), ToByte(ns / 0x40), ToByte(ns * 4 + whole / POW32)];
    assert StampNs(d) == StampNs(d[..4]) == ns && d[3] % 4 == whole / POW32;
    assert d[4..] == Bytes4(whole);
    Bytes4Back(whole);
    assert whole / POW32 * POW32 + whole % POW32 == whole;
    Nanoseconds(whole, millis);
    NewDateAt(whole * 1000 + millis, pos);
  }

  lemma Date12Parts(d: seq<Byte>, sec: int, millis: int, pos: nat)
    requires |d| == 12 && BigEndian(d[..4]) == millis * 1_000_000 && Signed(d[4..]) == sec
    requires -8_640_000_000_000_000 <= sec * 1000 + millis <= 8_640_000_000_000_000
    ensures ReadDate(d, pos) == Got(Date(sec * 1000 + millis), pos)
  {
    hide NewDate, BigEndian, Signed;
    Nanoseconds(sec, millis);
    NewDateAt(sec * 1000 + millis, pos);
  }

  lemma Date12(sec: real, w: int, millis: int, pos: nat)
    requires 0 <= millis < 1000 && -8_640_000_000_000.0 <= sec <= 8_640_000_000_000.0
    requires w == Written(sec) && -8_640_000_000_000_000 <= w * 1000 + millis <= 8_640_000_000_000_000
    ensures ReadDate(Bytes4(millis * 1_000_000) + Int64Bytes(sec), pos) == Got(Date(w * 1000 + millis), pos)
  {
    hide Int64Bytes, Written, ReadDate, BigEndian, Signed;
    var ns := millis * 1_000_000;
    var high, low := Bytes4(ns), Int64Bytes(sec);
    assert |low| == 8 && Signed(low) == w by { Int64Back(sec); }
    assert BigEndian(high) == ns by { Bytes4Back(ns); }
    assert (high + low)[..4] == high && (high + low)[4..] == low;
    Date12Parts(high + low, w, millis, pos);
  }

  /** What reading a written date gives: the date itself, or one second more. */
  function ReadBack(t: TimeValue): (r: int)
    ensures -8_640_000_000_000_000 <= r <= 8_640_000_000_000_000
  {
    if DateSurvives(t) then t else t + 1000
  }

  /** The seconds written for a date outside the compact formats. */
  lemma WrittenSeconds(t: TimeValue)
    ensures Written(t as real / 1000.0) * 1000 + t % 1000 == ReadBack(t)
  {
    Seconds(t);
    var k, r := t / 1000, t % 1000;
    var sec := t as real / 1000.0;
    assert 0.0 <= r as real / 1000.0 < 1.0;
    if t < -1000 && r != 0 {
      assert k <= -2;
      assert -(sec + 1.0) == (-k - 1) as real - r as real / 1000.0;
      assert (-(sec + 1.0)).Floor == -k - 2;
    } else if t < 0 && r == 0 {
      assert (-(sec + 1.0)) == (-k - 1) as real;
    } else if t < 0 {
      assert k == -1;
      assert (sec + 1.0).Floor == 0;
    }
  }

  lemma FixedExtBack(c: Byte, d: seq<Byte>, r: Read<Value>, b: seq<Byte>, pos: nat)
    requires Occurs([c, 0xff] + d, b, pos) && TagOf(c) == Ext(|d|) && ReadDate(d, pos + 2 + |d|) == r
    ensures ReadValue(b, pos) == r
  {
    assert [c, 0xff] + d == [c] + ([0xff] + d);
    TagAt(c, [0xff] + d, b, pos);
    ExtAt(b, pos + 1, d);
  }

  lemma SizedExtBack(d: seq<Byte>, r: Read<Value>, b: seq<Byte>, pos: nat)
    requires Occurs([0xc7, 12, 0xff] + d, b, pos) && |d| == 12 && ReadDate(d, pos + 3 + |d|) == r
    ensures ReadValue(b, pos) == r
  {
    assert [0xc7, 12, 0xff] + d == [0xc7] + ([12] + ([0xff] + d));
    TagAt(0xc7, [12] + ([0xff] + d), b, pos);
    OccursSplit([12], [0xff] + d, b, pos + 1);
    BigEndian1(12);
    UIntAt([12], b, pos + 1);
    ExtAt(b, pos + 2, d);
  }

  lemma DateReadBack4(t: TimeValue, b: seq<Byte>, pos: nat)
    requires Occurs(DateBytes(t), b, pos) && t % 1000 == 0 && 0 <= t < POW32 * 1000
    ensures ReadValue(b, pos) == Got(Date(t), pos + |DateBytes(t)|)
  {
    hide ReadValue, ReadDate, Occurs;
    Seconds(t);
    assert DateBytes(t) == [0xd6, 0xff] + Bytes4(t / 1000);
    Date4(t / 1000, pos + 6);
    FixedExtBack(0xd6, Bytes4(t / 1000), Got(Date(t), pos + 6), b, pos);
  }

  lemma DateBytesAre8(t: TimeValue)
    requires 0 <= t < 17_179_869_184_000 && !(t % 1000 == 0 && t < POW32 * 1000)
    ensures 0.0 <= t as real / 1000.0 < 17_179_869_184.0
    ensures DateBytes(t) == [0xd7, 0xff] + Stamp8(t % 1000 * 1_000_000, t as real / 1000.0) && |DateBytes(t)| == 10
  {
    Seconds(t);
  }

  lemma DateReadBack8(t: TimeValue, b: seq<Byte>, pos: nat)
    requires Occurs(DateBytes(t), b, pos) && 0 <= t < 17_179_869_184_000 && !(t % 1000 == 0 && t < POW32 * 1000)
    ensures ReadValue(b, pos) == Got(Date(t), pos + |DateBytes(t)|)
  {
    hide ReadValue, ReadDate, Occurs;
    Seconds(t);
    DateBytesAre8(t);
    Date8(t as real / 1000.0, t / 1000, t % 1000, pos + 10);
    FixedExtBack(0xd7, Stamp8(t % 1000 * 1_000_000, t as real / 1000.0), Got(Date(t), pos + 10), b, pos);
  }

  lemma DateBytesAre12(t: TimeValue)
    requires t < 0 || t >= 17_179_869_184_000
    ensures -8_640_000_000_000.0 <= t as real / 1000.0 <= 8_640_000_000_000.0
    ensures |Int64Bytes(t as real / 1000.0)| == 8 && |DateBytes(t)| == 15
    ensures DateBytes(t) == [0xc7, 12, 0xff] + (Bytes4(t % 1000 * 1_000_000) + Int64Bytes(t as real / 1000.0))
  {
    Seconds(t);
  }

  lemma DateReadBack12(t: TimeValue, b: seq<Byte>, pos: nat)
    requires Occurs(DateBytes(t), b, pos) && (t < 0 || t >= 17_179_869_184_000)
    ensures ReadValue(b, pos) == Got(Date(ReadBack(t)), pos + |DateBytes(t)|)
  {
    hide ReadValue, ReadDate, Occurs;
    var sec, millis := t as real / 1000.0, t % 1000;
    DateBytesAre12(t);
    WrittenSeconds(t);
    Date12(sec, Written(sec), millis, pos + 15);
    SizedExtBack(Bytes4(millis * 1_000_000) + Int64Bytes(sec), Got(Date(ReadBack(t)), pos + 15), b, pos);
  }

  /** A written date is read back as ReadBack(t). */
  lemma DateReadBack(t: TimeValue, b: seq<Byte>, pos: nat)
    requires Occurs(DateBytes(t), b, pos)
    ensures ReadValue(b, pos) == Got(Date(ReadBack(t)), pos + |DateBytes(t)|)
  {
    hide ReadValue, ReadDate, Occurs;
    if t % 1000 == 0 && 0 <= t < POW32 * 1000 {
      DateReadBack4(t, b, pos);
    } else if 0 <= t < 17_179_869_184_000 {
      DateReadBack8(t, b, pos);
    } else {
      DateReadBack12(t, b, pos);
    }
  }

  /** A date survives writing and reading exactly if it is at or after one second before 1970, or falls on a
      full second. All other dates come back one second late. */
  lemma DateRoundTripIff(t: TimeValue)
    ensures ReadValue(DateBytes(t), 0) == Got(Date(t), |DateBytes(t)|) <==> DateSurvives(t)
    ensures !DateSurvives(t) ==> ReadValue(DateBytes(t), 0) == Got(Date(t + 1000), |DateBytes(t)|)
  {
    var b := DateBytes(t);
    assert b[0..|b|] == b;
    DateReadBack(t, b, 0);
  }

  // ----- nested values -----

  /** v with every date replaced by what reading it back gives. */
  ghost function AfterReading(v: Value): Value {
    match v
    case Arr(items) => Arr(AfterReadingAll(items))
    case Obj(entries) => Obj(AfterReadingEntries(entries))
    case Date(t) => Date(ReadBack(t))
    case _ => v
  }

  ghost function AfterReadingAll(vs: seq<Value>): (r: seq<Value>)
    ensures |r| == |vs|
  {
    if vs == [] then [] else [AfterReading(vs[0])] + AfterReadingAll(vs[1..])
  }

  ghost function AfterReadingEntries(es: seq<Entry>): (r: seq<Entry>)
    ensures |r| == |es|
    ensures forall i :: 0 <= i < |es| ==> r[i].key == es[i].key
  {
    if es == [] then [] else [Entry(es[0].key, AfterReading(es[0].value))] + AfterReadingEntries(es[1..])
  }

  lemma ByteBack(v: Value, b: seq<Byte>, pos: nat)
    requires (v.Nil? || v.Bool?) && Occurs(Ser(v), b, pos)
    ensures ReadValue(b, pos) == Got(v, pos + |Ser(v)|)
  {
    OccursAt(Ser(v), b, pos, 0);
  }

  lemma ArrBack(n: nat, items: seq<Value>, end: nat, b: seq<Byte>, pos: nat)
    requires n < POW32 && Occurs(ArrHead(n), b, pos)
    requires ReadItems(b, pos + |ArrHead(n)|, n) == Got(items, end)
    ensures ReadValue(b, pos) == Got(Arr(items), end)
  {
    ArrHeadBack(n, b, pos);
  }

  lemma ObjBack(n: nat, entries: seq<Entry>, end: nat, b: seq<Byte>, pos: nat)
    requires n < POW32 && Occurs(ObjHead(n), b, pos)
    requires ReadEntries(b, pos + |ObjHead(n)|, n, []) == Got(entries, end)
    ensures ReadValue(b, pos) == Got(Obj(entries), end)
  {
    ObjHeadBack(n, b, pos);
  }

  lemma EntryStep(key: Text, v: Value, n: nat, data: seq<Entry>, b: seq<Byte>, pos: nat, q: nat, r: nat)
    requires n > 0 && pos <= |b| && ReadValue(b, pos) == Got(Str(key), q) && ReadValue(b, q) == Got(v, r)
    ensures ReadEntries(b, pos, n, data) == ReadEntries(b, r, n - 1, Assigned(data, key, v))
  {
  }

  /** Reading at the start of the bytes of v, whatever surrounds them, gives v up to its dates and stops
      exactly behind them. */
  lemma {:induction false} ReadSer(v: Value, b: seq<Byte>, pos: nat)
    requires Writable(v) && Sized(v) && Occurs(Ser(v), b, pos)
    ensures ReadValue(b, pos) == Got(AfterReading(v), pos + |Ser(v)|)
    decreases v, 1
  {
    hide ReadValue, ReadItems, ReadEntries, IntBytes, DateBytes, StrBytes, ArrHead, ObjHead, BinHead, Occurs, ReadBack,
      Encode;
    match v
    case Nil => ByteBack(v, b, pos);
    case Bool(f) => ByteBack(v, b, pos);
    case Int(n) => IntRoundTrip(n, b, pos);
    case Str(s) => StrRoundTrip(s, b, pos);
    case Bin(t) => BinRoundTrip(t, b, pos);
    case Arr(items) => ReadSerArray(v, b, pos);
    case Obj(entries) => ReadSerObject(v, b, pos);
    case Date(t) => DateReadBack(t, b, pos);
  }

  lemma {:induction false} ReadSerArray(v: Value, b: seq<Byte>, pos: nat)
    requires v.Arr? && Writable(v) && Sized(v) && Occurs(Ser(v), b, pos)
    ensures ReadValue(b, pos) == Got(AfterReading(v), pos + |Ser(v)|)
    decreases v, 0
  {
    hide ReadValue, ReadItems, ArrHead, Occurs;
    var n := |v.items|;
    OccursSplit(ArrHead(n), SerAll(v.items), b, pos);
    ReadSerAll(v.items, b, pos + |ArrHead(n)|);
    ArrBack(n, AfterReadingAll(v.items), pos + |Ser(v)|, b, pos);
  }

  lemma {:induction false} ReadSerObject(v: Value, b: seq<Byte>, pos: nat)
    requires v.Obj? && Writable(v) && Sized(v) && Occurs(Ser(v), b, pos)
    ensures ReadValue(b, pos) == Got(AfterReading(v), pos + |Ser(v)|)
    decreases v, 0
  {
    hide ReadValue, ReadEntries, ObjHead, Occurs;
    var n := |v.entries|;
    OccursSplit(ObjHead(n), SerEntries(v.entries), b, pos);
    ReadSerEntries(v.entries, [], b, pos + |ObjHead(n)|);
    assert [] + AfterReadingEntries(v.entries) == AfterReadingEntries(v.entries);
    ObjBack(n, AfterReadingEntries(v.entries), pos + |Ser(v)|, b, pos);
  }

  lemma {:induction false} ReadSerAll(vs: seq<Value>, b: seq<Byte>, pos: nat)
    requires WritableAll(vs) && SizedAll(vs) && Occurs(SerAll(vs), b, pos)
    ensures ReadItems(b, pos, |vs|) == Got(AfterReadingAll(vs), pos + |SerAll(vs)|)
    decreases vs
  {
    hide ReadValue, Ser;
    if vs != [] {
      OccursSplit(Ser(vs[0]), SerAll(vs[1..]), b, pos);
      ReadSer(vs[0], b, pos);
      ReadSerAll(vs[1..], b, pos + |Ser(vs[0])|);
    }
  }

  lemma {:induction false} AssignedNew(es: seq<Entry>, key: Text, value: Value)
    requires forall i :: 0 <= i < |es| ==> es[i].key != key
    ensures Assigned(es, key, value) == es + [Entry(key, value)]
  {
    if es != [] {
      AssignedNew(es[1..], key, value);
    }
  }

  lemma {:induction false} ReadSerEntries(es: seq<Entry>, done: seq<Entry>, b: seq<Byte>, pos: nat)
    requires WritableEntries(es) && SizedEntries(es) && DistinctKeys(done + es) && Occurs(SerEntries(es), b, pos)
    ensures ReadEntries(b, pos, |es|, done) == Got(done + AfterReadingEntries(es), pos + |SerEntries(es)|)
    decreases es, 1
  {
    hide ReadValue, ReadEntries, Ser, StrBytes, Encode, TextBytes;
    if es == [] {
      NoEntries(done, b, pos);
      assert done + [] == done;
    } else {
      var entry := Entry(es[0].key, AfterReading(es[0].value));
      var q := pos + |StrBytes(entry.key)| + |Ser(es[0].value)|;
      FirstEntry(es, done, b, pos);
      KeysLeft(es, done, entry);
      ReadSerEntries(es[1..], done + [entry], b, q);
      assert done + [entry] + AfterReadingEntries(es[1..]) == done + AfterReadingEntries(es);
    }
  }

  lemma NoEntries(data: seq<Entry>, b: seq<Byte>, pos: nat)
    requires pos <= |b|
    ensures ReadEntries(b, pos, 0, data) == Got(data, pos)
  {
  }

  lemma {:induction false} FirstEntry(es: seq<Entry>, done: seq<Entry>, b: seq<Byte>, pos: nat)
    requires es != [] && WritableEntries(es) && SizedEntries(es) && DistinctKeys(done + es) &&
               Occurs(SerEntries(es), b, pos)
    ensures var q := pos + |StrBytes(es[0].key)| + |Ser(es[0].value)|;
      && Occurs(SerEntries(es[1..]), b, q) && q + |SerEntries(es[1..])| == pos + |SerEntries(es)|
      && ReadEntries(b, pos, |es|, done) ==
        ReadEntries(b, q, |es| - 1, done + [Entry(es[0].key, AfterReading(es[0].value))])
    decreases es, 0
  {
    hide ReadValue, ReadEntries, Ser, StrBytes, Occurs, Encode, TextBytes;
    var key, v := StrBytes(es[0].key), Ser(es[0].value);
    assert SerEntries(es) == key + (v + SerEntries(es[1..]));
    OccursSplit(key, v + SerEntries(es[1..]), b, pos);
    OccursSplit(v, SerEntries(es[1..]), b, pos + |key|);
    StrRoundTrip(es[0].key, b, pos);
    ReadSer(es[0].value, b, pos + |key|);
    var entry := Entry(es[0].key, AfterReading(es[0].value));
    KeysLeft(es, done, entry);
    AssignedNew(done, entry.key, entry.value);
    EntryStep(entry.key, entry.value, |es|, done, b, pos, pos + |key|, pos + |key| + |v|);
  }

  lemma KeysLeft(es: seq<Entry>, done: seq<Entry>, entry: Entry)
    requires es != [] && DistinctKeys(done + es) && entry.key == es[0].key
    ensures DistinctKeys(done + [entry] + es[1..])
    ensures forall i :: 0 <= i < |done| ==> done[i].key != entry.key
  {
    var all, r := done + es, done + [entry] + es[1..];
    assert forall i :: 0 <= i < |all| ==> r[i].key == all[i].key;
    assert all[|done|] == es[0];
    assert forall i :: 0 <= i < |done| ==> all[i] == done[i];
  }

  lemma {:induction false} UnchangedIffDatesSurvive(v: Value)
    ensures AfterReading(v) == v <==> DatesSurvive(v)
    decreases v
  {
    match v
    case Arr(items) => UnchangedAll(items);
    case Obj(entries) => UnchangedEntries(entries);
    case _ =>
  }

  lemma {:induction false} UnchangedAll(vs: seq<Value>)
    ensures AfterReadingAll(vs) == vs <==> DatesSurviveAll(vs)
    decreases vs
  {
    if vs != [] {
      UnchangedIffDatesSurvive(vs[0]);
      UnchangedAll(vs[1..]);
      assert vs == [vs[0]] + vs[1..];
      assert AfterReadingAll(vs)[1..] == AfterReadingAll(vs[1..]);
    }
  }

  lemma {:induction false} UnchangedEntries(es: seq<Entry>)
    ensures AfterReadingEntries(es) == es <==> DatesSurviveEntries(es)
    decreases es
  {
    if es != [] {
      UnchangedIffDatesSurvive(es[0].value);
      UnchangedEntries(es[1..]);
      assert es == [es[0]] + es[1..];
      assert AfterReadingEntries(es)[1..] == AfterReadingEntries(es[1..]);
    }
  }

  /** The round trip: what was written is read back, and reading stops exactly at its end, if and only if
      every date in it survives. */
  lemma RoundTripIff(v: Value, before: seq<Byte>, behind: seq<Byte>)
    requires Writable(v) && Sized(v)
    ensures ReadValue(before + Ser(v) + behind, |before|) == Got(v, |before| + |Ser(v)|) <==> DatesSurvive(v)
  {
    var b := before + Ser(v) + behind;
    assert b[|before|..|before| + |Ser(v)|] == Ser(v);
    ReadSer(v, b, |before|);
    UnchangedIffDatesSurvive(v);
  }

  lemma {:induction false} ReadAllSer(vs: seq<Value>, b: seq<Byte>, pos: nat)
    requires WritableAll(vs) && SizedAll(vs) && Occurs(SerAll(vs), b, pos) && pos + |SerAll(vs)| == |b|
    ensures ReadAll(b, pos) == Got(AfterReadingAll(vs), |b|)
    decreases vs
  {
    hide ReadValue, Ser;
    if vs != [] {
      OccursSplit(Ser(vs[0]), SerAll(vs[1..]), b, pos);
      ReadSer(vs[0], b, pos);
      ReadAllSer(vs[1..], b, pos + |Ser(vs[0])|);
    }
  }

  /** Deserializing a concatenation of serialized values as a list gives the list of the values. */
  lemma ListRoundTripIff(vs: seq<Value>)
    requires vs != [] && WritableAll(vs) && SizedAll(vs)
    ensures Deserialized(SerAll(vs), true) == Got(vs, |SerAll(vs)|) <==> DatesSurviveAll(vs)
  {
    var b := SerAll(vs);
    assert b[0..|b|] == b;
    ReadAllSer(vs, b, 0);
    UnchangedAll(vs);
  }
}
