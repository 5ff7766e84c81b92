/** The formats of the MessagePack specification (sections "Formats" and "Timestamp extension type") with the
    encodings of strings that they use, stated by themselves, and that what is written is in them
    (opsiclientd_data/common/static_html/javascript/msgpack.js). */
module MsgPackFormats {
  import opened Common
  import opened MsgPack
  import opened MsgPackRoundTrip
  import opened Utf8

  // ----- numbers, highest byte first -----

  predicate IsUnsigned(b: seq<Byte>, n: int) {
    || (|b| == 1 && n == b[0])
    || (|b| == 2 && n == b[0] as int * 0x100 + b[1])
    || (|b| == 4 && n == b[0] as int * 0x100_0000 + b[1] as int * 0x1_0000 + b[2] as int * 0x100 + b[3])
    || (|b| == 8 &&
        n == b[0] as int * 0x100_0000_0000_0000 + b[1] as int * 0x1_0000_0000_0000 + b[2] as int * 0x100_0000_0000
             + b[3] as int * 0x1_0000_0000 + b[4] as int * 0x100_0000 + b[5] as int * 0x1_0000 + b[6] as int * 0x100
             + b[7])
  }

  function Span(size: nat): int {
    match size
    case 1 => 0x100
    case 2 => 0x1_0000
    case 4 => 0x1_0000_0000
    case _ => 0x1_0000_0000_0000_0000
  }

  /** Two's complement. */
  predicate IsSigned(b: seq<Byte>, n: int) {
    |b| > 0 && IsUnsigned(b, if b[0] >= 0x80 then n + Span(|b|) else n)
  }

  // ----- formats -----

  predicate IntFormat(n: int, b: seq<Byte>) {
    || (|b| == 1 && ((b[0] <= 0x7f && n == b[0]) || (b[0] >= 0xe0 && n == b[0] as int - 0x100)))
    || (|b| == 2 && ((b[0] == 0xcc && IsUnsigned(b[1..], n)) || (b[0] == 0xd0 && IsSigned(b[1..], n))))
    || (|b| == 3 && ((b[0] == 0xcd && IsUnsigned(b[1..], n)) || (b[0] == 0xd1 && IsSigned(b[1..], n))))
    || (|b| == 5 && ((b[0] == 0xce && IsUnsigned(b[1..], n)) || (b[0] == 0xd2 && IsSigned(b[1..], n))))
    || (|b| == 9 && ((b[0] == 0xcf && IsUnsigned(b[1..], n)) || (b[0] == 0xd3 && IsSigned(b[1..], n))))
  }

  predicate StrHeadFormat(n: nat, h: seq<Byte>) {
    || (|h| == 1 && n <= 31 && h[0] == 0xa0 + n)
    || (|h| == 2 && h[0] == 0xd9 && IsUnsigned(h[1..], n))
    || (|h| == 3 && h[0] == 0xda && IsUnsigned(h[1..], n))
    || (|h| == 5 && h[0] == 0xdb && IsUnsigned(h[1..], n))
  }

  predicate BinHeadFormat(n: nat, h: seq<Byte>) {
    || (|h| == 2 && h[0] == 0xc4 && IsUnsigned(h[1..], n))
    || (|h| == 3 && h[0] == 0xc5 && IsUnsigned(h[1..], n))
    || (|h| == 5 && h[0] == 0xc6 && IsUnsigned(h[1..], n))
  }

  predicate ArrHeadFormat(n: nat, h: seq<Byte>) {
    || (|h| == 1 && n <= 15 && h[0] == 0x90 + n)
    || (|h| == 3 && h[0] == 0xdc && IsUnsigned(h[1..], n))
    || (|h| == 5 && h[0] == 0xdd && IsUnsigned(h[1..], n))
  }

  predicate MapHeadFormat(n: nat, h: seq<Byte>) {
    || (|h| == 1 && n <= 15 && h[0] == 0x80 + n)
    || (|h| == 3 && h[0] == 0xde && IsUnsigned(h[1..], n))
    || (|h| == 5 && h[0] == 0xdf && IsUnsigned(h[1..], n))
  }

  /** A timestamp of seconds since 1970 and nanoseconds: 32 bit, 64 bit or 96 bit. */
  predicate TimestampFormat(b: seq<Byte>, sec: int, ns: int) {
    && 0 <= ns < 1_000_000_000
    && (|| (|b| == 6 && b[..2] == [0xd6, 0xff] && IsUnsigned(b[2..], sec) && ns == 0)
        || (|b| == 10 && b[..2] == [0xd7, 0xff] && 0 <= sec < 0x4_0000_0000 &&
              IsUnsigned(b[2..], ns * 0x4_0000_0000 + sec))
        || (|b| == 15 && b[..3] == [0xc7, 12, 0xff] && IsUnsigned(b[3..7], ns) && IsSigned(b[7..], sec)))
  }

  /** The bytes stand for the time of t milliseconds. */
  ghost predicate DateFormat(t: int, b: seq<Byte>) {
    exists sec, ns :: TimestampFormat(b, sec, ns) && t * 1_000_000 == sec * 1_000_000_000 + ns
  }

  predicate Tail(x: Byte) {
    0x80 <= x <= 0xbf
  }

  /** UTF-8 of a code point (section 3 of RFC 3629). */
  predicate PointFormat(c: int, b: seq<Byte>) {
    || (|b| == 1 && c == b[0] && b[0] <= 0x7f)
    || (|b| == 2 && 0xc2 <= b[0] <= 0xdf && Tail(b[1]) && c == (b[0] as int - 0xc0) * 64 + (b[1] as int - 0x80))
    || (|b| == 3 && 0xe0 <= b[0] <= 0xef && Tail(b[1]) && Tail(b[2]) && c >= 0x800 &&
          c == (b[0] as int - 0xe0) * 4096 + (b[1] as int - 0x80) * 64 + (b[2] as int - 0x80))
    || (|b| == 4 && 0xf0 <= b[0] <= 0xf4 && Tail(b[1]) && Tail(b[2]) && Tail(b[3]) && 0x1_0000 <= c <= 0x10_ffff &&
          c == (b[0] as int - 0xf0) * 262144 + (b[1] as int - 0x80) * 4096 + (b[2] as int - 0x80) * 64
               + (b[3] as int - 0x80))
  }

  /** The string begins with a surrogate pair (section 2 of RFC 2781). */
  predicate PairFirst(s: Text) {
    |s| >= 2 && 0xd800 <= s[0] <= 0xdbff && 0xdc00 <= s[1] <= 0xdfff
  }

  /** The code points of the string one behind the other. */
  ghost predicate TextFormat(s: Text, b: seq<Byte>) {
    if s == [] then b == []
    else if PairFirst(s) then
      exists k :: 0 <= k <= |b| && TextFormat(s[2..], b[k..]) &&
                  PointFormat(0x1_0000 + (s[0] as int - 0xd800) * 0x400 + (s[1] as int - 0xdc00), b[..k])
    else exists k :: 0 <= k <= |b| && PointFormat(s[0], b[..k]) && TextFormat(s[1..], b[k..])
  }

  ghost predicate StrFormatAt(s: Text, b: seq<Byte>, k: nat) {
    k <= |b| && StrHeadFormat(|b| - k, b[..k]) && TextFormat(s, b[k..])
  }

  ghost predicate StrFormat(s: Text, b: seq<Byte>) {
    exists k: nat :: StrFormatAt(s, b, k)
  }

  ghost predicate InFormat(v: Value, b: seq<Byte>) {
    match v
    case Nil => b == [0xc0]
    case Bool(x) => b == if x then [0xc3] else [0xc2]
    case Int(n) => IntFormat(n, b)
    case Str(s) => StrFormat(s, b)
    case Bin(bytes) => |bytes| <= |b| && BinHeadFormat(|bytes|, b[..|b| - |bytes|]) && b[|b| - |bytes|..] == bytes
    case Date(t) => DateFormat(t, b)
    case Arr(items) =>
      exists k :: 0 <= k <= |b| && ArrHeadFormat(|items|, b[..k]) && ItemsFormat(items, b[k..])
    case Obj(entries) =>
      exists k :: 0 <= k <= |b| && MapHeadFormat(|entries|, b[..k]) && EntriesFormat(entries, b[k..])
  }

  /** The items one behind the other. */
  ghost predicate ItemsFormat(vs: seq<Value>, b: seq<Byte>) {
    if vs == [] then b == []
    else exists k :: 0 <= k <= |b| && InFormat(vs[0], b[..k]) && ItemsFormat(vs[1..], b[k..])
  }

  /** Key, value, key, value. */
  ghost predicate EntriesFormat(es: seq<Entry>, b: seq<Byte>) {
    if es == [] then b == []
    else
      exists k, m :: 0 <= k <= m <= |b| && StrFormat(es[0].key, b[..k]) && InFormat(es[0].value, b[k..m]) &&
                     EntriesFormat(es[1..], b[m..])
  }

  // ----- numbers are written in these formats -----

  lemma UnsignedOf(b: seq<Byte>)
    requires |b| in {1, 2, 4, 8}
    ensures IsUnsigned(b, BigEndian(b)) && forall n :: IsUnsigned(b, n) ==> n == BigEndian(b)
  {
    hide BigEndian;
    if |b| == 1 {
      assert b == [b[0]];
      BigEndian1(b[0]);
    } else if |b| == 2 {
      assert b == [b[0], b[1]];
      BigEndian2(b[0], b[1]);
    } else if |b| == 4 {
      assert b == [b[0], b[1], b[2], b[3]];
      BigEndian4(b[0], b[1], b[2], b[3]);
    } else {
      EightBytes(b);
    }
  }

  lemma EightBytes(b: seq<Byte>)
    requires |b| == 8
    ensures IsUnsigned(b, BigEndian(b))
  {
    hide BigEndian;
    assert b == [b[0], b[1], b[2], b[3]] + [b[4], b[5], b[6], b[7]];
    BigEndian4(b[0], b[1], b[2], b[3]);
    BigEndian4(b[4], b[5], b[6], b[7]);
    Ranges();
    BigEndianConcat([b[0], b[1], b[2], b[3]], [b[4], b[5], b[6], b[7]]);
  }

  lemma SignedOf(b: seq<Byte>)
    requires |b| in {1, 2, 4, 8}
    ensures IsSigned(b, Signed(b)) && forall n :: IsSigned(b, n) ==> n == Signed(b)
  {
    hide BigEndian, Signed, IsUnsigned;
    Ranges();
    SignedMeaning(b, Range(|b|));
    UnsignedOf(b);
  }

  lemma IntInFormat(n: SafeInt)
    ensures IntFormat(n, IntBytes(n))
  {
    hide BigEndian, Signed, IsUnsigned, IsSigned, Bytes2, Bytes4, Int64Bytes, Trunc;
    var b := IntBytes(n);
    if n < -0x20 || n > 0x7f {
      if -0x80 <= n <= 0xff {
        IntInFormat1(n);
      } else if -0x8000 <= n <= 0xffff {
        IntInFormat2(n);
      } else if -0x8000_0000 <= n <= 0xffff_ffff {
        IntInFormat4(n);
      } else {
        IntInFormat8(n);
      }
    }
  }

  lemma IntInFormat1(n: SafeInt)
    requires -0x80 <= n < -0x20 || 0x7f < n <= 0xff
    ensures IntFormat(n, IntBytes(n))
  {
    assert IntBytes(n)[1..] == [ToByte(n)];
  }

  lemma TwoBytesAre(n: int)
    ensures |Bytes2(n)| == 2
  {
  }

  lemma Bytes2Signed(n: int)
    requires -0x8000 <= n < 0
    ensures Signed(Bytes2(n)) == n
  {
    hide BigEndian, Signed;
    Bytes2Back(n);
    Ranges();
    SignedMeaning(Bytes2(n), Range(2));
  }

  lemma IntInFormat2(n: SafeInt)
    requires -0x8000 <= n < -0x80 || 0xff < n <= 0xffff
    ensures IntFormat(n, IntBytes(n))
  {
    hide BigEndian, Signed, IsUnsigned, IsSigned, Bytes2;
    TwoBytesAre(n);
    assert IntBytes(n)[1..] == Bytes2(n);
    if n > 0 {
      Bytes2Back(n);
      UnsignedOf(Bytes2(n));
    } else {
      Bytes2Signed(n);
      SignedOf(Bytes2(n));
    }
  }

  lemma FourBytesAre(n: int)
    ensures |Bytes4(n)| == 4
  {
  }

  lemma IntInFormat4(n: SafeInt)
    requires -0x8000_0000 <= n < -0x8000 || 0xffff < n <= 0xffff_ffff
    ensures IntFormat(n, IntBytes(n))
  {
    hide BigEndian, Signed, IsUnsigned, IsSigned;
    assert IntBytes(n)[1..] == Bytes4(n);
    Bytes4Back(n);
    Ranges();
    SignedMeaning(Bytes4(n), Range(4));
    UnsignedOf(Bytes4(n));
    SignedOf(Bytes4(n));
  }

  lemma IntInFormat8(n: SafeInt)
    requires n < -0x8000_0000 || 0xffff_ffff < n
    ensures IntFormat(n, IntBytes(n))
  {
    hide BigEndian, Signed, IsUnsigned, IsSigned, Bytes4;
    if n > 0 {
      TruncSplit(n as real);
      NonNegativeWords(n);
      FourBytesAre(n / POW32);
      FourBytesAre(n % POW32);
    } else {
      Int64Back(n as real);
    }
    var t := if n > 0 then Bytes4(n / POW32) + Bytes4(n % POW32) else Int64Bytes(n as real);
    assert IntBytes(n) == [0xd3] + t && IntBytes(n)[1..] == t;
    SignedOf(t);
  }

  // ----- heads -----

  lemma HeadsInFormat(n: nat)
    requires n < POW32
    ensures StrHeadFormat(n, StrHead(n)) && BinHeadFormat(n, BinHead(n))
    ensures ArrHeadFormat(n, ArrHead(n)) && MapHeadFormat(n, ObjHead(n))
  {
    hide BigEndian, IsUnsigned, Bytes2, Bytes4;
    BytesByLength(n);
    TwoBytesAre(n);
    FourBytesAre(n);
    UnsignedOf(Bytes2(n));
    UnsignedOf(Bytes4(n));
    if n <= 0xff {
      UnsignedOf([n]);
    }
    assert forall c: Byte, t: seq<Byte> :: ([c] + t)[1..] == t;
    assert n <= 0xff ==> forall c: Byte :: [c, n][1..] == [n];
  }

  // ----- dates -----

  lemma DateInFormat4(t: TimeValue)
    requires t % 1000 == 0 && 0 <= t < POW32 * 1000
    ensures TimestampFormat(DateBytes(t), t / 1000, 0)
  {
    hide BigEndian, IsUnsigned, IsSigned, Bytes4;
    Seconds(t);
    FourBytesAre(t / 1000);
    Bytes4Back(t / 1000);
    UnsignedOf(Bytes4(t / 1000));
    assert DateBytes(t) == [0xd6, 0xff] + Bytes4(t / 1000);
    assert DateBytes(t)[2..] == Bytes4(t / 1000);
  }

  lemma DateInFormat8(t: TimeValue)
    requires 0 <= t < 17_179_869_184_000 && !(t % 1000 == 0 && t < POW32 * 1000)
    ensures TimestampFormat(DateBytes(t), t / 1000, t % 1000 * 1_000_000)
  {
    hide BigEndian, IsUnsigned, IsSigned, Stamp8;
    Seconds(t);
    DateBytesAre8(t);
    Stamp8Value(t as real / 1000.0, t / 1000, t % 1000 * 1_000_000);
    assert DateBytes(t)[2..] == Stamp8(t % 1000 * 1_000_000, t as real / 1000.0);
  }

  lemma Stamp8Value(sec: real, whole: int, ns: int)
    requires 0 <= ns < 0x4000_0000 && 0.0 <= sec < 17_179_869_184.0 && Trunc(sec) == whole
    ensures |Stamp8(ns, sec)| == 8 && IsUnsigned(Stamp8(ns, sec), ns * 0x4_0000_0000 + whole)
  {
    hide BigEndian, Bytes4;
    var d := Stamp8(ns, sec);
    TruncSplit(sec);
    assert 0 <= whole < 17_179_869_184 && 0 <= whole / POW32 < 4;
    StampBytes(ns, whole / POW32);
    FourBytesAre(whole);
    Bytes4Back(whole);
    UnsignedOf(Bytes4(whole));
    assert d[4..] == Bytes4(whole);
    assert d[0] as int * 0x100_0000 + d[1] as int * 0x1_0000 + d[2] as int * 0x100 + d[3] == ns * 4 + whole / POW32;
    assert whole == whole / POW32 * POW32 + whole % POW32;
  }

  lemma DateInFormat12(t: TimeValue)
    requires t < 0 || t >= 17_179_869_184_000
    ensures TimestampFormat(DateBytes(t), Written(t as real / 1000.0), t % 1000 * 1_000_000)
    ensures forall sec, ns :: TimestampFormat(DateBytes(t), sec, ns) ==>
              sec == Written(t as real / 1000.0) && ns == t % 1000 * 1_000_000
  {
    hide BigEndian, Signed, IsUnsigned, IsSigned, Bytes4, Int64Bytes, Written;
    var sec, ns := t as real / 1000.0, t % 1000 * 1_000_000;
    DateBytesAre12(t);
    Int64Back(sec);
    FourBytesAre(ns);
    Bytes4Back(ns);
    UnsignedOf(Bytes4(ns));
    SignedOf(Int64Bytes(sec));
    assert DateBytes(t)[3..7] == Bytes4(ns) && DateBytes(t)[7..] == Int64Bytes(sec);
  }

  /** A written date stands for its time exactly if it would also come back. */
  lemma DateFormatIff(t: TimeValue)
    ensures DateFormat(t, DateBytes(t)) <==> DateSurvives(t)
  {
    hide TimestampFormat, Written, DateBytes;
    if t % 1000 == 0 && 0 <= t < POW32 * 1000 {
      DateInFormat4(t);
    } else if 0 <= t < 17_179_869_184_000 {
      DateInFormat8(t);
    } else {
      DateInFormat12(t);
      WrittenSeconds(t);
    }
  }

  // ----- strings -----

  lemma SixBits(c: int)
    ensures c == c / 0x40 * 64 + c % 0x40 && 0 <= c % 0x40 < 0x40
    ensures c / 0x40 == c / 0x1000 * 64 + c / 0x40 % 0x40
    ensures c / 0x1000 == c / 0x4_0000 * 64 + c / 0x1000 % 0x40
  {
  }

  lemma PointInFormat(c: int)
    requires 0 <= c < 0x11_0000
    ensures PointFormat(c, CodeBytes(c))
  {
    if c >= 0x1_0000 {
      PointInFormat4(c);
    } else if c >= 0x800 {
      PointInFormat3(c);
    } else {
      SixBits(c);
    }
  }

  lemma PointInFormat3(c: int)
    requires 0x800 <= c < 0x1_0000
    ensures PointFormat(c, CodeBytes(c))
  {
    var r := CodeBytes(c);
    SixBits(c);
    assert r == [c / 0x1000 + 224, c / 0x40 % 0x40 + 128, c % 0x40 + 128];
    assert c == c / 0x1000 * 4096 + c / 0x40 % 0x40 * 64 + c % 0x40;
  }

  lemma PointInFormat4(c: int)
    requires 0x1_0000 <= c < 0x11_0000
    ensures PointFormat(c, CodeBytes(c))
  {
    var r := CodeBytes(c);
    SixBits(c);
    assert r == [c / 0x4_0000 + 240, c / 0x1000 % 0x40 + 128, c / 0x40 % 0x40 + 128, c % 0x40 + 128];
    assert c == c / 0x4_0000 * 262144 + c / 0x1000 % 0x40 * 4096 + c / 0x40 % 0x40 * 64 + c % 0x40;
  }

  lemma PairPoint(s: Text)
    requires s != []
    ensures IsHigh(s[0]) && |s| >= 2 && IsLow(s[1]) <==> PairFirst(s)
    ensures PairFirst(s) ==>
              CodePoint(s[0], s[1]) == 0x1_0000 + (s[0] as int - 0xd800) * 0x400 + (s[1] as int - 0xdc00)
  {
  }

  lemma PointRange(s: Text)
    requires s != []
    ensures |s| >= 2 ==> 0 <= CodePoint(s[0], s[1]) < 0x11_0000
  {
  }

  lemma TextJoined(s: Text, c: int, p: seq<Byte>, q: seq<Byte>)
    requires s != [] && PointFormat(c, p) && TextFormat(s[if PairFirst(s) then 2 else 1..], q)
    requires c == if PairFirst(s) then 0x1_0000 + (s[0] as int - 0xd800) * 0x400 + (s[1] as int - 0xdc00) else s[0]
    ensures TextFormat(s, p + q)
  {
    hide PointFormat;
    assert (p + q)[..|p|] == p && (p + q)[|p|..] == q;
  }

  lemma {:induction false} TextInFormat(s: Text)
    requires Encode(s).Ok?
    ensures TextFormat(s, Encode(s).value)
  {
    hide PointFormat, CodeBytes, IsHigh, IsLow, PairFirst, CodePoint;
    if s == [] {
      assert TextFormat([], []);
    } else {
      hide TextFormat;
      PairPoint(s);
      var c, n := if IsHigh(s[0]) then CodePoint(s[0], s[1]) else s[0], if IsHigh(s[0]) then 2 else 1;
      PointRange(s);
      PointInFormat(c);
      TextInFormat(s[n..]);
      TextJoined(s, c, CodeBytes(c), Encode(s[n..]).value);
    }
  }

  // ----- nested values -----

  lemma StrInFormat(s: Text)
    requires Encode(s).Ok? && |TextBytes(s)| < POW32
    ensures StrFormat(s, StrBytes(s))
  {
    hide Encode, StrHead, StrHeadFormat, TextFormat;
    TextInFormat(s);
    var h, t := StrHead(|TextBytes(s)|), TextBytes(s);
    HeadsInFormat(|t|);
    assert (h + t)[..|h|] == h && (h + t)[|h|..] == t;
    assert StrFormatAt(s, StrBytes(s), |h|);
  }

  /** Every value that can be written, and whose dates survive, is written in a format of the specification. */
  lemma {:induction false} WrittenInFormat(v: Value)
    requires Writable(v) && Sized(v) && DatesSurvive(v)
    ensures InFormat(v, Ser(v))
  {
    hide IntFormat, IntBytes, StrFormat, StrBytes, DateFormat, DateBytes, Encode, ItemsFormat, EntriesFormat;
    hide StrHead, BinHead, ArrHead, ObjHead, StrHeadFormat, BinHeadFormat, ArrHeadFormat, MapHeadFormat;
    match v
    case Int(n) => IntInFormat(n);
    case Str(s) => StrInFormat(s);
    case Bin(bytes) =>
      HeadsInFormat(|bytes|);
      var h := BinHead(|bytes|);
      assert (h + bytes)[..|h|] == h && (h + bytes)[|h|..] == bytes;
    case Date(t) => DateFormatIff(t);
    case Arr(items) =>
      HeadsInFormat(|items|);
      AllInFormat(items);
      var h, t := ArrHead(|items|), SerAll(items);
      assert (h + t)[..|h|] == h && (h + t)[|h|..] == t;
    case Obj(entries) =>
      HeadsInFormat(|entries|);
      EntriesInFormat(entries);
      var h, t := ObjHead(|entries|), SerEntries(entries);
      assert (h + t)[..|h|] == h && (h + t)[|h|..] == t;
    case _ =>
  }

  lemma {:induction false} AllInFormat(vs: seq<Value>)
    requires WritableAll(vs) && SizedAll(vs) && DatesSurviveAll(vs)
    ensures ItemsFormat(vs, SerAll(vs))
  {
    hide InFormat;
    if vs != [] {
      var p, q := Ser(vs[0]), SerAll(vs[1..]);
      WrittenInFormat(vs[0]);
      AllInFormat(vs[1..]);
      assert (p + q)[..|p|] == p && (p + q)[|p|..] == q;
    }
  }

  lemma {:induction false} EntriesInFormat(es: seq<Entry>)
    requires WritableEntries(es) && SizedEntries(es) && DatesSurviveEntries(es)
    ensures EntriesFormat(es, SerEntries(es))
  {
    hide InFormat, StrFormat, StrBytes, Encode;
    if es != [] {
      var p, q, r := StrBytes(es[0].key), Ser(es[0].value), SerEntries(es[1..]);
      StrInFormat(es[0].key);
      WrittenInFormat(es[0].value);
      EntriesInFormat(es[1..]);
      var b := p + q + r;
      assert b[..|p|] == p && b[|p|..|p| + |q|] == q && b[|p| + |q|..] == r;
      assert SerEntries(es) == b;
    }
  }
}
