/** Values are read from every format of the MessagePack specification that stands for them, whoever wrote it
    (opsiclientd_data/common/static_html/javascript/msgpack.js). */
module MsgPackReading {
  import opened Common
  import opened MsgPack
  import opened MsgPackFormats
  import opened MsgPackRoundTrip
  import opened Utf8

  // ----- integers -----

  lemma ReadsInt(n: SafeInt, f: seq<Byte>, b: seq<Byte>, pos: nat)
    requires IntFormat(n, f) && Occurs(f, b, pos)
    ensures ReadValue(b, pos) == Got(Int(n), pos + |f|)
  {
    hide IsUnsigned, IsSigned, BigEndian, Signed, Occurs, ReadValue;
    if |f| == 1 {
      ReadsFixInt(n, f, b, pos);
    } else {
      var t := f[1..];
      assert f == [f[0]] + t;
      UnsignedOf(t);
      SignedOf(t);
      if f[0] >= 0xd0 {
        SignedBack(n, f[0], t, b, pos);
      } else {
        UnsignedBack(n, f[0], t, b, pos);
      }
    }
  }

  lemma ReadsFixInt(n: SafeInt, f: seq<Byte>, b: seq<Byte>, pos: nat)
    requires |f| == 1 && IntFormat(n, f) && Occurs(f, b, pos)
    ensures ReadValue(b, pos) == Got(Int(n), pos + 1)
  {
    OccursAt(f, b, pos, 0);
  }

  // ----- heads -----

  lemma ReadsLength(n: nat, h: seq<Byte>, b: seq<Byte>, pos: nat)
    requires |h| in {2, 3, 5} && IsUnsigned(h[1..], n) && Occurs(h, b, pos)
    ensures pos < |b| && b[pos] == h[0] && ReadUInt(b, pos + 1, |h| - 1) == Got(n, pos + |h|)
  {
    hide IsUnsigned, BigEndian, Occurs, ReadUInt;
    assert h == [h[0]] + h[1..];
    UnsignedOf(h[1..]);
    LengthAt(n, h[0], h[1..], b, pos);
  }

  lemma ReadsStrHead(n: nat, h: seq<Byte>, b: seq<Byte>, pos: nat)
    requires StrHeadFormat(n, h) && Occurs(h, b, pos)
    ensures ReadValue(b, pos) == ReadStr(b, pos + |h|, n)
  {
    OccursInside(h, b, pos);
    hide IsUnsigned, BigEndian, Occurs, ReadUInt, ReadStr;
    if |h| == 1 {
      OccursAt(h, b, pos, 0);
    } else {
      ReadsLength(n, h, b, pos);
    }
  }

  lemma ReadsBinHead(n: nat, h: seq<Byte>, b: seq<Byte>, pos: nat)
    requires BinHeadFormat(n, h) && Occurs(h, b, pos)
    ensures ReadValue(b, pos) == BinValue(ReadBin(b, pos + |h|, n))
  {
    hide IsUnsigned, BigEndian, Occurs, ReadUInt, ReadBin;
    ReadsLength(n, h, b, pos);
  }

  lemma ReadsArrHead(n: nat, h: seq<Byte>, b: seq<Byte>, pos: nat)
    requires ArrHeadFormat(n, h) && Occurs(h, b, pos)
    ensures pos + |h| <= |b| && ReadValue(b, pos) == ReadArray(b, pos + |h|, n)
  {
    OccursInside(h, b, pos);
    hide IsUnsigned, BigEndian, Occurs, ReadUInt, ReadArray;
    if |h| == 1 {
      OccursAt(h, b, pos, 0);
    } else {
      ReadsLength(n, h, b, pos);
    }
  }

  lemma ReadsMapHead(n: nat, h: seq<Byte>, b: seq<Byte>, pos: nat)
    requires MapHeadFormat(n, h) && Occurs(h, b, pos)
    ensures pos + |h| <= |b| && ReadValue(b, pos) == ReadMap(b, pos + |h|, n)
  {
    OccursInside(h, b, pos);
    hide IsUnsigned, BigEndian, Occurs, ReadUInt, ReadMap;
    if |h| == 1 {
      OccursAt(h, b, pos, 0);
    } else {
      ReadsLength(n, h, b, pos);
    }
  }

  lemma OccursInside(s: seq<Byte>, b: seq<Byte>, pos: nat)
    requires Occurs(s, b, pos)
    ensures pos + |s| <= |b|
  {
  }

  /** A part of what occurs, up to k and from k on. */
  lemma OccursParts(f: seq<Byte>, b: seq<Byte>, pos: nat, k: nat)
    requires Occurs(f, b, pos) && k <= |f|
    ensures Occurs(f[..k], b, pos) && Occurs(f[k..], b, pos + k)
  {
    hide Occurs;
    assert f == f[..k] + f[k..];
    OccursSplit(f[..k], f[k..], b, pos);
  }

  // ----- strings -----

  lemma PointUnique(c: int, f: seq<Byte>)
    requires PointFormat(c, f)
    ensures 0 <= c < 0x11_0000 && f == CodeBytes(c)
  {
    if |f| == 3 {
      PointUnique3(c, f);
    } else if |f| == 4 {
      PointUnique4(c, f);
    }
  }

  lemma SixBitsOf(x: int, y: int)
    requires 0 <= y < 0x40
    ensures (x * 0x40 + y) / 0x40 == x && (x * 0x40 + y) % 0x40 == y
  {
  }

  lemma PointUnique3(c: int, f: seq<Byte>)
    requires PointFormat(c, f) && |f| == 3
    ensures 0 <= c < 0x11_0000 && f == CodeBytes(c)
  {
    var x, y, z := f[0] as int - 0xe0, f[1] as int - 0x80, f[2] as int - 0x80;
    assert c == (x * 0x40 + y) * 0x40 + z;
    SixBitsOf(x * 0x40 + y, z);
    SixBitsOf(x, y);
    SixBits(c);
    var r := CodeBytes(c);
    assert r == [c / 0x1000 + 224, c / 0x40 % 0x40 + 128, c % 0x40 + 128];
    assert c / 0x1000 == x && r[0] == f[0] && r[1] == f[1] && r[2] == f[2];
  }

  lemma PointUnique4(c: int, f: seq<Byte>)
    requires PointFormat(c, f) && |f| == 4
    ensures 0 <= c < 0x11_0000 && f == CodeBytes(c)
  {
    var w, x, y, z := f[0] as int - 0xf0, f[1] as int - 0x80, f[2] as int - 0x80, f[3] as int - 0x80;
    assert c == ((w * 0x40 + x) * 0x40 + y) * 0x40 + z;
    SixBitsOf((w * 0x40 + x) * 0x40 + y, z);
    SixBitsOf(w * 0x40 + x, y);
    SixBitsOf(w, x);
    SixBits(c);
    var r := CodeBytes(c);
    assert r == [c / 0x4_0000 + 240, c / 0x1000 % 0x40 + 128, c / 0x40 % 0x40 + 128, c % 0x40 + 128];
    assert c / 0x1000 == w * 0x40 + x && c / 0x4_0000 == w;
    assert r[0] == f[0] && r[1] == f[1] && r[2] == f[2] && r[3] == f[3];
  }

  lemma {:induction false} TextUnique(s: Text, f: seq<Byte>)
    requires TextFormat(s, f) && Encode(s).Ok?
    ensures f == TextBytes(s)
  {
    hide PointFormat, CodeBytes, CodePoint, IsHigh, IsLow, PairFirst;
    if s != [] {
      PairPoint(s);
      var n := if PairFirst(s) then 2 else 1;
      var c := if PairFirst(s) then CodePoint(s[0], s[1]) else s[0];
      var k :| 0 <= k <= |f| && PointFormat(c, f[..k]) && TextFormat(s[n..], f[k..]);
      PointUnique(c, f[..k]);
      TextUnique(s[n..], f[k..]);
      assert f == f[..k] + f[k..];
    }
  }

  lemma ReadsStr(s: Text, f: seq<Byte>, b: seq<Byte>, pos: nat)
    requires StrFormat(s, f) && Encode(s).Ok? && Occurs(f, b, pos)
    ensures ReadValue(b, pos) == Got(Str(s), pos + |f|)
  {
    hide Encode, TextFormat, StrHeadFormat, ReadStr, ReadValue, Occurs, TextBytes;
    var k: nat :| StrFormatAt(s, f, k);
    OccursParts(f, b, pos, k);
    TextUnique(s, f[k..]);
    ReadsStrHead(|f| - k, f[..k], b, pos);
    ReadStrAt(s, b, pos + k);
  }

  lemma ReadsBin(t: seq<Byte>, f: seq<Byte>, b: seq<Byte>, pos: nat)
    requires InFormat(Bin(t), f) && Occurs(f, b, pos)
    ensures ReadValue(b, pos) == Got(Bin(t), pos + |f|)
  {
    hide BinHeadFormat, ReadBin, ReadValue, Occurs;
    var k := |f| - |t|;
    OccursParts(f, b, pos, k);
    ReadsBinHead(|t|, f[..k], b, pos);
    BinAt(t, b, pos + k);
  }

  // ----- dates -----

  lemma ReadsDate(t: TimeValue, f: seq<Byte>, b: seq<Byte>, pos: nat)
    requires DateFormat(t, f) && Occurs(f, b, pos)
    ensures ReadValue(b, pos) == Got(Date(t), pos + |f|)
  {
    hide IsUnsigned, IsSigned, ReadValue, ReadDate, Occurs;
    var sec, ns :| TimestampFormat(f, sec, ns) && t * 1_000_000 == sec * 1_000_000_000 + ns;
    var millis := t - sec * 1000;
    assert ns == millis * 1_000_000;
    if |f| == 6 {
      assert f == [0xd6, 0xff] + f[2..];
      ReadsStamp4(t, f[2..], sec, pos + 6);
      FixedExtBack(0xd6, f[2..], Got(Date(t), pos + 6), b, pos);
    } else if |f| == 10 {
      assert f == [0xd7, 0xff] + f[2..];
      ReadsStamp8(t, f[2..], sec, millis, pos + 10);
      FixedExtBack(0xd7, f[2..], Got(Date(t), pos + 10), b, pos);
    } else {
      assert f == [0xc7, 12, 0xff] + f[3..];
      ReadsStamp12(t, f, sec, millis, pos + 15);
      SizedExtBack(f[3..], Got(Date(t), pos + 15), b, pos);
    }
  }

  lemma ReadsStamp4(t: TimeValue, d: seq<Byte>, sec: int, pos: nat)
    requires |d| == 4 && IsUnsigned(d, sec) && t == sec * 1000
    ensures ReadDate(d, pos) == Got(Date(t), pos)
  {
    UnsignedOf(d);
    NewDateAt(t, pos);
  }

  lemma ReadsStamp8(t: TimeValue, d: seq<Byte>, sec: int, millis: int, pos: nat)
    requires |d| == 8 && 0 <= sec < 0x4_0000_0000 && 0 <= millis < 1000 && t == sec * 1000 + millis
    requires IsUnsigned(d, millis * 1_000_000 * 0x4_0000_0000 + sec)
    ensures ReadDate(d, pos) == Got(Date(t), pos)
  {
    hide BigEndian, NewDate;
    UnsignedOf(d[4..]);
    var hi, lo := d[3] % 4, BigEndian(d[4..]);
    assert 0 <= hi * POW32 + lo < 0x4_0000_0000;
    assert StampNs(d) * 0x4_0000_0000 + (hi * POW32 + lo) == millis * 1_000_000 * 0x4_0000_0000 + sec;
    SamePair(StampNs(d), hi * POW32 + lo, millis * 1_000_000, sec);
    Nanoseconds(sec, millis);
    NewDateAt(t, pos);
  }

  lemma SamePair(a: int, x: int, c: int, y: int)
    requires 0 <= x < 0x4_0000_0000 && 0 <= y < 0x4_0000_0000
    requires a * 0x4_0000_0000 + x == c * 0x4_0000_0000 + y
    ensures a == c && x == y
  {
  }

  lemma ReadsStamp12(t: TimeValue, f: seq<Byte>, sec: int, millis: int, pos: nat)
    requires |f| == 15 && IsUnsigned(f[3..7], millis * 1_000_000) && IsSigned(f[7..], sec)
    requires 0 <= millis < 1000 && t == sec * 1000 + millis
    ensures ReadDate(f[3..], pos) == Got(Date(t), pos)
  {
    hide IsUnsigned, IsSigned, BigEndian, Signed, ReadDate;
    var d := f[3..];
    assert d[..4] == f[3..7] && d[4..] == f[7..];
    UnsignedOf(d[..4]);
    SignedOf(d[4..]);
    Date12Parts(d, sec, millis, pos);
  }

  // ----- nested values -----

  lemma ReadsByte(v: Value, f: seq<Byte>, b: seq<Byte>, pos: nat)
    requires (v.Nil? || v.Bool?) && InFormat(v, f) && Occurs(f, b, pos)
    ensures ReadValue(b, pos) == Got(v, pos + |f|)
  {
    OccursAt(f, b, pos, 0);
  }

  /** Wherever bytes stand that are in a format of the value, the value is read and nothing more. */
  lemma {:induction false} ReadsFormat(v: Value, f: seq<Byte>, b: seq<Byte>, pos: nat)
    requires Writable(v) && Sized(v) && InFormat(v, f) && Occurs(f, b, pos)
    ensures ReadValue(b, pos) == Got(v, pos + |f|)
    decreases v, 2
  {
    match v
    case Nil => ReadsByte(v, f, b, pos);
    case Bool(_) => ReadsByte(v, f, b, pos);
    case Int(n) => ReadsInt(n, f, b, pos);
    case Str(s) => ReadsStr(s, f, b, pos);
    case Bin(t) => ReadsBin(t, f, b, pos);
    case Date(t) => ReadsDate(t, f, b, pos);
    case Arr(items) => ReadsArr(items, f, b, pos);
    case Obj(entries) => ReadsObj(entries, f, b, pos);
  }

  lemma {:induction false} ReadsArr(items: seq<Value>, f: seq<Byte>, b: seq<Byte>, pos: nat)
    requires WritableAll(items) && SizedAll(items) && InFormat(Arr(items), f) && Occurs(f, b, pos)
    ensures ReadValue(b, pos) == Got(Arr(items), pos + |f|)
    decreases items, 1
  {
    hide ArrHeadFormat, ItemsFormat, ReadValue, ReadItems, Occurs;
    var k :| 0 <= k <= |f| && ArrHeadFormat(|items|, f[..k]) && ItemsFormat(items, f[k..]);
    OccursParts(f, b, pos, k);
    ReadsArrHead(|items|, f[..k], b, pos);
    ReadsItems(items, f[k..], b, pos + k);
  }

  lemma {:induction false} ReadsItems(vs: seq<Value>, f: seq<Byte>, b: seq<Byte>, pos: nat)
    requires WritableAll(vs) && SizedAll(vs) && ItemsFormat(vs, f) && Occurs(f, b, pos)
    ensures pos <= |b| && ReadItems(b, pos, |vs|) == Got(vs, pos + |f|)
    decreases vs, 0
  {
    hide InFormat, ReadValue, Occurs;
    OccursInside(f, b, pos);
    if vs != [] {
      var k :| 0 <= k <= |f| && InFormat(vs[0], f[..k]) && ItemsFormat(vs[1..], f[k..]);
      OccursParts(f, b, pos, k);
      ReadsFormat(vs[0], f[..k], b, pos);
      ReadsItems(vs[1..], f[k..], b, pos + k);
      assert vs == [vs[0]] + vs[1..];
    }
  }

  lemma {:induction false} ReadsObj(es: seq<Entry>, f: seq<Byte>, b: seq<Byte>, pos: nat)
    requires WritableEntries(es) && SizedEntries(es) && DistinctKeys(es) && InFormat(Obj(es), f) && Occurs(f, b, pos)
    ensures ReadValue(b, pos) == Got(Obj(es), pos + |f|)
    decreases es, 1
  {
    hide MapHeadFormat, EntriesFormat, ReadValue, ReadEntries, Occurs, WritableEntries, SizedEntries;
    var k :| 0 <= k <= |f| && MapHeadFormat(|es|, f[..k]) && EntriesFormat(es, f[k..]);
    OccursParts(f, b, pos, k);
    ReadsMapHead(|es|, f[..k], b, pos);
    assert [] + es == es;
    ReadsEntries(es, [], f[k..], b, pos + k);
  }

  lemma {:induction false} ReadsEntries(es: seq<Entry>, done: seq<Entry>, f: seq<Byte>, b: seq<Byte>, pos: nat)
    requires WritableEntries(es) && SizedEntries(es) && DistinctKeys(done + es)
    requires EntriesFormat(es, f) && Occurs(f, b, pos)
    ensures pos <= |b| && ReadEntries(b, pos, |es|, done) == Got(done + es, pos + |f|)
    decreases es, 0
  {
    hide InFormat, StrFormat, ReadValue, ReadEntries, Occurs, Encode, TextBytes;
    OccursInside(f, b, pos);
    if es == [] {
      NoEntries(done, b, pos);
      assert done + [] == done;
    } else {
      var k, m :| 0 <= k <= m <= |f| && StrFormat(es[0].key, f[..k]) && InFormat(es[0].value, f[k..m]) &&
                  EntriesFormat(es[1..], f[m..]);
      hide EntriesFormat, DistinctKeys;
      ReadsPair(es, f, b, pos, k, m);
      ReadsFormat(es[0].value, f[k..m], b, pos + k);
      EntryAdded(es, done, b, pos, pos + k, pos + m);
      ReadsEntries(es[1..], done + [es[0]], f[m..], b, pos + m);
      assert done + [es[0]] + es[1..] == done + es;
    }
  }

  lemma ReadsPair(es: seq<Entry>, f: seq<Byte>, b: seq<Byte>, pos: nat, k: nat, m: nat)
    requires es != [] && Encode(es[0].key).Ok? && k <= m <= |f| && StrFormat(es[0].key, f[..k]) && Occurs(f, b, pos)
    ensures ReadValue(b, pos) == Got(Str(es[0].key), pos + k)
    ensures Occurs(f[k..m], b, pos + k) && Occurs(f[m..], b, pos + m)
  {
    hide StrFormat, ReadValue, Occurs, Encode;
    OccursParts(f, b, pos, m);
    OccursParts(f[..m], b, pos, k);
    assert f[..m][..k] == f[..k] && f[..m][k..] == f[k..m];
    ReadsStr(es[0].key, f[..k], b, pos);
  }

  lemma EntryAdded(es: seq<Entry>, done: seq<Entry>, b: seq<Byte>, pos: nat, q: nat, r: nat)
    requires es != [] && DistinctKeys(done + es) && pos <= |b|
    requires ReadValue(b, pos) == Got(Str(es[0].key), q) && ReadValue(b, q) == Got(es[0].value, r)
    ensures r <= |b| && DistinctKeys(done + [es[0]] + es[1..])
    ensures ReadEntries(b, pos, |es|, done) == ReadEntries(b, r, |es| - 1, done + [es[0]])
  {
    hide ReadValue, ReadEntries;
    KeysLeft(es, done, es[0]);
    AssignedNew(done, es[0].key, es[0].value);
    EntryStep(es[0].key, es[0].value, |es|, done, b, pos, q, r);
    assert Entry(es[0].key, es[0].value) == es[0];
  }
}
