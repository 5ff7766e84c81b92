/** The MessagePack format as it is written and read: values, their bytes, and the parser as a function
    (opsiclientd_data/common/static_html/javascript/msgpack.js; MessagePack specification, sections "Formats"
    and "Timestamp extension type"). */
module MsgPack {
  import opened Common
  import opened Utf8

  const POW32 := 0x1_0000_0000

  /** Integers that a double holds exactly. */
  type SafeInt = n: int | -0x20_0000_0000_0000 < n < 0x20_0000_0000_0000
  /** Time value of a date in milliseconds. */
  type TimeValue = t: int | -8_640_000_000_000_000 <= t <= 8_640_000_000_000_000

  datatype Value =
    | Nil
    | Bool(b: bool)
    | Int(n: SafeInt)
    | Str(s: Text)
    | Bin(bytes: seq<Byte>)
    | Arr(items: seq<Value>)
    | Obj(entries: seq<Entry>)
    | Date(t: TimeValue)

  /** A property of an object, in enumeration order. */
  datatype Entry = Entry(key: Text, value: Value)

  /** Every string in v has paired surrogates, so that serialization does not throw. */
  ghost predicate Writable(v: Value) {
    match v
    case Str(s) => Encode(s).Ok?
    case Arr(items) => WritableAll(items)
    case Obj(entries) => WritableEntries(entries)
    case _ => true
  }

  ghost predicate WritableAll(vs: seq<Value>) {
    vs == [] || (Writable(vs[0]) && WritableAll(vs[1..]))
  }

  ghost predicate WritableEntries(es: seq<Entry>) {
    es == [] || (Encode(es[0].key).Ok? && Writable(es[0].value) && WritableEntries(es[1..]))
  }

  /** Lengths fit their 32 bit fields and object keys are distinct, as they are in every value of the source. */
  ghost predicate Sized(v: Value) {
    match v
    case Str(s) => |TextBytes(s)| < POW32
    case Bin(bytes) => |bytes| < POW32
    case Arr(items) => |items| < POW32 && SizedAll(items)
    case Obj(entries) => |entries| < POW32 && DistinctKeys(entries) && SizedEntries(entries)
    case _ => true
  }

  ghost predicate SizedAll(vs: seq<Value>) {
    vs == [] || (Sized(vs[0]) && SizedAll(vs[1..]))
  }

  ghost predicate SizedEntries(es: seq<Entry>) {
    es == [] || (|TextBytes(es[0].key)| < POW32 && Sized(es[0].value) && SizedEntries(es[1..]))
  }

  ghost predicate DistinctKeys(es: seq<Entry>) {
    forall i, j :: 0 <= i < j < |es| ==> es[i].key != es[j].key
  }

  /** All dates in v survive being written and read. */
  ghost predicate DatesSurvive(v: Value) {
    match v
    case Arr(items) => DatesSurviveAll(items)
    case Obj(entries) => DatesSurviveEntries(entries)
    case Date(t) => DateSurvives(t)
    case _ => true
  }

  ghost predicate DatesSurviveAll(vs: seq<Value>) {
    vs == [] || (DatesSurvive(vs[0]) && DatesSurviveAll(vs[1..]))
  }

  ghost predicate DatesSurviveEntries(es: seq<Entry>) {
    es == [] || (DatesSurvive(es[0].value) && DatesSurviveEntries(es[1..]))
  }

  predicate DateSurvives(t: TimeValue) {
    t >= -1000 || t % 1000 == 0
  }

  // ----- numbers of the source language -----

  /** The integral part, as bit operations take it. */
  function Trunc(x: real): int {
    if x >= 0.0 then x.Floor else -((-x).Floor)
  }

  function ToUint32(n: int): (r: int)
    ensures 0 <= r < POW32
  {
    n % POW32
  }

  function ToInt32(n: int): int {
    var u := ToUint32(n);
    if u >= 0x8000_0000 then u - POW32 else u
  }

  /** `~n` */
  function BitNot(n: int): int {
    -ToInt32(n) - 1
  }

  /** A number stored into a byte array. */
  function ToByte(n: int): Byte {
    n % 0x100
  }

  /** `[n >>> 8, n]` as bytes. */
  function Bytes2(n: int): seq<Byte> {
    [ToByte(ToUint32(n) / 0x100), ToByte(n)]
  }

  /** `[n >>> 24, n >>> 16, n >>> 8, n]` as bytes. */
  function Bytes4(n: int): seq<Byte> {
    [ToByte(ToUint32(n) / 0x100_0000), ToByte(ToUint32(n) / 0x1_0000), ToByte(ToUint32(n) / 0x100), ToByte(n)]
  }

  /** `appendInt64`: high and low word of the number, of its complement where it is negative. */
  function Int64Bytes(value: real): seq<Byte> {
    if value >= 0.0 then
      Bytes4(Trunc(value / POW32 as real)) + Bytes4(Trunc(RealMod(value, POW32)))
    else
      var v := value + 1.0;
      var a := if v < 0.0 then -v else v;
      Bytes4(BitNot(Trunc(a / POW32 as real))) + Bytes4(BitNot(Trunc(RealMod(a, POW32))))
  }

  /** `x % m` for x >= 0. */
  function RealMod(x: real, m: int): real
    requires m > 0
  {
    x - (m * (x / m as real).Floor) as real
  }

  // ----- bytes of values -----

  function IntBytes(n: SafeInt): seq<Byte> {
    if 0 <= n <= 0x7f then [ToByte(n)]
    else if -0x20 <= n < 0 then [ToByte(n)]
    else if 0 < n <= 0xff then [0xcc, ToByte(n)]
    else if -0x80 <= n <= 0x7f then [0xd0, ToByte(n)]
    else if 0 < n <= 0xffff then [0xcd] + Bytes2(n)
    else if -0x8000 <= n <= 0x7fff then [0xd1] + Bytes2(n)
    else if 0 < n <= 0xffff_ffff then [0xce] + Bytes4(n)
    else if -0x8000_0000 <= n <= 0x7fff_ffff then [0xd2] + Bytes4(n)
    else if n > 0 then
      [0xd3] + (Bytes4(Trunc(n as real / POW32 as real)) + Bytes4(n % POW32))
    else [0xd3] + Int64Bytes(n as real)
  }

  function TextBytes(s: Text): seq<Byte> {
    var r := Encode(s);
    if r.Ok? then r.value else []
  }

  function StrHead(length: nat): seq<Byte> {
    if length <= 0x1f then [0xa0 + length]
    else if length <= 0xff then [0xd9, length]
    else if length <= 0xffff then [0xda] + Bytes2(length)
    else [0xdb] + Bytes4(length)
  }

  function BinHead(length: nat): seq<Byte> {
    if length <= 0xf then [0xc4, length]
    else if length <= 0xffff then [0xc5] + Bytes2(length)
    else [0xc6] + Bytes4(length)
  }

  function ArrHead(length: nat): seq<Byte> {
    if length <= 0xf then [0x90 + length]
    else if length <= 0xffff then [0xdc] + Bytes2(length)
    else [0xdd] + Bytes4(length)
  }

  function ObjHead(length: nat): seq<Byte> {
    if length <= 0xf then [0x80 + length]
    else if length <= 0xffff then [0xde] + Bytes2(length)
    else [0xdf] + Bytes4(length)
  }

  function DateBytes(t: TimeValue): seq<Byte> {
    var sec := t as real / 1000.0;
    var millis := t % 1000;
    if millis == 0 && 0.0 <= sec < POW32 as real then [0xd6, 0xff] + Bytes4(Trunc(sec))
    else if 0.0 <= sec < 17_179_869_184.0 then
      var ns := millis * 1_000_000;
      [0xd7, 0xff] + Stamp8(ns, sec)
    else [0xc7, 12, 0xff] + Bytes4(millis * 1_000_000) + Int64Bytes(sec)
  }

  /** 30 bit nanoseconds and 34 bit seconds; the two lowest bits of the fourth byte are those of the seconds. */
  function Stamp8(ns: int, sec: real): seq<Byte>
    requires 0 <= ns < 0x4000_0000 && 0.0 <= sec < 17_179_869_184.0
  {
    [ToByte(ns / 0x40_0000), ToByte(ns / 0x4000), ToByte(ns / 0x40), ToByte(ns * 4 + Trunc(sec / POW32 as real))]
    + Bytes4(Trunc(sec))
  }

  function Ser(v: Value): (r: seq<Byte>)
    ensures |r| > 0
  {
    match v
    case Nil => [0xc0]
    case Bool(b) => [if b then 0xc3 else 0xc2]
    case Int(n) => IntBytes(n)
    case Str(s) => StrBytes(s)
    case Bin(bytes) => BinHead(|bytes|) + bytes
    case Arr(items) => ArrHead(|items|) + SerAll(items)
    case Obj(entries) => ObjHead(|entries|) + SerEntries(entries)
    case Date(t) => DateBytes(t)
  }

  function StrBytes(s: Text): seq<Byte> {
    StrHead(|TextBytes(s)|) + TextBytes(s)
  }

  function SerAll(vs: seq<Value>): seq<Byte> {
    if vs == [] then [] else Ser(vs[0]) + SerAll(vs[1..])
  }

  function SerEntries(es: seq<Entry>): seq<Byte> {
    if es == [] then [] else StrBytes(es[0].key) + Ser(es[0].value) + SerEntries(es[1..])
  }

  // ----- the parser -----

  /** Unmodelled stands for what the source reads without an error but this model has no value for: bytes
      missing at the end of the array, floats, integers that a double cannot hold, keys that are not strings. */
  datatype ReadError = EmptyInput | InvalidByte | InvalidText(error: Utf8Error) | InvalidDateLength | Unmodelled

  datatype Read<+T> = Got(value: T, pos: nat) | Error(error: ReadError)

  function BigEndian(s: seq<Byte>): (r: nat) {
    if s == [] then 0 else BigEndian(s[..|s| - 1]) * 0x100 + s[|s| - 1]
  }

  function ReadUInt(b: seq<Byte>, pos: nat, size: nat): Read<nat> {
    if pos + size > |b| then Error(Unmodelled) else Got(BigEndian(b[pos..pos + size]), pos + size)
  }

  /** Two's complement: the highest bit counts negative. */
  function Signed(s: seq<Byte>): int
    requires s != []
  {
    if |s| == 1 then s[0] % 0x80 - (if s[0] >= 0x80 then 0x80 else 0)
    else Signed(s[..|s| - 1]) * 0x100 + s[|s| - 1]
  }

  function ReadInt(b: seq<Byte>, pos: nat, size: nat): Read<int>
    requires size > 0
  {
    if pos + size > |b| then Error(Unmodelled) else Got(Signed(b[pos..pos + size]), pos + size)
  }

  function Number(r: Read<int>): Read<Value> {
    match r
    case Error(e) => Error(e)
    case Got(n, pos) =>
      if -0x20_0000_0000_0000 < n < 0x20_0000_0000_0000 then Got(Int(n), pos) else Error(Unmodelled)
  }

  function ReadBin(b: seq<Byte>, pos: nat, size: nat): Read<seq<Byte>> {
    if pos + size > |b| then Error(Unmodelled) else Got(b[pos..pos + size], pos + size)
  }

  function BinValue(r: Read<seq<Byte>>): Read<Value> {
    match r
    case Error(e) => Error(e)
    case Got(data, pos) => Got(Bin(data), pos)
  }

  function ReadStr(b: seq<Byte>, pos: nat, size: nat): Read<Value> {
    match Decode(b, pos, pos + size)
    case Ok(s) => if pos + size > |b| then Error(Unmodelled) else Got(Str(s), pos + size)
    case Err(e) => Error(InvalidText(e))
  }

  function NewDate(t: real, pos: nat): Read<Value> {
    var ms := Trunc(t);
    if -8_640_000_000_000_000 <= ms <= 8_640_000_000_000_000 then Got(Date(ms), pos) else Error(Unmodelled)
  }

  /** `readExtDate` on the payload that ends at pos. */
  function ReadDate(data: seq<Byte>, pos: nat): Read<Value> {
    if |data| == 4 then NewDate((BigEndian(data) * 1000) as real, pos)
    else if |data| == 8 then
      var ns := (data[0] as int) * 0x40_0000 + (data[1] as int) * 0x4000 + (data[2] as int) * 0x40 + data[3] / 4;
      var sec := (data[3] % 4) as int * POW32 + BigEndian(data[4..]);
      NewDate((sec * 1000) as real + ns as real / 1_000_000.0, pos)
    else if |data| == 12 then
      var ns := BigEndian(data[..4]);
      var sec := Signed(data[4..]);
      NewDate((sec * 1000) as real + ns as real / 1_000_000.0, pos)
    else Error(InvalidDateLength)
  }

  const TYPE: Text := [116, 121, 112, 101]
  const DATA: Text := [100, 97, 116, 97]

  function ReadExt(b: seq<Byte>, pos: nat, size: nat): Read<Value> {
    if pos + 1 + size > |b| then Error(Unmodelled)
    else
      var data := b[pos + 1..pos + 1 + size];
      if b[pos] == 255 then ReadDate(data, pos + 1 + size)
      else Got(Obj([Entry(TYPE, Int(b[pos])), Entry(DATA, Bin(data))]), pos + 1 + size)
  }

  /** What a tag byte announces: a finished value, or a size still to be read as a number of bytes. */
  datatype Tag =
    | Direct(v: Value)
    | Unsigned(size: nat)
    | Integer(size: nat)
    | Text(length: nat)
    | TextOf(lengthSize: nat)
    | Binary(lengthSize: nat)
    | Array(length: nat)
    | ArrayOf(lengthSize: nat)
    | Map(length: nat)
    | MapOf(lengthSize: nat)
    | Ext(length: nat)
    | ExtOf(lengthSize: nat)
    | Float
    | Unused

  /** The tags in the order of the source. */
  function TagOf(c: Byte): Tag {
    if c <= 0x7f then Direct(Int(c))
    else if c <= 0x8f then Map(c - 0x80)
    else if c <= 0x9f then Array(c - 0x90)
    else if c <= 0xbf then Text(c - 0xa0)
    else if c == 0xc0 then Direct(Nil)
    else if c == 0xc1 then Unused
    else if c == 0xc2 then Direct(Bool(false))
    else if c == 0xc3 then Direct(Bool(true))
    else if c == 0xc4 then Binary(1)
    else if c == 0xc5 then Binary(2)
    else if c == 0xc6 then Binary(4)
    else if c == 0xc7 then ExtOf(1)
    else if c == 0xc8 then ExtOf(2)
    else if c == 0xc9 then ExtOf(4)
    else if c <= 0xcb then Float
    else if c == 0xcc then Unsigned(1)
    else if c == 0xcd then Unsigned(2)
    else if c == 0xce then Unsigned(4)
    else if c == 0xcf then Unsigned(8)
    else if c == 0xd0 then Integer(1)
    else if c == 0xd1 then Integer(2)
    else if c == 0xd2 then Integer(4)
    else if c == 0xd3 then Integer(8)
    else if c == 0xd4 then Ext(1)
    else if c == 0xd5 then Ext(2)
    else if c == 0xd6 then Ext(4)
    else if c == 0xd7 then Ext(8)
    else if c == 0xd8 then Ext(16)
    else if c == 0xd9 then TextOf(1)
    else if c == 0xda then TextOf(2)
    else if c == 0xdb then TextOf(4)
    else if c == 0xdc then ArrayOf(2)
    else if c == 0xdd then ArrayOf(4)
    else if c == 0xde then MapOf(2)
    else if c == 0xdf then MapOf(4)
    else Direct(Int(c - 256))
  }

  /** The value that starts at pos. */
  function ReadValue(b: seq<Byte>, pos: nat): (r: Read<Value>)
    ensures r.Got? ==> pos < r.pos <= |b|
    decreases |b| - pos, 0
  {
    if pos >= |b| then Error(InvalidByte)
    else
      var p := pos + 1;
      match TagOf(b[pos])
      case Direct(v) => Got(v, p)
      case Unsigned(size) => Number(ReadUInt(b, p, size))
      case Integer(size) => if size == 0 then Error(InvalidByte) else Number(ReadInt(b, p, size))
      case Text(length) => ReadStr(b, p, length)
      case TextOf(n) => (match ReadUInt(b, p, n) case Error(e) => Error(e) case Got(size, q) => ReadStr(b, q, size))
      case Binary(n) => (match ReadUInt(b, p, n)
                         case Error(e) => Error(e)
                         case Got(size, q) => BinValue(ReadBin(b, q, size)))
      case Array(length) => ReadArray(b, p, length)
      case ArrayOf(n) => (match ReadUInt(b, p, n) case Error(e) => Error(e) case Got(size, q) => ReadArray(b, q, size))
      case Map(length) => ReadMap(b, p, length)
      case MapOf(n) => (match ReadUInt(b, p, n) case Error(e) => Error(e) case Got(size, q) => ReadMap(b, q, size))
      case Ext(length) => ReadExt(b, p, length)
      case ExtOf(n) => (match ReadUInt(b, p, n) case Error(e) => Error(e) case Got(size, q) => ReadExt(b, q, size))
      case Float => Error(Unmodelled)
      case Unused => Error(InvalidByte)
  }

  function ReadArray(b: seq<Byte>, pos: nat, n: nat): (r: Read<Value>)
    requires pos <= |b|
    ensures r.Got? ==> pos <= r.pos <= |b|
    decreases |b| - pos, 2
  {
    match ReadItems(b, pos, n)
    case Error(e) => Error(e)
    case Got(items, q) => Got(Arr(items), q)
  }

  function ReadItems(b: seq<Byte>, pos: nat, n: nat): (r: Read<seq<Value>>)
    requires pos <= |b|
    ensures r.Got? ==> pos <= r.pos <= |b|
    decreases |b| - pos, 1
  {
    if n == 0 then Got([], pos)
    else
      match ReadValue(b, pos)
      case Error(e) => Error(e)
      case Got(v, q) =>
        match ReadItems(b, q, n - 1)
        case Error(e) => Error(e)
        case Got(rest, r) => Got([v] + rest, r)
  }

  function ReadMap(b: seq<Byte>, pos: nat, n: nat): (r: Read<Value>)
    requires pos <= |b|
    ensures r.Got? ==> pos <= r.pos <= |b|
    decreases |b| - pos, 2
  {
    match ReadEntries(b, pos, n, [])
    case Error(e) => Error(e)
    case Got(entries, q) => Got(Obj(entries), q)
  }

  /** `data[key] = value` */
  function Assigned(es: seq<Entry>, key: Text, value: Value): seq<Entry> {
    if es == [] then [Entry(key, value)]
    else if es[0].key == key then [Entry(key, value)] + es[1..]
    else [es[0]] + Assigned(es[1..], key, value)
  }

  function ReadEntries(b: seq<Byte>, pos: nat, n: nat, data: seq<Entry>): (r: Read<seq<Entry>>)
    requires pos <= |b|
    ensures r.Got? ==> pos <= r.pos <= |b|
    decreases |b| - pos, 1
  {
    if n == 0 then Got(data, pos)
    else
      match ReadValue(b, pos)
      case Error(e) => Error(e)
      case Got(key, q) =>
        match ReadValue(b, q)
        case Error(e) => Error(e)
        case Got(v, r) => if !key.Str? then Error(Unmodelled) else ReadEntries(b, r, n - 1, Assigned(data, key.s, v))
  }

  /** The values of the whole array, from pos on. */
  function ReadAll(b: seq<Byte>, pos: nat): Read<seq<Value>>
    decreases |b| - pos
  {
    if pos >= |b| then Got([], pos)
    else
      match ReadValue(b, pos)
      case Error(e) => Error(e)
      case Got(v, q) =>
        match ReadAll(b, q)
        case Error(e) => Error(e)
        case Got(rest, r) => Got([v] + rest, r)
  }

  /** `deserialize(array, asList)`, with the one value as a list of length one where asList is false. */
  function Deserialized(b: seq<Byte>, asList: bool): Read<seq<Value>> {
    if b == [] then Error(EmptyInput)
    else if asList then ReadAll(b, 0)
    else
      match ReadValue(b, 0)
      case Error(e) => Error(e)
      case Got(v, q) => Got([v], q)
  }
}
