/** The serializer with its growing buffer and the deserializer with its cursor, proved against the
    functions of the format (opsiclientd_data/common/static_html/javascript/msgpack.js). */
module MsgPackCodec {
  import opened Common
  import opened MsgPack
  import opened Utf8

  class Serializer {
    var buffer: array<Byte>
    var length: nat

    ghost predicate Valid()
      reads this
    {
      length <= buffer.Length && buffer.Length > 0
    }

    ghost function Contents(): seq<Byte>
      requires Valid()
      reads this, buffer
    {
      buffer[..length]
    }

    constructor ()
      ensures Valid() && Contents() == [] && fresh(buffer)
    {
      buffer := new Byte[128](_ => 0);
      length := 0;
    }

    /** Makes room for `added` more bytes, doubling the buffer as often as needed. */
    method Reserve(added: nat)
      requires Valid()
      modifies this
      ensures Valid() && Contents() == old(Contents()) && length == old(length) && length + added <= buffer.Length
      ensures buffer == old(buffer) || fresh(buffer)
    {
      if buffer.Length < length + added {
        var newLength := buffer.Length * 2;
        while newLength < length + added
          invariant newLength > 0 && newLength >= buffer.Length
          decreases length + added - newLength
        {
          newLength := newLength * 2;
        }
        var newArray := new Byte[newLength](_ => 0);
        forall i | 0 <= i < buffer.Length {
          newArray[i] := buffer[i];
        }
        buffer := newArray;
      }
    }

    method AppendByte(byte: int)
      requires Valid()
      modifies this, buffer
      ensures Valid() && Contents() == old(Contents()) + [ToByte(byte)]
      ensures buffer == old(buffer) || fresh(buffer)
    {
      Reserve(1);
      buffer[length] := ToByte(byte);
      length := length + 1;
    }

    method AppendBytes(bytes: seq<Byte>)
      requires Valid()
      modifies this, buffer
      ensures Valid() && Contents() == old(Contents()) + bytes
      ensures buffer == old(buffer) || fresh(buffer)
    {
      Reserve(|bytes|);
      forall i | 0 <= i < |bytes| {
        buffer[length + i] := bytes[i];
      }
      length := length + |bytes|;
      assert buffer[..length] == old(Contents()) + bytes;
    }

    method AppendNumber(data: SafeInt)
      requires Valid()
      modifies this, buffer
      ensures Valid() && Contents() == old(Contents()) + IntBytes(data)
      ensures buffer == old(buffer) || fresh(buffer)
    {
      if data >= 0 && data <= 0x7f {
        AppendByte(data);
      } else if data < 0 && data >= -0x20 {
        AppendByte(data);
      } else if data > 0 && data <= 0xff {
        AppendBytes([0xcc, ToByte(data)]);
      } else if data >= -0x80 && data <= 0x7f {
        AppendBytes([0xd0, ToByte(data)]);
      } else if data > 0 && data <= 0xffff {
        AppendBytes([0xcd] + Bytes2(data));
      } else if data >= -0x8000 && data <= 0x7fff {
        AppendBytes([0xd1] + Bytes2(data));
      } else if data > 0 && data <= 0xffff_ffff {
        AppendBytes([0xce] + Bytes4(data));
      } else if data >= -0x8000_0000 && data <= 0x7fff_ffff {
        AppendBytes([0xd2] + Bytes4(data));
      } else if data > 0 {
        var hi, lo := data as real / POW32 as real, data % POW32;
        AppendBytes([0xd3] + (Bytes4(Trunc(hi)) + Bytes4(lo)));
      } else {
        ghost var start := Contents();
        AppendByte(0xd3);
        AppendInt64(data as real);
        assert start + [0xd3] + Int64Bytes(data as real) == start + ([0xd3] + Int64Bytes(data as real));
      }
    }

    method AppendInt64(value: real)
      requires Valid()
      modifies this, buffer
      ensures Valid() && Contents() == old(Contents()) + Int64Bytes(value)
      ensures buffer == old(buffer) || fresh(buffer)
    {
      var hi, lo;
      if value >= 0.0 {
        hi := Trunc(value / POW32 as real);
        lo := Trunc(RealMod(value, POW32));
      } else {
        var next := value + 1.0;
        var abs := if next < 0.0 then -next else next;
        hi := BitNot(Trunc(abs / POW32 as real));
        lo := BitNot(Trunc(RealMod(abs, POW32)));
      }
      AppendBytes(Bytes4(hi) + Bytes4(lo));
    }

    /** Fails where the string has an unpaired surrogate. */
    method AppendString(data: Text) returns (ok: bool)
      requires Valid()
      modifies this, buffer
      ensures Valid() && (buffer == old(buffer) || fresh(buffer))
      ensures ok == Encode(data).Ok?
      ensures ok ==> Contents() == old(Contents()) + StrBytes(data)
    {
      var encoded := EncodeUtf8(data);
      ok := encoded.Ok?;
      if ok {
        var bytes := encoded.value;
        var length := |bytes|;
        if length <= 0x1f {
          AppendByte(0xa0 + length);
        } else if length <= 0xff {
          AppendBytes([0xd9, length]);
        } else if length <= 0xffff {
          AppendBytes([0xda] + Bytes2(length));
        } else {
          AppendBytes([0xdb] + Bytes4(length));
        }
        AppendBytes(bytes);
        assert old(Contents()) + StrHead(length) + bytes == old(Contents()) + (StrHead(length) + bytes);
      }
    }

    method AppendBinArray(data: seq<Byte>)
      requires Valid()
      modifies this, buffer
      ensures Valid() && Contents() == old(Contents()) + (BinHead(|data|) + data)
      ensures buffer == old(buffer) || fresh(buffer)
    {
      var length := |data|;
      if length <= 0xf {
        AppendBytes([0xc4, length]);
      } else if length <= 0xffff {
        AppendBytes([0xc5] + Bytes2(length));
      } else {
        AppendBytes([0xc6] + Bytes4(length));
      }
      AppendBytes(data);
      assert old(Contents()) + BinHead(length) + data == old(Contents()) + (BinHead(length) + data);
    }

    method AppendDate(t: TimeValue)
      requires Valid()
      modifies this, buffer
      ensures Valid() && Contents() == old(Contents()) + DateBytes(t)
      ensures buffer == old(buffer) || fresh(buffer)
    {
      var sec := t as real / 1000.0;
      if t % 1000 == 0 && sec >= 0.0 && sec < POW32 as real {
        AppendBytes([0xd6, 0xff] + Bytes4(Trunc(sec)));
      } else if sec >= 0.0 && sec < 17_179_869_184.0 {
        var ns := t % 1000 * 1_000_000;
        AppendBytes([0xd7, 0xff] + Stamp8(ns, sec));
      } else {
        hide Int64Bytes, Bytes4;
        var ns := t % 1000 * 1_000_000;
        ghost var start := Contents();
        AppendBytes([0xc7, 12, 0xff] + Bytes4(ns));
        AppendInt64(sec);
        assert start + ([0xc7, 12, 0xff] + Bytes4(ns)) + Int64Bytes(sec) ==
          start + ([0xc7, 12, 0xff] + Bytes4(ns) + Int64Bytes(sec));
      }
    }

    method AppendArrayHead(length: nat)
      requires Valid()
      modifies this, buffer
      ensures Valid() && Contents() == old(Contents()) + ArrHead(length)
      ensures buffer == old(buffer) || fresh(buffer)
    {
      if length <= 0xf {
        AppendByte(0x90 + length);
      } else if length <= 0xffff {
        AppendBytes([0xdc] + Bytes2(length));
      } else {
        AppendBytes([0xdd] + Bytes4(length));
      }
    }

    method AppendObjectHead(length: nat)
      requires Valid()
      modifies this, buffer
      ensures Valid() && Contents() == old(Contents()) + ObjHead(length)
      ensures buffer == old(buffer) || fresh(buffer)
    {
      if length <= 0xf {
        AppendByte(0x80 + length);
      } else if length <= 0xffff {
        AppendBytes([0xde] + Bytes2(length));
      } else {
        AppendBytes([0xdf] + Bytes4(length));
      }
    }

    method Append(data: Value) returns (ok: bool)
      requires Valid()
      modifies this, buffer
      ensures Valid() && (buffer == old(buffer) || fresh(buffer))
      ensures ok == Writable(data)
      ensures ok ==> Contents() == old(Contents()) + Ser(data)
      decreases data, 1
    {
      ok := true;
      match data
      case Nil => AppendByte(0xc0);
      case Bool(b) => AppendByte(if b then 0xc3 else 0xc2);
      case Int(n) => AppendNumber(n);
      case Str(s) => ok := AppendString(s);
      case Bin(bytes) => AppendBinArray(bytes);
      case Arr(items) => ok := AppendArray(items);
      case Obj(entries) => ok := AppendObject(entries);
      case Date(t) => AppendDate(t);
    }

    method AppendArray(data: seq<Value>) returns (ok: bool)
      requires Valid()
      modifies this, buffer
      ensures Valid() && (buffer == old(buffer) || fresh(buffer))
      ensures ok == WritableAll(data)
      ensures ok ==> Contents() == old(Contents()) + (ArrHead(|data|) + SerAll(data))
      decreases data, 0
    {
      hide Ser, Writable, ArrHead;
      ghost var start := Contents();
      AppendArrayHead(|data|);
      ghost var head := Contents();
      var index := 0;
      while index < |data|
        invariant 0 <= index <= |data|
        invariant Valid() && (buffer == old(buffer) || fresh(buffer))
        invariant WritableAll(data) == WritableAll(data[index..])
        invariant head + SerAll(data) == Contents() + SerAll(data[index..])
      {
        ghost var before := Contents();
        ok := Append(data[index]);
        if !ok {
          return;
        }
        assert data[index..][1..] == data[index + 1..];
        assert before + (Ser(data[index]) + SerAll(data[index + 1..])) == Contents() + SerAll(data[index + 1..]);
        index := index + 1;
      }
      ok := true;
      assert Contents() + [] == Contents();
      assert start + ArrHead(|data|) + SerAll(data) == start + (ArrHead(|data|) + SerAll(data));
    }

    method AppendObject(data: seq<Entry>) returns (ok: bool)
      requires Valid()
      modifies this, buffer
      ensures Valid() && (buffer == old(buffer) || fresh(buffer))
      ensures ok == WritableEntries(data)
      ensures ok ==> Contents() == old(Contents()) + (ObjHead(|data|) + SerEntries(data))
      decreases data, 0
    {
      hide Ser, Writable, ObjHead, StrBytes, Encode;
      ghost var start := Contents();
      AppendObjectHead(|data|);
      ghost var head := Contents();
      var index := 0;
      while index < |data|
        invariant 0 <= index <= |data|
        invariant Valid() && (buffer == old(buffer) || fresh(buffer))
        invariant WritableEntries(data) == WritableEntries(data[index..])
        invariant head + SerEntries(data) == Contents() + SerEntries(data[index..])
      {
        ghost var before := Contents();
        assert data[index..][1..] == data[index + 1..];
        ok := AppendString(data[index].key);
        if !ok {
          return;
        }
        ok := Append(data[index].value);
        if !ok {
          return;
        }
        ghost var key, value, rest := StrBytes(data[index].key), Ser(data[index].value), SerEntries(data[index + 1..]);
        assert Contents() == before + key + value;
        assert before + (key + value + rest) == before + key + value + rest;
        index := index + 1;
      }
      ok := true;
      assert Contents() + [] == Contents();
      assert start + ObjHead(|data|) + SerEntries(data) == start + (ObjHead(|data|) + SerEntries(data));
    }
  }

  /** Serializes a value; fails exactly where some string in it has an unpaired surrogate. */
  method Serialize(data: Value) returns (r: Option<seq<Byte>>)
    ensures r.Some? <==> Writable(data)
    ensures r.Some? ==> r.value == Ser(data)
  {
    var s := new Serializer();
    var ok := s.Append(data);
    assert ok ==> s.Contents() == [] + Ser(data);
    r := if ok then Some(s.buffer[..s.length]) else None;
  }

  // ----- reading -----

  class Deserializer {
    const bytes: seq<Byte>
    var pos: nat

    constructor (bytes: seq<Byte>)
      ensures this.bytes == bytes && pos == 0
    {
      this.bytes := bytes;
      pos := 0;
    }

    /** The result r is what the parser gives at p, and the cursor stands behind it. */
    ghost predicate At<T>(r: Read<T>, parsed: Read<T>)
      reads this
    {
      r == parsed && (r.Got? ==> pos == r.pos)
    }

    method GetUInt(size: nat) returns (r: Read<nat>)
      modifies this`pos
      ensures At(r, ReadUInt(bytes, old(pos), size))
    {
      var value: nat := 0;
      var left := size;
      while left > 0
        invariant 0 <= left <= size && pos == old(pos) + (size - left)
        invariant pos <= |bytes| || left == size
        invariant pos <= |bytes| ==> value == BigEndian(bytes[old(pos)..pos])
        invariant left == size ==> value == 0
      {
        left := left - 1;
        if pos >= |bytes| {
          return Error(Unmodelled);
        }
        BigEndianStep(old(pos), pos);
        value := value * 256 + bytes[pos];
        pos := pos + 1;
      }
      r := if pos > |bytes| then Error(Unmodelled) else Got(value, pos);
    }

    lemma BigEndianStep(start: nat, p: nat)
      requires start <= p < |bytes|
      ensures BigEndian(bytes[start..p + 1]) == BigEndian(bytes[start..p]) * 256 + bytes[p]
    {
      assert bytes[start..p + 1][..p - start] == bytes[start..p];
    }

    method GetInt(size: nat) returns (r: Read<int>)
      requires size > 0
      modifies this`pos
      ensures At(r, ReadInt(bytes, old(pos), size))
    {
      var value: int := 0;
      var first := true;
      var left := size;
      while left > 0
        invariant 0 <= left <= size && pos == old(pos) + (size - left)
        invariant first == (left == size)
        invariant !first ==> pos <= |bytes| && value == Signed(bytes[old(pos)..pos])
        invariant first ==> value == 0
      {
        left := left - 1;
        if pos >= |bytes| {
          return Error(Unmodelled);
        }
        if first {
          var byte: int := bytes[pos];
          value := value + byte % 0x80;
          if byte >= 0x80 {
            value := value - 0x80;
          }
          first := false;
        } else {
          SignedStep(old(pos), pos);
          value := value * 256;
          value := value + bytes[pos];
        }
        pos := pos + 1;
      }
      r := Got(value, pos);
    }

    lemma SignedStep(start: nat, p: nat)
      requires start < p < |bytes|
      ensures Signed(bytes[start..p + 1]) == Signed(bytes[start..p]) * 256 + bytes[p]
    {
      assert bytes[start..p + 1][..p - start] == bytes[start..p];
    }

    method GetNumber(signed: bool, size: nat) returns (r: Read<Value>)
      requires size > 0
      modifies this`pos
      ensures At(r, Number(if signed then ReadInt(bytes, old(pos), size) else ReadUInt(bytes, old(pos), size)))
    {
      var n: Read<int>;
      if signed {
        n := GetInt(size);
      } else {
        var u := GetUInt(size);
        n := u;
      }
      r := Number(n);
    }

    method GetBin(size: nat) returns (r: Read<seq<Byte>>)
      modifies this`pos
      ensures At(r, ReadBin(bytes, old(pos), size))
    {
      if pos + size > |bytes| {
        return Error(Unmodelled);
      }
      r := Got(bytes[pos..pos + size], pos + size);
      pos := pos + size;
    }

    method GetStr(size: nat) returns (r: Read<Value>)
      modifies this`pos
      ensures At(r, ReadStr(bytes, old(pos), size))
    {
      var start := pos;
      pos := pos + size;
      var decoded := DecodeUtf8(bytes, start, size);
      match decoded
      case Err(e) => r := Error(InvalidText(e));
      case Ok(s) => r := if pos > |bytes| then Error(Unmodelled) else Got(Str(s), pos);
    }

    method GetExt(size: nat) returns (r: Read<Value>)
      modifies this`pos
      ensures At(r, ReadExt(bytes, old(pos), size))
    {
      if pos + 1 + size > |bytes| {
        return Error(Unmodelled);
      }
      var t := bytes[pos];
      pos := pos + 1;
      var data := GetBin(size);
      if t == 255 {
        r := ReadDate(data.value, pos);
      } else {
        r := Got(Obj([Entry(TYPE, Int(t)), Entry(DATA, Bin(data.value))]), pos);
      }
    }

    method GetItems(size: nat) returns (r: Read<seq<Value>>)
      requires pos <= |bytes|
      modifies this`pos
      ensures At(r, ReadItems(bytes, old(pos), size))
      decreases |bytes| - pos, 1
    {
      hide ReadValue;
      var data: seq<Value> := [];
      var left := size;
      AfterNil(ReadItems(bytes, pos, size));
      while left > 0
        invariant 0 <= left <= size && old(pos) <= pos <= |bytes|
        invariant ReadItems(bytes, old(pos), size) == After(data, ReadItems(bytes, pos, left))
      {
        AfterStep(data, pos, left);
        left := left - 1;
        var v := Get();
        if v.Error? {
          return Error(v.error);
        }
        data := data + [v.value];
      }
      r := Got(data, pos);
      assert data + [] == data;
    }

    lemma AfterStep(data: seq<Value>, p: nat, n: nat)
      requires p <= |bytes| && n > 0
      ensures match ReadValue(bytes, p)
        case Error(e) => ReadItems(bytes, p, n) == Error(e)
        case Got(v, q) => After(data, ReadItems(bytes, p, n)) == After(data + [v], ReadItems(bytes, q, n - 1))
    {
      hide ReadValue;
      match ReadValue(bytes, p)
      case Error(e) =>
      case Got(v, q) =>
        match ReadItems(bytes, q, n - 1)
        case Error(e) =>
        case Got(rest, r) => assert data + ([v] + rest) == data + [v] + rest;
    }

    method GetEntries(size: nat) returns (r: Read<seq<Entry>>)
      requires pos <= |bytes|
      modifies this`pos
      ensures At(r, ReadEntries(bytes, old(pos), size, []))
      decreases |bytes| - pos, 1
    {
      hide ReadValue;
      var data: seq<Entry> := [];
      var left := size;
      while left > 0
        invariant 0 <= left <= size && old(pos) <= pos <= |bytes|
        invariant ReadEntries(bytes, old(pos), size, []) == ReadEntries(bytes, pos, left, data)
      {
        left := left - 1;
        var key := Get();
        if key.Error? {
          return Error(key.error);
        }
        var v := Get();
        if v.Error? {
          return Error(v.error);
        }
        if !key.value.Str? {
          return Error(Unmodelled);
        }
        data := Assigned(data, key.value.s, v.value);
      }
      r := Got(data, pos);
    }

    method GetArray(size: nat) returns (r: Read<Value>)
      requires pos <= |bytes|
      modifies this`pos
      ensures At(r, ReadArray(bytes, old(pos), size))
      decreases |bytes| - pos, 2
    {
      hide ReadValue, ReadItems;
      var items := GetItems(size);
      match items
      case Error(e) => r := Error(e);
      case Got(data, p) => r := Got(Arr(data), p);
    }

    method GetMap(size: nat) returns (r: Read<Value>)
      requires pos <= |bytes|
      modifies this`pos
      ensures At(r, ReadMap(bytes, old(pos), size))
      decreases |bytes| - pos, 2
    {
      hide ReadValue, ReadEntries;
      var entries := GetEntries(size);
      match entries
      case Error(e) => r := Error(e);
      case Got(data, p) => r := Got(Obj(data), p);
    }

    /** Reads a size of lengthSize bytes. */
    method GetSize(lengthSize: nat) returns (r: Read<nat>)
      requires pos <= |bytes|
      modifies this`pos
      ensures At(r, ReadUInt(bytes, old(pos), lengthSize)) && (r.Got? ==> old(pos) <= pos <= |bytes|)
    {
      r := GetUInt(lengthSize);
    }

    method Get() returns (r: Read<Value>)
      modifies this`pos
      ensures At(r, ReadValue(bytes, old(pos)))
      decreases |bytes| - pos, 0
    {
      hide ReadArray, ReadMap, ReadExt, ReadStr, ReadBin, ReadUInt, ReadInt, Number, BinValue, TagOf;
      if pos >= |bytes| {
        return Error(InvalidByte);
      }
      var tag := TagOf(bytes[pos]);
      pos := pos + 1;
      match tag
      case Direct(v) => r := Got(v, pos);
      case Unsigned(size) =>
        TagSizes(bytes[pos - 1]);
        r := GetNumber(false, size);
      case Integer(size) =>
        TagSizes(bytes[pos - 1]);
        r := GetNumber(true, size);
      case Text(length) => r := GetStr(length);
      case TextOf(n) =>
        var size := GetSize(n);
        match size { case Error(e) => r := Error(e); case Got(length, _) => r := GetStr(length); }
      case Binary(n) =>
        var size := GetSize(n);
        match size { case Error(e) => r := Error(e); case Got(length, _) => r := GetBinValue(length); }
      case Array(length) => r := GetArray(length);
      case ArrayOf(n) =>
        var size := GetSize(n);
        match size { case Error(e) => r := Error(e); case Got(length, _) => r := GetArray(length); }
      case Map(length) => r := GetMap(length);
      case MapOf(n) =>
        var size := GetSize(n);
        match size { case Error(e) => r := Error(e); case Got(length, _) => r := GetMap(length); }
      case Ext(length) => r := GetExt(length);
      case ExtOf(n) =>
        var size := GetSize(n);
        match size { case Error(e) => r := Error(e); case Got(length, _) => r := GetExt(length); }
      case Float => r := Error(Unmodelled);
      case Unused => r := Error(InvalidByte);
    }

    method GetBinValue(size: nat) returns (r: Read<Value>)
      modifies this`pos
      ensures At(r, BinValue(ReadBin(bytes, old(pos), size)))
    {
      var data := GetBin(size);
      r := BinValue(data);
    }

    static lemma TagSizes(c: Byte)
      ensures TagOf(c).Unsigned? || TagOf(c).Integer? ==> TagOf(c).size > 0
    {
    }
  }

  /** The values read so far, followed by what the rest of the array gives. */
  ghost function After(data: seq<Value>, r: Read<seq<Value>>): Read<seq<Value>> {
    match r
    case Error(e) => Error(e)
    case Got(rest, p) => Got(data + rest, p)
  }

  lemma AfterNil(r: Read<seq<Value>>)
    ensures After([], r) == r
  {
    match r
    case Error(e) =>
    case Got(rest, p) => assert [] + rest == rest;
  }

  method Deserialize(bytes: seq<Byte>, asList: bool) returns (r: Read<seq<Value>>)
    ensures r == Deserialized(bytes, asList)
  {
    hide ReadValue;
    if bytes == [] {
      return Error(EmptyInput);
    }
    var d := new Deserializer(bytes);
    var data: seq<Value> := [];
    var lastPos := -1;
    AfterNil(ReadAll(bytes, 0));
    while d.pos < |bytes| && d.pos != lastPos
      invariant d.bytes == bytes && lastPos < d.pos <= |bytes|
      invariant ReadAll(bytes, 0) == After(data, ReadAll(bytes, d.pos))
      invariant !asList ==> d.pos == 0 && data == []
      decreases |bytes| - d.pos
    {
      lastPos := d.pos;
      AllAfterStep(bytes, data, d.pos);
      var v := d.Get();
      if v.Error? {
        return Error(v.error);
      }
      data := data + [v.value];
      if !asList {
        return Got([data[0]], d.pos);
      }
    }
    r := Got(data, d.pos);
    assert data + [] == data;
  }

  lemma AllAfterStep(bytes: seq<Byte>, data: seq<Value>, p: nat)
    requires p < |bytes|
    ensures match ReadValue(bytes, p)
      case Error(e) => ReadAll(bytes, p) == Error(e)
      case Got(v, q) => After(data, ReadAll(bytes, p)) == After(data + [v], ReadAll(bytes, q))
  {
    hide ReadValue;
    match ReadValue(bytes, p)
    case Error(e) =>
    case Got(v, q) =>
      match ReadAll(bytes, q)
      case Error(e) =>
      case Got(rest, r) => assert data + ([v] + rest) == data + [v] + rest;
  }
}
