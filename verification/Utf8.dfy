/** UTF-8 encoding and decoding of UTF-16 strings
    (opsiclientd_data/common/static_html/javascript/msgpack.js). Masks and shifts are written as remainders
    and quotients; the bits joined by `|` never overlap, so joining is addition. */
module Utf8 {
  import opened Common

  /** A UTF-16 code unit, the element of a string. */
  type Unit = n: int | 0 <= n < 0x1_0000
  type Text = seq<Unit>

  datatype Utf8Error = IncompleteSurrogatePair | SurrogateOutOfRange | IncompleteSequence | UnknownStart | BeyondUtf16

  datatype Result<+T> = Ok(value: T) | Err(error: Utf8Error)

  predicate IsHigh(c: Unit) { 0xd7ff < c < 0xdc00 }

  predicate IsLow(c: Unit) { 0xdc00 <= c <= 0xdfff }

  /** Every high surrogate is followed by a low one. */
  ghost predicate WellPaired(s: Text) {
    forall i :: 0 <= i < |s| && IsHigh(s[i]) ==> i + 1 < |s| && IsLow(s[i + 1])
  }

  // ----- encoding -----

  function CodePoint(c: Unit, c2: Unit): int {
    0x10000 + (c % 0x400) * 0x400 + c2 % 0x400
  }

  /** Bytes of a code point above 127, and of a code unit outside the surrogate pairs. */
  function CodeBytes(c: int): (r: seq<Byte>)
    requires 0 <= c < 0x11_0000
    ensures 1 <= |r| <= 4 && (c < 0x1_0000 ==> |r| <= 3) && (c < 128 <==> |r| == 1)
  {
    if c < 128 then [c]
    else if c < 0x800 then [c / 0x40 + 192, c % 0x40 + 128]
    else if c < 0x1_0000 then [c / 0x1000 + 224, c / 0x40 % 0x40 + 128, c % 0x40 + 128]
    else [c / 0x4_0000 + 240, c / 0x1000 % 0x40 + 128, c / 0x40 % 0x40 + 128, c % 0x40 + 128]
  }

  function Encode(s: Text): Result<seq<Byte>> {
    if s == [] then Ok([])
    else if IsHigh(s[0]) then
      if |s| < 2 then Err(IncompleteSurrogatePair)
      else if !IsLow(s[1]) then Err(SurrogateOutOfRange)
      else Prefixed(CodeBytes(CodePoint(s[0], s[1])), Encode(s[2..]))
    else Prefixed(CodeBytes(s[0]), Encode(s[1..]))
  }

  function Prefixed(bytes: seq<Byte>, rest: Result<seq<Byte>>): Result<seq<Byte>> {
    if rest.Ok? then Ok(bytes + rest.value) else rest
  }

  /** A string can be encoded exactly when its surrogates are paired. */
  lemma {:induction false} EncodeOkIffWellPaired(s: Text)
    ensures Encode(s).Ok? <==> WellPaired(s)
  {
    if s != [] {
      var n := if IsHigh(s[0]) then 2 else 1;
      if n <= |s| {
        EncodeOkIffWellPaired(s[n..]);
        assert forall i :: 0 <= i < |s[n..]| ==> s[n..][i] == s[i + n];
        if WellPaired(s) {
          assert WellPaired(s[n..]);
        } else {
          var i :| 0 <= i < |s| && IsHigh(s[i]) && !(i + 1 < |s| && IsLow(s[i + 1]));
          if i >= n {
            assert s[n..][i - n] == s[i];
          }
        }
      }
    }
  }

  /** Size of the encoding: 4 bytes a unit always suffice, one byte a unit where all are 7 bit. */
  lemma {:induction false} EncodeSize(s: Text)
    ensures Encode(s).Ok? ==> |Encode(s).value| <= 4 * |s|
    ensures Encode(s).Ok? && (forall i :: 0 <= i < |s| ==> s[i] <= 127) ==> |Encode(s).value| == |s|
  {
    if s != [] {
      var n := if IsHigh(s[0]) then 2 else 1;
      if n <= |s| {
        EncodeSize(s[n..]);
      }
    }
  }

  // ----- decoding -----

  /** A byte of the array, 0 behind its end, as masking an undefined value gives. */
  function Masked(b: seq<Byte>, i: nat): Byte {
    if i < |b| then b[i] else 0
  }

  datatype Decoded = Code(c: int, next: nat) | Failed(error: Utf8Error)

  /** The code point that starts at i, for a string that ends at `end`. */
  function DecodeOne(b: seq<Byte>, i: nat, end: nat): (r: Decoded)
    requires i < end
    ensures r.Code? ==> i < r.next <= end && 0 <= r.c < 0x20_0000
  {
    if i >= |b| then Failed(BeyondUtf16)
    else
      var c := b[i];
      if c <= 127 then Code(c, i + 1)
      else if 191 < c < 224 then
        if i + 1 >= end then Failed(IncompleteSequence)
        else Code(c % 32 * 0x40 + Masked(b, i + 1) % 0x40, i + 2)
      else if 223 < c < 240 then
        if i + 2 >= end then Failed(IncompleteSequence)
        else Code(c % 16 * 0x1000 + Masked(b, i + 1) % 0x40 * 0x40 + Masked(b, i + 2) % 0x40, i + 3)
      else if 239 < c < 248 then
        if i + 3 >= end then Failed(IncompleteSequence)
        else Code(c % 8 * 0x4_0000 + Masked(b, i + 1) % 0x40 * 0x1000 + Masked(b, i + 2) % 0x40 * 0x40
                  + Masked(b, i + 3) % 0x40, i + 4)
      else Failed(UnknownStart)
  }

  /** Code units of a code point. */
  function CodeUnits(c: int): Text
    requires 0 <= c < 0x11_0000
  {
    if c <= 0xffff then [c] else [(c - 0x1_0000) / 0x400 + 0xd800, (c - 0x1_0000) % 0x400 + 0xdc00]
  }

  /** The string encoded in b from i to `end`. */
  function Decode(b: seq<Byte>, i: nat, end: nat): Result<Text>
    decreases end - i
  {
    if i >= end then Ok([])
    else
      match DecodeOne(b, i, end)
      case Failed(e) => Err(e)
      case Code(c, next) =>
        if c >= 0x11_0000 then Err(BeyondUtf16)
        else
          var rest := Decode(b, next, end);
          if rest.Ok? then Ok(CodeUnits(c) + rest.value) else rest
  }

  // ----- round trip -----

  /** The bytes s stand in b at position i. */
  predicate Occurs(s: seq<Byte>, b: seq<Byte>, i: nat) {
    i + |s| <= |b| && b[i..i + |s|] == s
  }

  lemma OccursSplit(s: seq<Byte>, t: seq<Byte>, b: seq<Byte>, i: nat)
    requires Occurs(s + t, b, i)
    ensures Occurs(s, b, i) && Occurs(t, b, i + |s|)
  {
    var u := s + t;
    assert b[i..i + |s|] == b[i..i + |u|][..|s|] == s;
    assert b[i + |s|..i + |u|] == b[i..i + |u|][|s|..] == t;
  }

  lemma OccursAt(s: seq<Byte>, b: seq<Byte>, i: nat, k: nat)
    requires Occurs(s, b, i) && k < |s|
    ensures b[i + k] == s[k]
  {
    assert b[i..i + |s|][k] == b[i + k];
  }

  lemma DecodeCode2(c: int, b: seq<Byte>, i: nat, end: nat)
    requires 128 <= c < 0x800 && Occurs(CodeBytes(c), b, i) && i + 2 <= end
    ensures DecodeOne(b, i, end) == Code(c, i + 2)
  {
    OccursAt(CodeBytes(c), b, i, 0);
    OccursAt(CodeBytes(c), b, i, 1);
    assert (c / 0x40 + 192) % 32 == c / 0x40;
  }

  lemma DecodeCode3(c: int, b: seq<Byte>, i: nat, end: nat)
    requires 0x800 <= c < 0x1_0000 && Occurs(CodeBytes(c), b, i) && i + 3 <= end
    ensures DecodeOne(b, i, end) == Code(c, i + 3)
  {
    OccursAt(CodeBytes(c), b, i, 0);
    OccursAt(CodeBytes(c), b, i, 1);
    OccursAt(CodeBytes(c), b, i, 2);
    assert (c / 0x1000 + 224) % 16 == c / 0x1000;
    ThreeParts(c);
  }

  lemma DecodeCode4(c: int, b: seq<Byte>, i: nat, end: nat)
    requires 0x1_0000 <= c < 0x11_0000 && Occurs(CodeBytes(c), b, i) && i + 4 <= end
    ensures DecodeOne(b, i, end) == Code(c, i + 4)
  {
    OccursAt(CodeBytes(c), b, i, 0);
    OccursAt(CodeBytes(c), b, i, 1);
    OccursAt(CodeBytes(c), b, i, 2);
    OccursAt(CodeBytes(c), b, i, 3);
    assert (c / 0x4_0000 + 240) % 8 == c / 0x4_0000;
    FourParts(c);
  }

  lemma DecodeCode(c: int, b: seq<Byte>, i: nat, end: nat)
    requires 0 <= c < 0x11_0000 && Occurs(CodeBytes(c), b, i) && i + |CodeBytes(c)| <= end
    ensures DecodeOne(b, i, end) == Code(c, i + |CodeBytes(c)|)
  {
    if c < 128 {
      OccursAt(CodeBytes(c), b, i, 0);
    } else {
      hide DecodeOne, Occurs;
      if c < 0x800 {
        DecodeCode2(c, b, i, end);
      } else if c < 0x1_0000 {
        DecodeCode3(c, b, i, end);
      } else {
        DecodeCode4(c, b, i, end);
      }
    }
  }

  lemma ThreeParts(c: int)
    requires 0 <= c
    ensures c == c / 0x1000 * 0x1000 + c / 0x40 % 0x40 * 0x40 + c % 0x40
  {
  }

  lemma FourParts(c: int)
    requires 0 <= c
    ensures c == c / 0x4_0000 * 0x4_0000 + c / 0x1000 % 0x40 * 0x1000 + c / 0x40 % 0x40 * 0x40 + c % 0x40
  {
    ThreeParts(c);
    assert c / 0x1000 == c / 0x4_0000 * 0x40 + c / 0x1000 % 0x40;
  }

  lemma PairUnits(c: Unit, c2: Unit)
    requires IsHigh(c) && IsLow(c2)
    ensures 0x1_0000 <= CodePoint(c, c2) < 0x11_0000 && CodeUnits(CodePoint(c, c2)) == [c, c2]
  {
    var hi, lo := c - 0xd800, c2 - 0xdc00;
    assert c % 0x400 == hi && c2 % 0x400 == lo;
    assert (hi * 0x400 + lo) / 0x400 == hi && (hi * 0x400 + lo) % 0x400 == lo;
  }

  /** Number of units the encoder takes at the start of s. */
  function FirstUnits(s: Text): nat
    requires s != []
  {
    if IsHigh(s[0]) then 2 else 1
  }

  function FirstCode(s: Text): (c: int)
    requires s != [] && FirstUnits(s) <= |s|
    ensures 0 <= c < 0x11_0000
  {
    if IsHigh(s[0]) then CodePoint(s[0], s[1]) else s[0]
  }

  lemma EncodeStep(s: Text)
    requires s != [] && FirstUnits(s) <= |s| && (IsHigh(s[0]) ==> IsLow(s[1]))
    ensures Encode(s) == Prefixed(CodeBytes(FirstCode(s)), Encode(s[FirstUnits(s)..]))
  {
  }

  lemma UnitsStep(s: Text)
    requires s != [] && FirstUnits(s) <= |s| && (IsHigh(s[0]) ==> IsLow(s[1]))
    ensures CodeUnits(FirstCode(s)) + s[FirstUnits(s)..] == s
  {
    if IsHigh(s[0]) {
      PairUnits(s[0], s[1]);
    }
  }

  lemma DecodeStep(c: int, b: seq<Byte>, i: nat, end: nat)
    requires 0 <= c < 0x11_0000 && Occurs(CodeBytes(c), b, i) && i + |CodeBytes(c)| <= end
    ensures Decode(b, i, end) == Continued(CodeUnits(c), Decode(b, i + |CodeBytes(c)|, end))
  {
    DecodeCode(c, b, i, end);
  }

  ghost function Continued(s: Text, rest: Result<Text>): Result<Text> {
    if rest.Ok? then Ok(s + rest.value) else rest
  }

  lemma EncodedHead(s: Text, b: seq<Byte>, i: nat)
    requires s != [] && Encode(s).Ok? && Occurs(Encode(s).value, b, i)
    ensures FirstUnits(s) <= |s| && (IsHigh(s[0]) ==> IsLow(s[1])) && Encode(s[FirstUnits(s)..]).Ok?
    ensures Occurs(CodeBytes(FirstCode(s)), b, i)
    ensures Occurs(Encode(s[FirstUnits(s)..]).value, b, i + |CodeBytes(FirstCode(s))|)
    ensures |Encode(s).value| == |CodeBytes(FirstCode(s))| + |Encode(s[FirstUnits(s)..]).value|
  {
    hide CodeBytes, Occurs;
    EncodeStep(s);
    OccursSplit(CodeBytes(FirstCode(s)), Encode(s[FirstUnits(s)..]).value, b, i);
  }

  lemma DecodeHead(s: Text, b: seq<Byte>, i: nat, end: nat)
    requires s != [] && Encode(s).Ok? && Occurs(Encode(s).value, b, i) && end == i + |Encode(s).value|
    requires FirstUnits(s) <= |s|
    ensures Decode(b, i, end) == Continued(CodeUnits(FirstCode(s)), Decode(b, i + |CodeBytes(FirstCode(s))|, end))
  {
    hide Encode, Decode, DecodeOne, Occurs, CodeBytes, CodeUnits;
    EncodedHead(s, b, i);
    DecodeStep(FirstCode(s), b, i, end);
  }

  /** One step of decoding an encoded string: n units u of s are read from h bytes. */
  lemma FirstStep(s: Text, b: seq<Byte>, i: nat, end: nat) returns (u: Text, n: nat, h: nat)
    requires s != [] && Encode(s).Ok? && Occurs(Encode(s).value, b, i) && end == i + |Encode(s).value|
    ensures 0 < n <= |s| && u + s[n..] == s && Encode(s[n..]).Ok?
    ensures |Encode(s).value| == h + |Encode(s[n..]).value| && Occurs(Encode(s[n..]).value, b, i + h)
    ensures Decode(b, i, end) == Continued(u, Decode(b, i + h, end))
  {
    hide Encode, Decode, DecodeOne, Occurs, CodeBytes, CodeUnits;
    EncodedHead(s, b, i);
    DecodeHead(s, b, i, end);
    n, u, h := FirstUnits(s), CodeUnits(FirstCode(s)), |CodeBytes(FirstCode(s))|;
    UnitsStep(s);
  }

  /** Decoding undoes encoding, wherever the encoded bytes stand. */
  lemma {:induction false} DecodeEncode(s: Text, b: seq<Byte>, i: nat)
    requires Encode(s).Ok? && Occurs(Encode(s).value, b, i)
    ensures Decode(b, i, i + |Encode(s).value|) == Ok(s)
    decreases |s|
  {
    hide DecodeOne, Occurs, CodeBytes, CodeUnits;
    if s != [] {
      var u, n, h := FirstStep(s, b, i, i + |Encode(s).value|);
      DecodeEncode(s[n..], b, i + h);
      assert i + h + |Encode(s[n..]).value| == i + |Encode(s).value|;
    }
  }

  // ----- the loops of the source -----

  lemma PrefixedNil(r: Result<seq<Byte>>)
    ensures Prefixed([], r) == r
  {
    if r.Ok? {
      assert [] + r.value == r.value;
    }
  }

  lemma ContinuedNil(r: Result<Text>)
    ensures Continued([], r) == r
  {
    if r.Ok? {
      assert [] + r.value == r.value;
    }
  }

  lemma PrefixedTwice(a: seq<Byte>, b: seq<Byte>, rest: Result<seq<Byte>>)
    ensures Prefixed(a, Prefixed(b, rest)) == Prefixed(a + b, rest)
  {
    if rest.Ok? {
      assert a + (b + rest.value) == (a + b) + rest.value;
    }
  }

  lemma ContinuedTwice(a: Text, b: Text, rest: Result<Text>)
    ensures Continued(a, Continued(b, rest)) == Continued(a + b, rest)
  {
    if rest.Ok? {
      assert a + (b + rest.value) == (a + b) + rest.value;
    }
  }

  /** Writes the bytes of one code point at position i and returns the position behind them. */
  method PutCode(bytes: array<Byte>, i: nat, c: int) returns (next: nat)
    requires 0 <= c < 0x11_0000 && i + |CodeBytes(c)| <= bytes.Length
    modifies bytes
    ensures next == i + |CodeBytes(c)| && bytes[..next] == old(bytes[..i]) + CodeBytes(c)
  {
    next := i;
    if c < 128 {
      bytes[next] := c;
      return next + 1;
    }
    if c < 2048 {
      bytes[next] := c / 0x40 + 192;
      next := next + 1;
    } else {
      if c >= 0x1_0000 {
        bytes[next], bytes[next + 1] := c / 0x4_0000 + 240, c / 0x1000 % 0x40 + 128;
        next := next + 2;
      } else {
        bytes[next] := c / 0x1000 + 224;
        next := next + 1;
      }
      bytes[next] := c / 0x40 % 0x40 + 128;
      next := next + 1;
    }
    bytes[next] := c % 0x40 + 128;
    next := next + 1;
  }

  method EncodeUtf8(str: Text) returns (r: Result<seq<Byte>>)
    ensures r == Encode(str)
  {
    var ascii, length := true, |str|;
    var x := 0;
    while x < length
      invariant 0 <= x <= length && ascii && forall k :: 0 <= k < x ==> str[k] <= 127
    {
      if str[x] > 127 {
        ascii := false;
        break;
      }
      x := x + 1;
    }
    var bytes := new Byte[length * (if ascii then 1 else 4)](_ => 0);
    var i, ci := 0, 0;
    assert str[0..] == str && bytes[..0] == [];
    PrefixedNil(Encode(str));
    while ci < length
      invariant 0 <= ci <= length && 0 <= i <= bytes.Length
      invariant if ascii then i == ci else i <= 4 * ci
      invariant ascii ==> forall k :: 0 <= k < length ==> str[k] <= 127
      invariant Encode(str) == Prefixed(bytes[..i], Encode(str[ci..]))
      decreases length - ci
    {
      var c: int := str[ci];
      ghost var was, rest := bytes[..i], str[ci..];
      if c > 0xd7ff && c < 0xdc00 {
        ci := ci + 1;
        if ci >= length {
          return Err(IncompleteSurrogatePair);
        }
        var c2 := str[ci];
        if c2 < 0xdc00 || c2 > 0xdfff {
          return Err(SurrogateOutOfRange);
        }
        PairUnits(str[ci - 1], c2);
        c := 0x10000 + (c % 0x400) * 0x400 + c2 % 0x400;
      }
      i := PutCode(bytes, i, c);
      ci := ci + 1;
      assert rest[FirstUnits(rest)..] == str[ci..];
      EncodeStep(rest);
      PrefixedTwice(was, CodeBytes(c), Encode(str[ci..]));
    }
    r := Ok(bytes[..i]);
    assert bytes[..i] + [] == bytes[..i];
  }

  /** Reads the code point that starts at i. */
  method ReadCode(bytes: seq<Byte>, start: nat, length: nat) returns (r: Decoded)
    requires start < length
    ensures r == DecodeOne(bytes, start, length)
  {
    var i := start;
    if i >= |bytes| {
      return Failed(BeyondUtf16);
    }
    var c: int := bytes[i];
    i := i + 1;
    if c > 127 {
      if c > 191 && c < 224 {
        if i >= length {
          return Failed(IncompleteSequence);
        }
        c := c % 32 * 0x40 + Masked(bytes, i) % 0x40;
        i := i + 1;
      } else if c > 223 && c < 240 {
        if i + 1 >= length {
          return Failed(IncompleteSequence);
        }
        c := c % 16 * 0x1000 + Masked(bytes, i) % 0x40 * 0x40 + Masked(bytes, i + 1) % 0x40;
        i := i + 2;
      } else if c > 239 && c < 248 {
        if i + 2 >= length {
          return Failed(IncompleteSequence);
        }
        c := c % 8 * 0x4_0000 + Masked(bytes, i) % 0x40 * 0x1000 + Masked(bytes, i + 1) % 0x40 * 0x40
             + Masked(bytes, i + 2) % 0x40;
        i := i + 3;
      } else {
        return Failed(UnknownStart);
      }
    }
    r := Code(c, i);
  }

  method DecodeUtf8(bytes: seq<Byte>, start: nat, size: nat) returns (r: Result<Text>)
    ensures r == Decode(bytes, start, start + size)
  {
    var i := start;
    var str: Text := [];
    var length := size + start;
    ContinuedNil(Decode(bytes, i, length));
    while i < length
      invariant start <= i <= length
      invariant Decode(bytes, start, length) == Continued(str, Decode(bytes, i, length))
      decreases length - i
    {
      var read := ReadCode(bytes, i, length);
      if read.Failed? {
        return Err(read.error);
      }
      var c := read.c;
      if c > 0x10ffff {
        return Err(BeyondUtf16);
      }
      ContinuedTwice(str, CodeUnits(c), Decode(bytes, read.next, length));
      assert Decode(bytes, i, length) == Continued(CodeUnits(c), Decode(bytes, read.next, length));
      i := read.next;
      if c <= 0xffff {
        str := str + [c];
      } else {
        c := c - 0x10000;
        str := str + [c / 0x400 + 0xd800, c % 0x400 + 0xdc00];
      }
    }
    r := Ok(str);
    assert str + [] == str;
  }
}
