/** Cutting the byte stream of a notification client into messages (opsiclientd/notification_server.py). */
module Framing {
  import opened Common

  type Bytes = seq<Byte>

  const CRLF: Bytes := [13, 10]

  /** `b"\1e"` is the byte 1 followed by the letter e. */
  const ONE_E: Bytes := [1, 101]

  predicate SeparatorAt(s: Bytes, i: nat, sep: Bytes) {
    i + 2 <= |s| && |sep| == 2 && s[i] == sep[0] && s[i + 1] == sep[1]
  }

  predicate Contains(s: Bytes, sep: Bytes) {
    exists i: nat :: i < |s| && SeparatorAt(s, i, sep)
  }

  /** The first place where the separator occurs. */
  function Find(s: Bytes, sep: Bytes, from: nat): (r: Option<nat>)
    requires from <= |s|
    ensures r.Some? ==> from <= r.value && SeparatorAt(s, r.value, sep)
    ensures r.Some? ==> forall i: nat :: from <= i < r.value ==> !SeparatorAt(s, i, sep)
    ensures r.None? ==> forall i: nat :: from <= i ==> !SeparatorAt(s, i, sep)
    decreases |s| - from
  {
    if from == |s| then None
    else if SeparatorAt(s, from, sep) then Some(from)
    else Find(s, sep, from + 1)
  }

  /** Where the buffer is cut next: at the first CRLF, or else at the first other separator. */
  function NextCut(s: Bytes): (r: Option<nat>)
    ensures r.Some? ==> r.value + 2 <= |s|
  {
    var c := Find(s, CRLF, 0);
    if c.Some? then c else Find(s, ONE_E, 0)
  }

  datatype Drained = Drained(messages: seq<Bytes>, left: Bytes)

  function Drain(s: Bytes): Drained
    decreases |s|
  {
    var cut := NextCut(s);
    if cut.None? then Drained([], s)
    else
      var d := Drain(s[cut.value + 2..]);
      Drained([s[..cut.value]] + d.messages, d.left)
  }

  function Concat(chunks: seq<Bytes>): Bytes {
    if chunks == [] then [] else chunks[0] + Concat(chunks[1..])
  }

  /** The messages and the leftover after the chunks arrived one by one. */
  function Feed(buffer: Bytes, chunks: seq<Bytes>): Drained
    decreases |chunks|
  {
    if chunks == [] then Drained([], buffer)
    else
      var d := Drain(buffer + chunks[0]);
      var rest := Feed(d.left, chunks[1..]);
      Drained(d.messages + rest.messages, rest.left)
  }

  lemma DrainCut(s: Bytes, cut: nat)
    requires NextCut(s) == Some(cut)
    ensures Drain(s) == Drained([s[..cut]] + Drain(s[cut + 2..]).messages, Drain(s[cut + 2..]).left)
  {
  }

  lemma DrainNone(s: Bytes)
    requires NextCut(s).None?
    ensures Drain(s) == Drained([], s)
  {
  }

  // ----- what is left -----

  lemma {:induction false} LeftoverHasNoSeparator(s: Bytes)
    ensures !Contains(Drain(s).left, CRLF) && !Contains(Drain(s).left, ONE_E)
    decreases |s|
  {
    var cut := NextCut(s);
    if cut.Some? {
      LeftoverHasNoSeparator(s[cut.value + 2..]);
    }
  }

  lemma {:induction false} LeftoverIsSuffix(s: Bytes) returns (k: nat)
    ensures k <= |s| && Drain(s).left == s[k..]
    decreases |s|
  {
    var cut := NextCut(s);
    if cut.None? {
      k := 0;
    } else {
      var i := LeftoverIsSuffix(s[cut.value + 2..]);
      k := cut.value + 2 + i;
      assert s[cut.value + 2..][i..] == s[k..];
    }
  }

  // ----- nothing is lost -----

  /** The two bytes stand side by side somewhere in s. */
  ghost predicate HasPair(s: Bytes, x: int, y: int) {
    exists i :: 0 <= i < |s| - 1 && s[i] == x && s[i + 1] == y
  }

  /** The messages, each with the separator that ended it. */
  function Rejoined(messages: seq<Bytes>, separators: seq<Bytes>): Bytes
    requires |messages| == |separators|
  {
    if messages == [] then [] else messages[0] + separators[0] + Rejoined(messages[1..], separators[1..])
  }

  /** A message that a CRLF ended holds none; one that the other separator ended holds neither, and from there
      on all messages are such ones. */
  ghost predicate CutRight(messages: seq<Bytes>, separators: seq<Bytes>)
    requires |messages| == |separators|
  {
    forall i :: 0 <= i < |messages| ==>
      && !HasPair(messages[i], 13, 10)
      && (separators[i] == [13, 10] || (separators[i] == [1, 101] && !HasPair(messages[i], 1, 101)))
      && (separators[i] == [1, 101] ==> forall j :: i < j < |messages| ==> separators[j] == [1, 101])
  }

  lemma ContainsIff(s: Bytes)
    ensures Contains(s, CRLF) <==> HasPair(s, 13, 10)
    ensures Contains(s, ONE_E) <==> HasPair(s, 1, 101)
  {
    if HasPair(s, 13, 10) {
      var i :| 0 <= i < |s| - 1 && s[i] == 13 && s[i + 1] == 10;
      assert SeparatorAt(s, i, CRLF);
    }
    if HasPair(s, 1, 101) {
      var i :| 0 <= i < |s| - 1 && s[i] == 1 && s[i + 1] == 101;
      assert SeparatorAt(s, i, ONE_E);
    }
    assert forall i: nat :: i < |s| && SeparatorAt(s, i, CRLF) ==> i < |s| - 1 && s[i] == 13 && s[i + 1] == 10;
    assert forall i: nat :: i < |s| && SeparatorAt(s, i, ONE_E) ==> i < |s| - 1 && s[i] == 1 && s[i + 1] == 101;
  }

  /** A part of a stream without a pair has none. */
  lemma PartHasNone(s: Bytes, i: nat, j: nat, x: int, y: int)
    requires i <= j <= |s| && HasPair(s[i..j], x, y)
    ensures HasPair(s, x, y)
  {
    var k :| 0 <= k < |s[i..j]| - 1 && s[i..j][k] == x && s[i..j][k + 1] == y;
    assert s[i + k] == x && s[i + k + 1] == y;
  }

  /** What stands before the first separator. */
  lemma CutFirst(s: Bytes)
    requires NextCut(s).Some?
    ensures var cut := NextCut(s).value;
      && !HasPair(s[..cut], 13, 10)
      && s == s[..cut] + s[cut..cut + 2] + s[cut + 2..]
      && (s[cut..cut + 2] == [13, 10] ||
          (s[cut..cut + 2] == [1, 101] && !HasPair(s[..cut], 1, 101) && !HasPair(s, 13, 10)))
  {
    var cut := NextCut(s).value;
    ContainsIff(s[..cut]);
    ContainsIff(s);
    forall sep | Contains(s[..cut], sep)
      ensures exists i: nat :: i < cut && SeparatorAt(s, i, sep)
    {
      var i: nat :| i < |s[..cut]| && SeparatorAt(s[..cut], i, sep);
      assert SeparatorAt(s, i, sep);
    }
  }

  /** All bytes are in the messages, their separators and the leftover, in order. */
  lemma {:induction false} NothingLost(s: Bytes) returns (separators: seq<Bytes>)
    ensures |separators| == |Drain(s).messages|
    ensures s == Rejoined(Drain(s).messages, separators) + Drain(s).left
    ensures CutRight(Drain(s).messages, separators)
    ensures !HasPair(Drain(s).left, 13, 10) && !HasPair(Drain(s).left, 1, 101)
    ensures !HasPair(s, 13, 10) ==> forall i :: 0 <= i < |separators| ==> separators[i] == [1, 101]
    decreases |s|
  {
    hide NextCut, HasPair;
    LeftoverHasNoSeparator(s);
    ContainsIff(Drain(s).left);
    if NextCut(s).None? {
      DrainNone(s);
      separators := [];
    } else {
      var cut := NextCut(s).value;
      var rest := s[cut + 2..];
      DrainCut(s, cut);
      CutFirst(s);
      var more := NothingLost(rest);
      separators := [s[cut..cut + 2]] + more;
      if !HasPair(s, 13, 10) {
        if HasPair(rest, 13, 10) {
          assert rest == s[cut + 2..|s|];
          PartHasNone(s, cut + 2, |s|, 13, 10);
        }
        if s[cut..cut + 2] == [13, 10] {
          PairAt(s, cut);
        }
      }
      RejoinedHead(s[..cut], s[cut..cut + 2], Drain(rest).messages, more, Drain(rest).left);
      CutRightHead(s[..cut], s[cut..cut + 2], Drain(rest).messages, more);
    }
  }

  lemma PairAt(s: Bytes, cut: nat)
    requires cut + 2 <= |s| && s[cut..cut + 2] == [13, 10]
    ensures HasPair(s, 13, 10)
  {
    assert s[cut] == s[cut..cut + 2][0] && s[cut + 1] == s[cut..cut + 2][1];
  }

  lemma RejoinedHead(m: Bytes, sep: Bytes, messages: seq<Bytes>, separators: seq<Bytes>, left: Bytes)
    requires |messages| == |separators|
    ensures Rejoined([m] + messages, [sep] + separators) + left == m + sep + (Rejoined(messages, separators) + left)
  {
    assert ([m] + messages)[1..] == messages && ([sep] + separators)[1..] == separators;
  }

  lemma CutRightHead(m: Bytes, sep: Bytes, messages: seq<Bytes>, separators: seq<Bytes>)
    requires |messages| == |separators| && CutRight(messages, separators)
    requires !HasPair(m, 13, 10) && (sep == [13, 10] || (sep == [1, 101] && !HasPair(m, 1, 101)))
    requires sep == [1, 101] ==> forall j :: 0 <= j < |separators| ==> separators[j] == [1, 101]
    ensures CutRight([m] + messages, [sep] + separators)
  {
    hide HasPair;
    var ms, ss := [m] + messages, [sep] + separators;
    forall i | 0 <= i < |ms|
      ensures !HasPair(ms[i], 13, 10)
      ensures ss[i] == [13, 10] || (ss[i] == [1, 101] && !HasPair(ms[i], 1, 101))
      ensures ss[i] == [1, 101] ==> forall j :: i < j < |ms| ==> ss[j] == [1, 101]
    {
      if i > 0 {
        assert ms[i] == messages[i - 1] && ss[i] == separators[i - 1];
      }
    }
  }

  // ----- independence of the chunking -----

  /** No other separator stands before a CRLF. */
  ghost predicate Ordered(s: Bytes) {
    forall i: nat, j: nat :: SeparatorAt(s, i, ONE_E) && SeparatorAt(s, j, CRLF) ==> j < i
  }

  lemma SeparatorInSuffix(s: Bytes, k: nat, i: nat, sep: Bytes)
    requires k <= |s|
    ensures SeparatorAt(s[k..], i, sep) <==> SeparatorAt(s, k + i, sep)
  {
  }

  lemma SeparatorInPrefix(p: Bytes, q: Bytes, i: nat, sep: Bytes)
    ensures SeparatorAt(p, i, sep) ==> SeparatorAt(p + q, i, sep)
    ensures i + 2 <= |p| && SeparatorAt(p + q, i, sep) ==> SeparatorAt(p, i, sep)
  {
  }

  lemma OrderedSuffix(s: Bytes, k: nat)
    requires k <= |s| && Ordered(s)
    ensures Ordered(s[k..])
  {
    forall i: nat, j: nat | SeparatorAt(s[k..], i, ONE_E) && SeparatorAt(s[k..], j, CRLF)
      ensures j < i
    {
      SeparatorInSuffix(s, k, i, ONE_E);
      SeparatorInSuffix(s, k, j, CRLF);
    }
  }

  /** More bytes do not change where a buffer is cut. */
  lemma CutStays(p: Bytes, q: Bytes)
    requires Ordered(p + q) && NextCut(p).Some?
    ensures NextCut(p + q) == NextCut(p)
  {
    var cut := NextCut(p).value;
    if Find(p, CRLF, 0).Some? {
      FirstStays(p, q, CRLF);
    } else {
      SeparatorInPrefix(p, q, cut, ONE_E);
      forall j: nat
        ensures !SeparatorAt(p + q, j, CRLF)
      {
        if SeparatorAt(p + q, j, CRLF) {
          assert j < cut;
          SeparatorInPrefix(p, q, j, CRLF);
        }
      }
      FirstStays(p, q, ONE_E);
    }
  }

  lemma FirstStays(p: Bytes, q: Bytes, sep: Bytes)
    requires Find(p, sep, 0).Some?
    ensures Find(p + q, sep, 0) == Find(p, sep, 0)
  {
    var f := Find(p, sep, 0).value;
    SeparatorInPrefix(p, q, f, sep);
    var g := Find(p + q, sep, 0);
    if g.Some? {
      SeparatorInPrefix(p, q, g.value, sep);
    }
  }

  lemma {:induction false} DrainInTwo(p: Bytes, q: Bytes)
    requires Ordered(p + q)
    ensures var d, e := Drain(p), Drain(Drain(p).left + q); Drain(p + q) == Drained(d.messages + e.messages, e.left)
    decreases |p|
  {
    hide NextCut, Ordered;
    if NextCut(p).Some? {
      var cut := NextCut(p).value;
      CutStays(p, q);
      assert (p + q)[cut + 2..] == p[cut + 2..] + q;
      OrderedSuffix(p + q, cut + 2);
      DrainInTwo(p[cut + 2..], q);
      assert (p + q)[..cut] == p[..cut];
      var d := Drain(p[cut + 2..]);
      var e := Drain(d.left + q);
      assert [p[..cut]] + (d.messages + e.messages) == [p[..cut]] + d.messages + e.messages;
    }
  }

  lemma {:induction false} FeedIsDrain(buffer: Bytes, chunks: seq<Bytes>)
    requires Ordered(buffer + Concat(chunks)) && Drain(buffer) == Drained([], buffer)
    ensures Feed(buffer, chunks) == Drain(buffer + Concat(chunks))
    decreases |chunks|
  {
    if chunks == [] {
      assert buffer + [] == buffer;
    } else {
      var p, q := buffer + chunks[0], Concat(chunks[1..]);
      assert buffer + Concat(chunks) == p + q;
      DrainInTwo(p, q);
      var k := LeftoverIsSuffix(p);
      OrderedSuffix(p + q, k);
      assert (p + q)[k..] == Drain(p).left + q;
      DrainedIsStable(p);
      FeedIsDrain(Drain(p).left, chunks[1..]);
    }
  }

  lemma {:induction false} DrainedIsStable(s: Bytes)
    ensures Drain(Drain(s).left) == Drained([], Drain(s).left)
    decreases |s|
  {
    if NextCut(s).Some? {
      DrainedIsStable(s[NextCut(s).value + 2..]);
    }
  }

  lemma NothingDrained()
    ensures Drain([]) == Drained([], [])
  {
    assert NextCut([]).None?;
  }

  ghost predicate ChunkingIrrelevant(s: Bytes) {
    forall chunks :: Concat(chunks) == s ==> Feed([], chunks) == Drain(s)
  }

  /** The way a stream is split into calls does not matter exactly if no other separator stands before a CRLF. */
  lemma ChunkingIrrelevantIff(s: Bytes)
    ensures ChunkingIrrelevant(s) <==> Ordered(s)
  {
    hide Drain, Feed, Ordered, Concat;
    if Ordered(s) {
      NothingDrained();
      forall chunks | Concat(chunks) == s
        ensures Feed([], chunks) == Drain(s)
      {
        assert [] + Concat(chunks) == s;
        FeedIsDrain([], chunks);
      }
    } else {
      var k := SplitThatMatters(s);
      FeedTwo(s[..k], s[k..]);
      assert s[..k] + s[k..] == s;
    }
  }

  lemma FeedTwo(p: Bytes, q: Bytes)
    ensures Concat([p, q]) == p + q
    ensures Feed([], [p, q]) ==
              Drained(Drain(p).messages + Drain(Drain(p).left + q).messages, Drain(Drain(p).left + q).left)
  {
    hide Drain;
    var d := Drain(p);
    assert Concat([q]) == q + [];
    assert [] + p == p && [p, q][1..] == [q] && [q][1..] == [];
    var e := Drain(d.left + q);
    assert Feed(d.left, [q]) == Drained(e.messages + [], e.left);
  }

  /** Of a stream that uses one of the separators only, any split gives the same. */
  lemma OneSeparator(s: Bytes)
    requires !Contains(s, CRLF) || !Contains(s, ONE_E)
    ensures ChunkingIrrelevant(s)
  {
    ChunkingIrrelevantIff(s);
  }

  /** A split that shows the difference: just behind a separator that a later CRLF would hide. */
  lemma {:induction false} SplitThatMatters(s: Bytes) returns (k: nat)
    requires !Ordered(s)
    ensures k <= |s|
    ensures Drain(s[..k]).messages + Drain(Drain(s[..k]).left + s[k..]).messages != Drain(s).messages
    decreases |s|
  {
    hide Drain;
    var i: nat, j: nat :| SeparatorAt(s, i, ONE_E) && SeparatorAt(s, j, CRLF) && i <= j;
    var f := Find(s, CRLF, 0).value;
    assert f <= j;
    if exists g: nat :: g < f && SeparatorAt(s, g, ONE_E) {
      k := SplitBeforeCrlf(s, f);
    } else {
      var t := s[f + 2..];
      assert f < i;
      assert s[f + 1] == 10 && s[i] == 1;
      assert f + 2 <= i;
      SeparatorInSuffix(s, f + 2, i - (f + 2), ONE_E);
      SeparatorInSuffix(s, f + 2, j - (f + 2), CRLF);
      var l := SplitThatMatters(t);
      k := f + 2 + l;
      SplitAfterCrlf(s, f, l);
    }
  }

  /** A difference behind the first CRLF is a difference of the whole stream. */
  lemma SplitAfterCrlf(s: Bytes, f: nat, l: nat)
    requires Find(s, CRLF, 0) == Some(f) && f + 2 + l <= |s|
    requires var t := s[f + 2..];
      Drain(t[..l]).messages + Drain(Drain(t[..l]).left + t[l..]).messages != Drain(t).messages
    ensures var k := f + 2 + l;
      Drain(s[..k]).messages + Drain(Drain(s[..k]).left + s[k..]).messages != Drain(s).messages
  {
    hide Drain;
    var t, k := s[f + 2..], f + 2 + l;
    assert s[..k] == s[..f + 2] + t[..l] && s[k..] == t[l..] && s == s[..f + 2] + t;
    CrlfFirst(s[..f + 2], t[..l], f, s);
    CrlfFirst(s[..f + 2], t, f, s);
    var d := Drain(t[..l]).messages;
    var rest := Drain(Drain(t[..l]).left + t[l..]).messages;
    assert [s[..f]] + d + rest == [s[..f]] + (d + rest);
    assert ([s[..f]] + (d + rest))[1..] == d + rest;
    assert ([s[..f]] + Drain(t).messages)[1..] == Drain(t).messages;
  }

  lemma CrlfFirst(head: Bytes, tail: Bytes, f: nat, s: Bytes)
    requires Find(s, CRLF, 0) == Some(f) && head == s[..f + 2]
    ensures Drain(head + tail) == Drained([s[..f]] + Drain(tail).messages, Drain(tail).left)
  {
    var p := head + tail;
    assert SeparatorAt(p, f, CRLF);
    forall i: nat | i < f
      ensures !SeparatorAt(p, i, CRLF)
    {
      assert !SeparatorAt(s, i, CRLF);
    }
    assert Find(p, CRLF, 0) == Some(f);
    assert p[f + 2..] == tail && p[..f] == s[..f];
  }

  lemma SplitBeforeCrlf(s: Bytes, f: nat) returns (k: nat)
    requires Find(s, CRLF, 0) == Some(f)
    requires exists g: nat :: g < f && SeparatorAt(s, g, ONE_E)
    ensures k <= |s|
    ensures Drain(s[..k]).messages + Drain(Drain(s[..k]).left + s[k..]).messages != Drain(s).messages
  {
    var g := Find(s, ONE_E, 0).value;
    assert g < f;
    k := g + 2;
    var p := s[..k];
    forall i: nat
      ensures !SeparatorAt(p, i, CRLF)
    {
      assert i < f ==> !SeparatorAt(s, i, CRLF);
    }
    assert SeparatorAt(p, g, ONE_E);
    forall i: nat | i < g
      ensures !SeparatorAt(p, i, ONE_E)
    {
      assert !SeparatorAt(s, i, ONE_E);
    }
    assert NextCut(p) == Some(g);
    assert p[..g] == s[..g] && Drain(p).messages[0] == s[..g];
    assert Drain(s).messages[0] == s[..f];
  }

  // ----- sending and receiving -----

  /** What `send_rpc` writes. */
  function Framed(messages: seq<Bytes>): Bytes {
    if messages == [] then [] else messages[0] + CRLF + Framed(messages[1..])
  }

  /** Messages without CRLF that are framed with CRLF come back as they were. */
  lemma {:induction false} FramedDrained(messages: seq<Bytes>)
    requires forall i :: 0 <= i < |messages| ==> !Contains(messages[i], CRLF)
    ensures Drain(Framed(messages)) == Drained(messages, [])
    decreases |messages|
  {
    if messages == [] {
      NothingDrained();
    } else {
      var m, rest := messages[0], Framed(messages[1..]);
      var s := m + CRLF + rest;
      FramedDrained(messages[1..]);
      assert SeparatorAt(s, |m|, CRLF);
      forall i: nat | i < |m|
        ensures !SeparatorAt(s, i, CRLF)
      {
        assert !SeparatorAt(m, i, CRLF);
      }
      assert Find(s, CRLF, 0) == Some(|m|);
      assert s[|m| + 2..] == rest && s[..|m|] == m;
      assert [m] + messages[1..] == messages;
    }
  }

  // ----- the connection -----

  class Connection {
    var buffer: Bytes

    constructor ()
      ensures buffer == []
    {
      buffer := [];
    }

    /** The position of the separator in the buffer, -1 if it does not occur. */
    method Index(sep: Bytes) returns (index: int)
      ensures index == (match Find(buffer, sep, 0) case Some(i) => i case None => -1)
    {
      index := 0;
      while index < |buffer|
        invariant 0 <= index <= |buffer| && Find(buffer, sep, 0) == Find(buffer, sep, index)
      {
        if SeparatorAt(buffer, index, sep) {
          return;
        }
        index := index + 1;
      }
      return -1;
    }

    /** Appends the data to the buffer and takes all complete messages out of it. */
    method DataReceived(data: Bytes) returns (messages: seq<Bytes>)
      modifies this
      ensures Drained(messages, buffer) == Drain(old(buffer) + data)
      ensures !Contains(buffer, CRLF) && !Contains(buffer, ONE_E)
    {
      hide Find, Contains, SeparatorAt, Drain;
      LeftoverHasNoSeparator(buffer + data);
      buffer := buffer + data;
      messages := [];
      ghost var all := Drain(buffer);
      while true
        invariant all == Drained(messages + Drain(buffer).messages, Drain(buffer).left)
        decreases |buffer|
      {
        var index := Index(CRLF);
        if index < 0 {
          index := Index(ONE_E);
        }
        if index < 0 {
          DrainNone(buffer);
          break;
        }
        DrainCut(buffer, index);
        ghost var rest := Drain(buffer[index + 2..]).messages;
        assert messages + ([buffer[..index]] + rest) == messages + [buffer[..index]] + rest;
        messages := messages + [buffer[..index]];
        buffer := buffer[index + 2..];
      }
    }
  }
}
