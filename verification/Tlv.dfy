/** The TLV codec of common/protocol.c, with the uint16_t arithmetic it is written in. */
module Tlv {
  import opened Bytes
  import opened Wrappers

  // The longest value for which 3 + valueLen does not wrap around.
  const MAX_VALUE: nat := 65532

  type Buffer = b: seq<byte> | |b| < 0x1_0000 witness []

  datatype Field = Field(tag: byte, value: seq<byte>)

  predicate Fits(f: Field) { |f.value| <= MAX_VALUE }

  function Encode(f: Field): (e: seq<byte>)
    requires Fits(f)
    ensures |e| == 3 + |f.value|
  {
    [f.tag] + PutU16(|f.value|) + f.value
  }

  function EncodeAll(fs: seq<Field>): seq<byte>
    requires forall f <- fs :: Fits(f)
  {
    if fs == [] then [] else Encode(fs[0]) + EncodeAll(fs[1..])
  }

  // (uint16_t)(3u + valueLen)
  function Total(valueLen: U16): U16 { (3 + valueLen) % 0x1_0000 }

  datatype Header = NeedMore | Header(tag: byte, valueLen: U16, consumed: U16)

  // Protocol_DecodeTLV; the value starts at index 3.
  function Decode(buf: Buffer): (h: Header)
    ensures h.Header? ==> 3 <= |buf| && h.consumed <= |buf| && h.consumed == Total(h.valueLen)
  {
    if |buf| < 3 then NeedMore else
    var valueLen := GetU16(buf[1..3]);
    if |buf| < Total(valueLen) then NeedMore else Header(buf[0], valueLen, Total(valueLen))
  }

  // DecodeTLV accepts exactly the buffers that hold a whole TLV if and only if the declared length
  // is at most 65532.
  lemma DecodeIsExactIff(buf: Buffer)
    requires |buf| >= 3
    ensures var valueLen := GetU16(buf[1..3]);
      (Decode(buf).Header? <==> 3 + valueLen <= |buf|) <==> valueLen <= MAX_VALUE
  {
  }

  lemma DecodeEncoded(f: Field, rest: seq<byte>)
    requires Fits(f) && |Encode(f) + rest| < 0x1_0000
    ensures Decode(Encode(f) + rest) == Header(f.tag, |f.value|, 3 + |f.value|)
    ensures (Encode(f) + rest)[3..3 + |f.value|] == f.value
  {
    var buf := Encode(f) + rest;
    assert buf[1..3] == PutU16(|f.value|);
    U16RoundTrip(|f.value|, buf[1..3]);
  }

  // ---- Protocol_FindField ----

  datatype Search = Found(at: nat, len: U16) | NotFound | Malformed | Endless

  function Find(buf: Buffer, offset: nat, tag: byte): (r: Search)
    requires offset <= |buf|
    decreases |buf| - offset
  {
    if offset == |buf| then NotFound else
    match Decode(buf[offset..])
    case NeedMore => Malformed
    case Header(t, valueLen, consumed) =>
      if t == tag then Found(offset + 3, valueLen)
      else if consumed == 0 then Endless
      else Find(buf, offset + consumed, tag)
  }

  // The loop itself, n times around.
  datatype Progress = At(offset: nat) | Stopped(result: Search)

  function Turns(buf: Buffer, offset: nat, tag: byte, n: nat): Progress
    requires offset <= |buf|
    decreases n
  {
    if offset == |buf| then Stopped(NotFound) else
    match Decode(buf[offset..])
    case NeedMore => Stopped(Malformed)
    case Header(t, valueLen, consumed) =>
      if t == tag then Stopped(Found(offset + 3, valueLen))
      else if n == 0 then At(offset)
      else Turns(buf, offset + consumed, tag, n - 1)
  }

  lemma {:induction false} TurnsFollowFind(buf: Buffer, offset: nat, tag: byte, n: nat)
    requires offset <= |buf|
    ensures Find(buf, offset, tag) == Endless ==> Turns(buf, offset, tag, n).At?
    ensures Find(buf, offset, tag) != Endless && n >= |buf| - offset ==>
      Turns(buf, offset, tag, n) == Stopped(Find(buf, offset, tag))
    decreases n
  {
    if n > 0 && offset < |buf| {
      match Decode(buf[offset..])
      case NeedMore =>
      case Header(t, valueLen, consumed) =>
        if t != tag { TurnsFollowFind(buf, offset + consumed, tag, n - 1); }
    }
  }

  // Main result: the loop ends if and only if it meets no header that declares 65533 bytes under another tag.
  lemma FindTerminatesIff(buf: Buffer, tag: byte)
    ensures (exists n: nat :: Turns(buf, 0, tag, n).Stopped?) <==> Find(buf, 0, tag) != Endless
    ensures Find(buf, 0, tag) == Endless <==> exists o: nat :: Visits(buf, 0, tag, o) && StuckAt(buf, o, tag)
  {
    TurnsFollowFind(buf, 0, tag, |buf|);
    if n: nat :| Turns(buf, 0, tag, n).Stopped? {
      TurnsFollowFind(buf, 0, tag, n);
    }
    if Find(buf, 0, tag) == Endless {
      var o := EndlessIsStuck(buf, 0, tag);
    }
    if o: nat :| Visits(buf, 0, tag, o) && StuckAt(buf, o, tag) {
      StuckIsEndless(buf, 0, tag, o);
    }
  }

  // The search comes to look at offset o.
  predicate Visits(buf: Buffer, offset: nat, tag: byte, o: nat)
    decreases |buf| - offset
  {
    offset < |buf| &&
    (o == offset ||
     match Decode(buf[offset..])
     case NeedMore => false
     case Header(t, _, consumed) => t != tag && consumed != 0 && Visits(buf, offset + consumed, tag, o))
  }

  predicate StuckAt(buf: Buffer, o: nat, tag: byte) {
    o + 3 <= |buf| && GetU16(buf[o + 1..o + 3]) == 65533 && buf[o] != tag
  }

  lemma StuckHeader(buf: Buffer, o: nat, tag: byte)
    requires o < |buf|
    ensures StuckAt(buf, o, tag) <==>
      match Decode(buf[o..]) case NeedMore => false case Header(t, _, consumed) => t != tag && consumed == 0
  {
    if o + 3 <= |buf| { assert buf[o..][1..3] == buf[o + 1..o + 3]; }
  }

  lemma {:induction false} EndlessIsStuck(buf: Buffer, offset: nat, tag: byte) returns (o: nat)
    requires offset <= |buf| && Find(buf, offset, tag) == Endless
    ensures Visits(buf, offset, tag, o) && StuckAt(buf, o, tag)
    decreases |buf| - offset
  {
    StuckHeader(buf, offset, tag);
    o := offset;
    if !StuckAt(buf, offset, tag) {
      o := EndlessIsStuck(buf, offset + Decode(buf[offset..]).consumed, tag);
    }
  }

  lemma {:induction false} StuckIsEndless(buf: Buffer, offset: nat, tag: byte, o: nat)
    requires offset <= |buf| && Visits(buf, offset, tag, o) && StuckAt(buf, o, tag)
    ensures Find(buf, offset, tag) == Endless
    decreases |buf| - offset
  {
    StuckHeader(buf, offset, tag);
    if o != offset {
      StuckIsEndless(buf, offset + Decode(buf[offset..]).consumed, tag, o);
    }
  }

  // Protocol_FindField, stopped after so many turns of its loop in case it does not stop by itself.
  method FindFieldFor(buf: Buffer, tag: byte, n: nat) returns (p: Progress)
    ensures p == Turns(buf, 0, tag, n)
  {
    hide Decode, Turns;
    var offset := 0;
    TurnOnce(buf, offset, tag, n);
    var i := 0;
    while offset < |buf|
      invariant 0 <= offset <= |buf| && 0 <= i <= n
      invariant Turns(buf, offset, tag, n - i) == Turns(buf, 0, tag, n)
      decreases n - i
    {
      TurnOnce(buf, offset, tag, n - i);
      var h := Decode(buf[offset..]);
      if h.NeedMore? { return Stopped(Malformed); }
      if h.tag == tag { return Stopped(Found(offset + 3, h.valueLen)); }
      if i == n { return At(offset); }
      offset := (offset + h.consumed) % 0x1_0000;
      i := i + 1;
    }
    TurnOnce(buf, offset, tag, n - i);
    p := Stopped(NotFound);
  }

  lemma TurnOnce(buf: Buffer, offset: nat, tag: byte, n: nat)
    requires offset <= |buf|
    ensures offset == |buf| ==> Turns(buf, offset, tag, n) == Stopped(NotFound)
    ensures offset < |buf| ==>
      match Decode(buf[offset..])
      case NeedMore => Turns(buf, offset, tag, n) == Stopped(Malformed)
      case Header(t, valueLen, consumed) =>
        && offset + consumed <= |buf|
        && Turns(buf, offset, tag, n) ==
             if t == tag then Stopped(Found(offset + 3, valueLen))
             else if n == 0 then At(offset)
             else Turns(buf, offset + consumed, tag, n - 1)
  {
  }

  // Where the loop ends, it does so within as many turns as the buffer has bytes.
  method FindField(buf: Buffer, tag: byte) returns (r: Search)
    requires Find(buf, 0, tag) != Endless
    ensures r == Find(buf, 0, tag)
  {
    TurnsFollowFind(buf, 0, tag, |buf|);
    var p := FindFieldFor(buf, tag, |buf|);
    r := p.result;
  }

  // ---- What the search finds ----

  function First(fs: seq<Field>, tag: byte): Option<seq<byte>> {
    if fs == [] then None else if fs[0].tag == tag then Some(fs[0].value) else First(fs[1..], tag)
  }

  // The bytes the out-parameters describe.
  function Value(buf: Buffer, r: Search): Option<seq<byte>> {
    if r.Found? && r.at + r.len <= |buf| then Some(buf[r.at..r.at + r.len]) else None
  }

  function Lookup(buf: Buffer, tag: byte): Option<seq<byte>> { Value(buf, Find(buf, 0, tag)) }

  // Main result: on any sequence of sibling fields the search returns the value of the first field with
  // that tag, or says that there is none.
  lemma {:induction false} FindFirst(pre: seq<byte>, fs: seq<Field>, tag: byte)
    requires (forall f <- fs :: Fits(f)) && |pre + EncodeAll(fs)| < 0x1_0000
    ensures var buf := pre + EncodeAll(fs);
      var r := Find(buf, |pre|, tag);
      && Value(buf, r) == First(fs, tag)
      && (if First(fs, tag).Some? then r.Found? else r == NotFound)
    decreases |fs|
  {
    hide Decode, Encode;
    var buf := pre + EncodeAll(fs);
    if fs != [] {
      var f, rest := fs[0], fs[1..];
      assert buf[|pre|..] == Encode(f) + EncodeAll(rest);
      DecodeEncoded(f, EncodeAll(rest));
      if f.tag == tag {
        assert buf[|pre| + 3..|pre| + 3 + |f.value|] == (Encode(f) + EncodeAll(rest))[3..3 + |f.value|];
      } else {
        assert buf == (pre + Encode(f)) + EncodeAll(rest);
        FindFirst(pre + Encode(f), rest, tag);
      }
    }
  }

  lemma LookupFirst(fs: seq<Field>, tag: byte)
    requires (forall f <- fs :: Fits(f)) && |EncodeAll(fs)| < 0x1_0000
    ensures Lookup(EncodeAll(fs), tag) == First(fs, tag)
    ensures Find(EncodeAll(fs), 0, tag) == NotFound <==> First(fs, tag) == None
    ensures Find(EncodeAll(fs), 0, tag) != Endless
  {
    assert [] + EncodeAll(fs) == EncodeAll(fs);
    FindFirst([], fs, tag);
  }

  // No header the search looks at declares more than 65532 bytes.
  predicate NoWrap(buf: Buffer, offset: nat, tag: byte)
    decreases |buf| - offset
  {
    offset + 3 > |buf| ||
    var valueLen := GetU16(buf[offset + 1..offset + 3]);
    valueLen <= MAX_VALUE && (buf[offset] == tag || NoWrap(buf, offset + 3 + valueLen, tag))
  }

  // What a verdict about the bytes from offset on promises.
  ghost predicate Means(tail: seq<byte>, tag: byte, fs: seq<Field>, r: Search, offset: nat) {
    && (forall f <- fs :: Fits(f)) && First(fs, tag) == None
    && EncodeAll(fs) <= tail
    && match r
       case NotFound => EncodeAll(fs) == tail
       case Found(at, len) =>
         && at == offset + |EncodeAll(fs)| + 3
         && at - offset + len <= |tail| && len <= MAX_VALUE
         && tail[|EncodeAll(fs)|..at - offset + len] == Encode(Field(tag, tail[at - offset..at - offset + len]))
       case Malformed =>
         var left := tail[|EncodeAll(fs)|..];
         0 < |left| && (|left| < 3 || |left| < 3 + GetU16(left[1..3]))
       case Endless => false
  }

  // Main result: without wrap-around every verdict is the documented one. NotFound: the buffer is a
  // sequence of fields, none with the tag. Found: such a sequence, then a field with the tag. Malformed:
  // such a sequence, then a field that is cut off.
  lemma {:induction false} FindMeans(buf: Buffer, offset: nat, tag: byte) returns (fs: seq<Field>)
    requires offset <= |buf| && NoWrap(buf, offset, tag)
    ensures Means(buf[offset..], tag, fs, Find(buf, offset, tag), offset)
    decreases |buf| - offset
  {
    hide Means, GetU16, Encode;
    fs := [];
    var tail := buf[offset..];
    if |tail| < 3 {
      NothingWhole(tail, tag, offset);
    } else {
      assert tail[1..3] == buf[offset + 1..offset + 3];
      var valueLen: int := GetU16(tail[1..3]);
      if |tail| < 3 + valueLen {
        NothingWhole(tail, tag, offset);
      } else {
        WholeField(tail, tag, offset);
        if tail[0] != tag {
          var next := offset + 3 + valueLen;
          var rest := FindMeans(buf, next, tag);
          assert buf[next..] == tail[3 + valueLen..];
          var f := Field(tail[0], tail[3..3 + valueLen]);
          fs := [f] + rest;
          MeansExtends(tail, tag, f, rest, Find(buf, offset, tag), offset);
        }
      }
    }
  }

  lemma NothingWhole(tail: Buffer, tag: byte, offset: nat)
    requires |tail| < 3 || |tail| < 3 + GetU16(tail[1..3])
    ensures Means(tail, tag, [], if tail == [] then NotFound else Malformed, offset)
  {
  }

  lemma WholeField(tail: Buffer, tag: byte, offset: nat)
    requires |tail| >= 3 && |tail| >= 3 + GetU16(tail[1..3])
    ensures var valueLen: int := GetU16(tail[1..3]);
      var f := Field(tail[0], tail[3..3 + valueLen]);
      && Fits(f) && Encode(f) <= tail && |Encode(f)| == 3 + valueLen
      && (f.tag == tag ==> Means(tail, tag, [], Found(offset + 3, valueLen), offset))
  {
    var valueLen: int := GetU16(tail[1..3]);
    U16RoundTrip(valueLen, tail[1..3]);
    hide PutU16, GetU16;
    assert tail[..3 + valueLen] == [tail[0]] + tail[1..3] + tail[3..3 + valueLen];
    assert tail[0..3 + valueLen] == tail[..3 + valueLen];
  }

  lemma MeansExtends(tail: seq<byte>, tag: byte, f: Field, rest: seq<Field>, r: Search, offset: nat)
    requires Fits(f) && f.tag != tag && Encode(f) <= tail
    requires Means(tail[|Encode(f)|..], tag, rest, r, offset + |Encode(f)|)
    ensures Means(tail, tag, [f] + rest, r, offset)
  {
    var fs, n := [f] + rest, |Encode(f)|;
    assert fs[1..] == rest;
    assert EncodeAll(fs) == Encode(f) + EncodeAll(rest);
    var after := tail[n..];
    assert tail == Encode(f) + after;
    match r
    case Found(at, len) =>
      assert tail[|EncodeAll(fs)|..at - offset + len] == after[|EncodeAll(rest)|..at - offset - n + len];
      assert tail[at - offset..at - offset + len] == after[at - offset - n..at - offset - n + len];
    case Malformed =>
      assert tail[|EncodeAll(fs)|..] == after[|EncodeAll(rest)|..];
    case NotFound =>
    case Endless =>
  }

  // At offset o there is no whole field any more, by the computed size.
  predicate CutOffAt(buf: Buffer, o: nat) {
    o <= |buf| && (|buf| - o < 3 || |buf| - o < Total(GetU16(buf[o + 1..o + 3])))
  }

  lemma CutOffHeader(buf: Buffer, o: nat)
    requires o < |buf|
    ensures CutOffAt(buf, o) <==> Decode(buf[o..]).NeedMore?
  {
    if o + 3 <= |buf| { assert buf[o..][1..3] == buf[o + 1..o + 3]; }
  }

  lemma {:induction false} MalformedIsCutOff(buf: Buffer, offset: nat, tag: byte) returns (o: nat)
    requires offset <= |buf| && Find(buf, offset, tag) == Malformed
    ensures Visits(buf, offset, tag, o) && CutOffAt(buf, o)
    decreases |buf| - offset
  {
    CutOffHeader(buf, offset);
    o := offset;
    if !CutOffAt(buf, offset) {
      o := MalformedIsCutOff(buf, offset + Decode(buf[offset..]).consumed, tag);
    }
  }

  lemma {:induction false} CutOffIsMalformed(buf: Buffer, offset: nat, tag: byte, o: nat)
    requires offset <= |buf| && Visits(buf, offset, tag, o) && CutOffAt(buf, o)
    ensures Find(buf, offset, tag) == Malformed
    decreases |buf| - offset
  {
    CutOffHeader(buf, offset);
    if o != offset {
      CutOffIsMalformed(buf, offset + Decode(buf[offset..]).consumed, tag, o);
    }
  }

  // Main result: a verdict is the documented one if and only if no length wraps around on the way, or the
  // search comes to an offset at which the rest is cut off.
  lemma FindMeansIff(buf: Buffer, tag: byte)
    ensures (exists fs :: Means(buf, tag, fs, Find(buf, 0, tag), 0)) <==>
      NoWrap(buf, 0, tag) || exists o :: Visits(buf, 0, tag, o) && CutOffAt(buf, o)
  {
    hide Means, Visits, CutOffAt;
    assert buf[0..] == buf;
    if Find(buf, 0, tag) == Malformed {
      var o := MalformedIsCutOff(buf, 0, tag);
    }
    if o :| Visits(buf, 0, tag, o) && CutOffAt(buf, o) {
      CutOffIsMalformed(buf, 0, tag, o);
    }
    if NoWrap(buf, 0, tag) {
      var fs := FindMeans(buf, 0, tag);
    } else if Find(buf, 0, tag) == Malformed {
      var fs := MalformedMeans(buf, 0, tag);
    } else {
      forall fs ensures !Means(buf, tag, fs, Find(buf, 0, tag), 0) {
        if Means(buf, tag, fs, Find(buf, 0, tag), 0) { MeansOnlyIf(buf, 0, tag, fs); }
      }
    }
  }

  lemma {:induction false} MalformedMeans(buf: Buffer, offset: nat, tag: byte) returns (fs: seq<Field>)
    requires offset <= |buf| && Find(buf, offset, tag) == Malformed && !NoWrap(buf, offset, tag)
    ensures Means(buf[offset..], tag, fs, Malformed, offset)
    decreases |buf| - offset
  {
    hide Means, GetU16, Encode;
    var tail := buf[offset..];
    assert tail[1..3] == buf[offset + 1..offset + 3];
    var valueLen: int := GetU16(tail[1..3]);
    if |tail| < 3 + valueLen {
      NothingWhole(tail, tag, offset);
      fs := [];
    } else {
      WholeField(tail, tag, offset);
      var next := offset + 3 + valueLen;
      var rest := MalformedMeans(buf, next, tag);
      assert buf[next..] == tail[3 + valueLen..];
      var f := Field(tail[0], tail[3..3 + valueLen]);
      fs := [f] + rest;
      MeansExtends(tail, tag, f, rest, Malformed, offset);
    }
  }

  lemma {:induction false} MeansOnlyIf(buf: Buffer, offset: nat, tag: byte, fs: seq<Field>)
    requires offset <= |buf| && Means(buf[offset..], tag, fs, Find(buf, offset, tag), offset)
    ensures NoWrap(buf, offset, tag) || Find(buf, offset, tag) == Malformed
    decreases |fs|
  {
    hide Means, GetU16, Encode, EncodeAll;
    if fs == [] {
      MeansAtOnce(buf, offset, tag);
    } else {
      var f, rest := fs[0], fs[1..];
      assert fs == [f] + rest;
      FirstFieldInFront(buf[offset..], tag, f, rest, Find(buf, offset, tag), offset);
      HeaderInFront(buf, offset, f);
      MeansShrinks(buf[offset..], tag, f, rest, Find(buf, offset, tag), offset);
      assert buf[offset..][|Encode(f)|..] == buf[offset + |Encode(f)|..];
      MeansOnlyIf(buf, offset + |Encode(f)|, tag, rest);
    }
  }

  lemma MeansAtOnce(buf: Buffer, offset: nat, tag: byte)
    requires offset <= |buf| && Means(buf[offset..], tag, [], Find(buf, offset, tag), offset)
    ensures NoWrap(buf, offset, tag) || Find(buf, offset, tag) == Malformed
  {
    var tail := buf[offset..];
    match Find(buf, offset, tag)
    case Found(at, len) =>
      assert tail[0..3 + len] <= tail;
      HeaderInFront(buf, offset, Field(tag, tail[3..3 + len]));
    case _ =>
  }

  lemma FirstFieldInFront(tail: seq<byte>, tag: byte, f: Field, rest: seq<Field>, r: Search, offset: nat)
    requires Means(tail, tag, [f] + rest, r, offset)
    ensures Fits(f) && Encode(f) <= tail
  {
    var fs := [f] + rest;
    assert fs[0] in fs && fs[1..] == rest;
    assert EncodeAll(fs) == Encode(f) + EncodeAll(rest);
  }

  lemma HeaderInFront(buf: Buffer, offset: nat, f: Field)
    requires Fits(f) && offset <= |buf| && Encode(f) <= buf[offset..]
    ensures offset + 3 <= |buf| && buf[offset] == f.tag && GetU16(buf[offset + 1..offset + 3]) == |f.value|
    ensures Decode(buf[offset..]) == Header(f.tag, |f.value|, 3 + |f.value|)
  {
    var tail := buf[offset..];
    assert tail[1..3] == buf[offset + 1..offset + 3];
    assert tail == Encode(f) + tail[|Encode(f)|..];
    DecodeEncoded(f, tail[|Encode(f)|..]);
  }

  lemma MeansShrinks(tail: seq<byte>, tag: byte, f: Field, rest: seq<Field>, r: Search, offset: nat)
    requires Fits(f) && Encode(f) <= tail && Means(tail, tag, [f] + rest, r, offset)
    ensures f.tag != tag && Means(tail[|Encode(f)|..], tag, rest, r, offset + |Encode(f)|)
  {
    var fs, n := [f] + rest, |Encode(f)|;
    assert fs[1..] == rest;
    assert EncodeAll(fs) == Encode(f) + EncodeAll(rest);
    var after := tail[n..];
    assert tail == Encode(f) + after;
    match r
    case Found(at, len) =>
      assert tail[|EncodeAll(fs)|..at - offset + len] == after[|EncodeAll(rest)|..at - offset - n + len];
      assert tail[at - offset..at - offset + len] == after[at - offset - n..at - offset - n + len];
    case Malformed =>
      assert tail[|EncodeAll(fs)|..] == after[|EncodeAll(rest)|..];
    case _ =>
  }

  // Without wrap-around the search ends, and what it finds lies inside the buffer.
  lemma NoWrapStaysInside(value: Buffer, tag: byte)
    requires NoWrap(value, 0, tag)
    ensures var r := Find(value, 0, tag);
      r != Endless && (r.Found? <==> Value(value, r).Some?)
  {
    hide Find;
    var fs := FindMeans(value, 0, tag);
    assert value[0..] == value;
  }

  // With wrap-around the promise fails: this buffer is no sequence of fields, and yet the search ends
  // with NotFound rather than Malformed.
  lemma WrapHidesMalformation(tag: byte)
    requires tag != 0xAA && tag != 0xFF
    ensures var buf: seq<byte> := [0xAA, 0xFF, 0xFF, 0x00, 0x00];
      Find(buf, 0, tag) == NotFound && !(exists fs: seq<Field> :: (forall f <- fs :: Fits(f)) && EncodeAll(fs) == buf)
  {
    var buf: seq<byte> := [0xAA, 0xFF, 0xFF, 0x00, 0x00];
    assert buf[0..] == buf && buf[1..3] == [0xFF, 0xFF];
    assert Decode(buf) == Header(0xAA, 0xFFFF, 2);
    assert buf[2..] == [0xFF, 0x00, 0x00] && buf[2..][1..3] == [0x00, 0x00];
    assert Decode(buf[2..]) == Header(0xFF, 0, 3);
    forall fs: seq<Field> | (forall f <- fs :: Fits(f)) ensures EncodeAll(fs) != buf {
      if fs != [] {
        var f := fs[0];
        assert Fits(f) && |EncodeAll(fs)| >= |Encode(f)| >= 3;
        assert EncodeAll(fs)[1] == Encode(f)[1] && EncodeAll(fs)[2] == Encode(f)[2];
      }
    }
  }

  // Tag, length and value one after the other, also where the total does not fit 16 bits.
  function Layout(f: Field): seq<byte>
    requires |f.value| < 0x1_0000
  {
    [f.tag] + PutU16(|f.value|) + f.value
  }

  // Protocol_EncodeTLV into outBuf from position at on, with cap bytes of room by its caller's word. Where
  // the total wraps around, more than that is written.
  method EncodeTlv(f: Field, out: array<byte>, at: nat, cap: U16) returns (ok: bool, written: U16)
    requires |f.value| < 0x1_0000 && at <= out.Length
    requires Total(|f.value|) <= cap ==> at + 3 + |f.value| <= out.Length
    modifies out
    ensures ok <==> Total(|f.value|) <= cap
    ensures ok ==> written == Total(|f.value|) && out[..at + 3 + |f.value|] == old(out[..at]) + Layout(f)
    ensures ok && Fits(f) ==> written == |Encode(f)| && out[..at + written] == old(out[..at]) + Encode(f)
    ensures forall i :: 0 <= i < at || at + 3 + |f.value| <= i < out.Length ==> out[i] == old(out[i])
    ensures !ok ==> out[..] == old(out[..])
  {
    written := Total(|f.value|);
    if cap < written { return false, 0; }
    out[at] := f.tag;
    var lenBytes := PutU16(|f.value|);
    out[at + 1], out[at + 2] := lenBytes[0], lenBytes[1];
    ghost var head := out[..at + 3];
    assert head == old(out[..at]) + ([f.tag] + lenBytes);
    for i := 0 to |f.value|
      invariant out[..at + 3 + i] == head + f.value[..i]
      invariant forall j :: at + 3 + |f.value| <= j < out.Length ==> out[j] == old(out[j])
    {
      out[at + 3 + i] := f.value[i];
    }
    assert f.value[..|f.value|] == f.value;
    ok := true;
  }

  // The capacity check lets pass what does not fit.
  predicate Overruns(len: U16, cap: U16) { Total(len) <= cap < 3 + len }

  // It does so for some capacity if and only if the value has more than 65532 bytes.
  lemma EncodeOverrunsIff(len: U16)
    ensures (exists cap: U16 :: Overruns(len, cap)) <==> len > MAX_VALUE
  {
    if len > MAX_VALUE { assert Overruns(len, 2); }
  }
}
