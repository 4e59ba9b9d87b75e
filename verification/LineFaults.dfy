/**
 What becomes of frames on the serial line when other bytes than theirs are wrong: after damage of any kind,
 and after frames too large for the gateway.
 */
module LineFaults {
  import opened Bytes
  import opened Bits
  import opened CrcTheory
  import opened Frame
  import opened Wrappers
  import opened Reassembly
  import opened Gateways

  // ---- Damage of any kind ----

  // Decoding the input frame by frame, the decoder comes to take the START at offset o for that of a frame.
  predicate ReadsFrameAt(input: seq<byte>, o: int)
    decreases |input|
  {
    var start := FindStart(input, 0);
    match Decode(input, PAYLOAD_SIZE)
    case Complete(_, consumed) => start == o || ReadsFrameAt(input[consumed..], o - consumed)
    case Malformed(consumed) => start == o || ReadsFrameAt(input[consumed..], o - consumed)
    case _ => start < |input| && start == o
  }

  // Main result: the frame right behind a stretch of any bytes is read as a frame if and only if no START is
  // left over when the stretch has been decoded as far as possible. Then it comes through, and everything
  // behind it is read as if it came first.
  lemma FrameBehindDamageIff(x: seq<byte>, p: Payload, rest: seq<byte>)
    requires |p| <= PAYLOAD_SIZE
    ensures ReadsFrameAt(x + Encode(p) + rest, |x|) <==> START !in Cut(UplinkRule(), x).buf
    ensures START !in Cut(UplinkRule(), x).buf ==>
      var before, after := Cut(UplinkRule(), x), Cut(UplinkRule(), rest);
      Cut(UplinkRule(), x + Encode(p) + rest) == Outcome(before.messages + [p] + after.messages, after.buf)
  {
    FrameIsReadIff(x, p, rest);
    if START !in Cut(UplinkRule(), x).buf {
      NoiseWaits(Cut(UplinkRule(), x).buf);
      FrameComesThrough(x, p, rest);
    }
  }

  lemma FrameComesThrough(x: seq<byte>, p: Payload, rest: seq<byte>)
    requires |p| <= PAYLOAD_SIZE && UplinkRule()(Cut(UplinkRule(), x).buf).Wait?
    requires START !in Cut(UplinkRule(), x).buf
    ensures var before, after := Cut(UplinkRule(), x), Cut(UplinkRule(), rest);
      Cut(UplinkRule(), x + Encode(p) + rest) == Outcome(before.messages + [p] + after.messages, after.buf)
  {
    hide Stable, Encode, UplinkRule, Cut;
    UplinkIsStable();
    var before, after := Cut(UplinkRule(), x), Cut(UplinkRule(), rest);
    var left, frame := before.buf, Encode(p);
    assert x + (frame + rest) == x + frame + rest && left + (frame + rest) == left + frame + rest;
    FrameIsTaken(left, p, rest);
    CutConcat(UplinkRule(), x, frame + rest);
    Reassociate(before.messages, [p], after.messages);
  }

  lemma FrameIsTaken(noise: seq<byte>, p: Payload, rest: seq<byte>)
    requires START !in noise && |p| <= PAYLOAD_SIZE
    ensures var after := Cut(UplinkRule(), rest);
      Cut(UplinkRule(), noise + Encode(p) + rest) == Outcome([p] + after.messages, after.buf)
  {
    hide Encode, Decode;
    var input, n := noise + Encode(p) + rest, |noise| + |Encode(p)|;
    FrameRoundTrip(noise, p, rest, PAYLOAD_SIZE);
    assert input[n..] == rest;
  }

  lemma {:induction false} FrameIsReadIff(x: seq<byte>, p: Payload, rest: seq<byte>)
    requires |p| <= PAYLOAD_SIZE
    ensures ReadsFrameAt(x + Encode(p) + rest, |x|) <==> START !in Cut(UplinkRule(), x).buf
    decreases |x|
  {
    hide Encode, Decode, Cut, UplinkRule, ReadsFrameAt, FindStart;
    var whole, v := x + Encode(p) + rest, Decode(x, PAYLOAD_SIZE);
    FindStartBehind(x, p, rest);
    OneFrame(x, 0);
    OneFrame(whole, |x|);
    if v.Consumes() {
      var n := v.consumed;
      ConsumedIsInside(x);
      VerdictIsFinal(x, Encode(p) + rest, PAYLOAD_SIZE);
      assert whole == x + (Encode(p) + rest) && whole[n..] == x[n..] + Encode(p) + rest;
      StartBeforeVerdict(x);
      FrameIsReadIff(x[n..], p, rest);
    } else if START in x {
      var w := Decode(whole, PAYLOAD_SIZE);
      VerdictOfPrefix(whole, |x|, PAYLOAD_SIZE);
      assert whole[..|x|] == x;
      if w.Consumes() { NegativeNever(whole[w.consumed..], |x| - w.consumed); }
    }
  }

  // The first verdict on the input, as the two recursions see it.
  lemma OneFrame(input: seq<byte>, o: int)
    ensures var v, start := Decode(input, PAYLOAD_SIZE), FindStart(input, 0);
      if v.Consumes() then
        && v.consumed <= |input|
        && Cut(UplinkRule(), input).buf == Cut(UplinkRule(), input[v.consumed..]).buf
        && (ReadsFrameAt(input, o) <==> start == o || ReadsFrameAt(input[v.consumed..], o - v.consumed))
      else
        && Cut(UplinkRule(), input).buf == input
        && (ReadsFrameAt(input, o) <==> start < |input| && start == o)
        && (UplinkRule()(input).Wait? <==> v == Incomplete)
  {
    ConsumedIsInside(input);
    hide Decode, FindStart;
  }

  lemma FindStartBehind(x: seq<byte>, p: Payload, rest: seq<byte>)
    ensures FindStart(x + Encode(p) + rest, 0) == if START in x then FindStart(x, 0) else |x|
    ensures START in x ==> FindStart(x, 0) < |x|
    ensures |x| < |x + Encode(p) + rest|
  {
    hide Stuff, CheckBytes;
    var whole := x + Encode(p) + rest;
    assert whole[..|x|] == x && whole[|x|] == START;
    FindStartPrefix(whole, |x|, 0);
    if START !in x { FindStartAfterNoise(whole, |x|, 0); }
  }

  lemma StartBeforeVerdict(x: seq<byte>)
    requires Decode(x, PAYLOAD_SIZE).Consumes()
    ensures START in x
  {
    if START !in x { NoStartIsIncomplete(x, PAYLOAD_SIZE); }
  }

  lemma {:induction false} NegativeNever(input: seq<byte>, o: int)
    requires o < 0
    ensures !ReadsFrameAt(input, o)
    decreases |input|
  {
    hide DecodeAfterStart;
    match Decode(input, PAYLOAD_SIZE)
    case Complete(_, consumed) => NegativeNever(input[consumed..], o - consumed);
    case Malformed(consumed) => NegativeNever(input[consumed..], o - consumed);
    case _ =>
  }

  // Undamaged, both frames come through. With one bit of the first frame's length wrong, neither does: the
  // second, though intact, loses its START to the first.
  lemma OneBitLosesTheNextFrame(first: Payload, next: Payload)
    requires Stretchable(first) && |next| < 0x100
    ensures |Encode(first)| > 2 && |Encode(next)| >= 2
    ensures Cut(UplinkRule(), Encode(first) + Encode(next)) == Outcome([first, next], [])
    ensures Stretched(first) == Encode(first)[2 := (|first| + 2) as byte]
    ensures ToBits(|first| + 2, 8) == ToBits(|first|, 8)[6 := true] && Encode(first)[2] == |first| as byte
    ensures Cut(UplinkRule(), Stretched(first) + Encode(next)) == Outcome([], Encode(next)[2..])
  {
    hide Encode, Stretched, ToBits, UplinkRule, Cut;
    StretchedByOneBit(first);
    BothComeThrough(first, next);
    NeitherComesThrough(first, next);
  }

  lemma BothComeThrough(first: Payload, next: Payload)
    requires |first| <= PAYLOAD_SIZE && |next| <= PAYLOAD_SIZE
    ensures Cut(UplinkRule(), Encode(first) + Encode(next)) == Outcome([first, next], [])
  {
    hide Encode, Cut, UplinkRule;
    FrameIsTaken([], next, []);
    FrameIsTaken([], first, Encode(next));
    assert [] + Encode(first) + Encode(next) == Encode(first) + Encode(next);
    assert [] + Encode(next) + [] == Encode(next);
    NothingIsCut([]);
    assert [first] + ([next] + []) == [first, next];
  }

  lemma NeitherComesThrough(first: Payload, next: Payload)
    requires Stretchable(first) && |next| < 0x100
    ensures |Encode(next)| >= 2
    ensures Cut(UplinkRule(), Stretched(first) + Encode(next)) == Outcome([], Encode(next)[2..])
  {
    hide Encode, Stretched, Decode;
    StretchedSwallowsStart(first, next, [], PAYLOAD_SIZE);
    var damaged, rest := Stretched(first) + Encode(next), Encode(next)[2..];
    assert damaged + [] == damaged && damaged[|Stretched(first)| + 2..] == rest;
    forall i | 0 <= i < |rest| ensures rest[i] != START { StartOnlyInFront(next, i + 2); }
    NothingIsCut(rest);
    assert [] + Cut(UplinkRule(), rest).messages == [];
  }

  lemma NothingIsCut(noise: seq<byte>)
    requires START !in noise
    ensures Cut(UplinkRule(), noise) == Outcome([], noise)
  {
    NoStartIsIncomplete(noise, PAYLOAD_SIZE);
  }

  // ---- Frames too large for the gateway ----

  // A frame that declares more than 256 bytes empties the buffer as soon as its length is in, not before.
  lemma OversizedFrameResets(noise: seq<byte>, len: U16, more: seq<byte>)
    requires START !in noise && len > PAYLOAD_SIZE
    ensures Poll(UplinkRule(), OversizedHead(noise, len) + more) == Outcome([], [])
    ensures forall n :: 0 <= n < |OversizedHead(noise, len)| ==>
      var part := OversizedHead(noise, len)[..n]; Poll(UplinkRule(), part) == Outcome([], part)
  {
    hide Decode;
    OversizedIsTooSmall(noise, len, more, PAYLOAD_SIZE);
    forall n | 0 <= n < |OversizedHead(noise, len)|
      ensures Decode(OversizedHead(noise, len)[..n], PAYLOAD_SIZE) == Incomplete {
      OversizedNeedsItsLength(noise, len, n, PAYLOAD_SIZE);
    }
  }

  function OversizedHead(noise: seq<byte>, len: U16): seq<byte> {
    noise + [START] + Stuff(PutU16(len))
  }

  // What is left of a frame after its START contains no START, so it counts as noise before the next burst.
  function WithNoise(tail: seq<byte>, bursts: seq<Burst>): seq<Burst>
    requires START !in tail && bursts != []
  {
    [bursts[0].(noise := tail + bursts[0].noise)] + bursts[1..]
  }

  lemma NoiseInFront(tail: seq<byte>, bursts: seq<Burst>)
    requires START !in tail && bursts != []
    ensures Stream(UartSegments(WithNoise(tail, bursts))) == tail + Stream(UartSegments(bursts))
    ensures IntactPayloads(WithNoise(tail, bursts)) == IntactPayloads(bursts)
  {
    hide RawFrame, CheckMatches;
    var longer, later := WithNoise(tail, bursts), UartSegments(bursts[1..]);
    SegmentsInFront(longer[0], bursts[1..]);
    SegmentsInFront(bursts[0], bursts[1..]);
    assert longer[1..] == bursts[1..] && bursts == [bursts[0]] + bursts[1..];
    assert longer[0].Bytes() == tail + bursts[0].Bytes();
    Regroup(tail, bursts[0].Bytes(), Stream(later), longer[0].Bytes());
  }

  lemma SegmentsInFront(b: Burst, later: seq<Burst>)
    ensures Stream(UartSegments([b] + later)) == b.Bytes() + Stream(UartSegments(later))
  {
    hide RawFrame, CheckMatches;
    assert UartSegments([b] + later)[1..] == UartSegments(later);
  }

  // Main result: after a reset somewhere inside the oversized frame the loop can resynchronise, with nothing
  // further lost, if and only if what is left of that frame fits the buffer together with the next burst, and
  // each later burst fits it.
  lemma ResynchronisesIff(data: seq<byte>, dropped: nat, bursts: seq<Burst>)
    requires dropped <= |Stuff(data)| && bursts != []
    ensures START !in Stuff(data)[dropped..]
    ensures var tail := Stuff(data)[dropped..];
      var rest := WithNoise(tail, bursts);
      && Stream(UartSegments(rest)) == tail + Stream(UartSegments(bursts))
      && Messages(UartSegments(rest)) == IntactPayloads(bursts)
      && ((exists chunks :: Delivers(UplinkRule(), UART_BUF_SIZE, UartSegments(rest), chunks)) <==>
            && |tail| + |bursts[0].Bytes()| <= UART_BUF_SIZE
            && forall i :: 1 <= i < |bursts| ==> |bursts[i].Bytes()| <= UART_BUF_SIZE)
  {
    hide UplinkRule, Delivers, IntactPayloads, Messages, Stream, Stuff, LineBurst.Bytes, WithNoise;
    StuffHidesStart(data);
    var tail := Stuff(data)[dropped..];
    var rest := WithNoise(tail, bursts);
    NoiseInFront(tail, bursts);
    MessagesAreIntactPayloads(rest);
    UplinkDeliversIff(rest);
    RestFitsIff(tail, bursts);
  }

  lemma RestFitsIff(tail: seq<byte>, bursts: seq<Burst>)
    requires START !in tail && bursts != []
    ensures var rest := WithNoise(tail, bursts);
      (forall i :: 0 <= i < |rest| ==> |rest[i].Bytes()| <= UART_BUF_SIZE) <==>
      && |tail| + |bursts[0].Bytes()| <= UART_BUF_SIZE
      && forall i :: 1 <= i < |bursts| ==> |bursts[i].Bytes()| <= UART_BUF_SIZE
  {
    hide RawFrame;
    var rest := WithNoise(tail, bursts);
    assert rest[0].Bytes() == tail + bursts[0].Bytes();
    assert forall i :: 1 <= i < |bursts| ==> rest[i] == bursts[i];
  }

  // Main result: whatever else of the stream such a reset drops, only those bursts are lost whose START it has
  // dropped. What follows is again a stream of bursts, with the tail of the last one lost as noise in front.
  lemma {:induction false} ResumesAnywhere(bursts: seq<Burst>, dropped: nat)
      returns (tail: seq<byte>, rest: seq<Burst>, lost: nat)
    requires dropped <= |Stream(UartSegments(bursts))|
    ensures START !in tail && Stream(UartSegments(bursts))[dropped..] == tail + Stream(UartSegments(rest))
    ensures lost <= |bursts| && IntactPayloads(rest) == IntactPayloads(bursts[lost..])
    ensures lost > 0 ==> |Stream(UartSegments(bursts[..lost - 1]))| + |bursts[lost - 1].noise| < dropped
    ensures lost < |bursts| ==> dropped <= |Stream(UartSegments(bursts[..lost]))| + |bursts[lost].noise|
    decreases |bursts|
  {
    hide UartSegment, UartSegments, IntactPayloads, Stream, LineBurst.Bytes, Stuff, PutU16;
    if bursts == [] {
      NoBursts();
      tail, rest, lost := [], [], 0;
    } else {
      var b: Burst, later := bursts[0], bursts[1..];
      assert bursts == [b] + later && bursts[0..] == bursts && bursts[..0] == [] && bursts[..1] == [b] + [];
      NoBursts();
      SegmentsInFront(b, later);
      SegmentsInFront(b, []);
      BurstParts(b);
      var n := |b.Bytes()|;
      if dropped <= |b.noise| {
        var c: Burst := b.(noise := b.noise[dropped..]);
        tail, rest, lost := [], [c] + later, 0;
        NoiseCut(b, later, dropped);
      } else if dropped <= n {
        tail, rest, lost := b.Bytes()[dropped..], later, 1;
        TailHasNoStart(b, dropped);
      } else {
        var k;
        tail, rest, k := ResumesAnywhere(later, dropped - n);
        lost := k + 1;
        FrontOfMore(b, later, k);
        if k > 0 { FrontOfMore(b, later, k - 1); }
        assert bursts[lost..] == later[k..];
      }
    }
  }

  lemma NoBursts()
    ensures Stream(UartSegments([])) == []
  {
  }

  lemma BurstParts(b: Burst)
    ensures b.Bytes() == b.noise + [START] + Stuff(PutU16(|b.payload|) + b.payload + b.check)
  {
  }

  lemma NoiseCut(b: Burst, later: seq<Burst>, dropped: nat)
    requires dropped <= |b.noise|
    ensures var c: Burst := b.(noise := b.noise[dropped..]);
      && Stream(UartSegments([c] + later)) == Stream(UartSegments([b] + later))[dropped..]
      && IntactPayloads([c] + later) == IntactPayloads([b] + later)
  {
    hide RawFrame, CheckMatches;
    var c: Burst := b.(noise := b.noise[dropped..]);
    SegmentsInFront(b, later);
    SegmentsInFront(c, later);
    assert c.Bytes() == b.Bytes()[dropped..];
    assert ([c] + later)[1..] == later && ([b] + later)[1..] == later;
  }

  lemma TailHasNoStart(b: Burst, dropped: nat)
    requires |b.noise| < dropped <= |b.Bytes()|
    ensures START !in b.Bytes()[dropped..]
  {
    BurstParts(b);
    var stuffed := Stuff(PutU16(|b.payload|) + b.payload + b.check);
    StuffHidesStart(PutU16(|b.payload|) + b.payload + b.check);
    assert b.Bytes()[dropped..] == stuffed[dropped - |b.noise| - 1..];
  }

  lemma FrontOfMore(b: Burst, later: seq<Burst>, k: nat)
    requires k <= |later|
    ensures Stream(UartSegments(([b] + later)[..k + 1])) == b.Bytes() + Stream(UartSegments(later[..k]))
  {
    assert ([b] + later)[..k + 1] == [b] + later[..k];
    SegmentsInFront(b, later[..k]);
  }

  // When it does not: 256 bytes without a START in the buffer, and the loop waits for ever.
  lemma NoiseWedges(buf: seq<byte>, chunks: seq<seq<byte>>)
    requires |buf| == UART_BUF_SIZE && START !in buf && Fits(UplinkRule(), UART_BUF_SIZE, buf, chunks)
    ensures Flatten(chunks) == [] && Run(UplinkRule(), buf, chunks) == Outcome([], buf)
  {
    NoStartIsIncomplete(buf, PAYLOAD_SIZE);
    hide Decode;
    FullBufferWaitsForever(UplinkRule(), UART_BUF_SIZE, buf, chunks);
  }

  // ---- Frames too large for the gateway among others ----

  // A frame that fits, its check right or wrong, or one that declares more than 256 bytes; with the noise
  // in front of it.
  datatype Item = Fitting(burst: Burst) | Oversized(noise: seq<byte>, len: U16, data: seq<byte>) {
    predicate WellFormed() { Oversized? ==> START !in noise && len > PAYLOAD_SIZE }

    function Noise(): seq<byte> { if Fitting? then burst.noise else noise }

    function Body(): (b: seq<byte>)
      ensures b != [] && b[0] == START
    {
      if Fitting? then RawFrame(burst.payload, burst.check) else [START] + Stuff(PutU16(len) + data)
    }
  }

  type LineItem = i: Item | i.WellFormed() witness Oversized([], 257, [])

  function NoiseOf(items: seq<LineItem>): (noise: seq<byte>)
    ensures START !in noise
  {
    if items == [] then [] else items[0].Noise()
  }

  // The bytes of the items, with other noise in front of the first.
  function LineAfter(gap: seq<byte>, items: seq<LineItem>): seq<byte>
    decreases |items|
  {
    if items == [] then gap else gap + items[0].Body() + LineAfter(NoiseOf(items[1..]), items[1..])
  }

  // Where the START of item i is, if that of the first is at o.
  function StartAt(items: seq<LineItem>, o: int, i: nat): int
    requires i < |items|
    decreases i
  {
    if i == 0 then o else StartAt(items[1..], NextStart(items, o), i - 1)
  }

  function NextStart(items: seq<LineItem>, o: int): int
    requires items != []
  {
    o + |items[0].Body()| + |NoiseOf(items[1..])|
  }

  // A reset in the course of the run drops the byte at offset o from the front of the buffer.
  predicate DroppedAt(buf: seq<byte>, chunks: seq<seq<byte>>, o: int)
    decreases |chunks|
  {
    chunks != [] &&
    var topped := buf + chunks[0];
    var after := Poll(UplinkRule(), topped).buf;
    || (UplinkRule()(topped).Reset? && 0 <= o < |topped|)
    || DroppedAt(after, chunks[1..], o - (|topped| - |after|))
  }

  // What comes out for one item.
  function Out(item: LineItem, dropped: bool): seq<seq<byte>> {
    if item.Fitting? && item.burst.Intact() && !dropped then [item.burst.payload] else []
  }

  lemma DroppedIsNotOut(item: LineItem)
    ensures Out(item, true) == []
  {
  }

  // The intact payloads among the first k items, except those of which a reset has dropped the START.
  function Kept(buf: seq<byte>, chunks: seq<seq<byte>>, items: seq<LineItem>, o: int, k: nat): seq<seq<byte>>
    requires k <= |items|
    decreases k
  {
    if k == 0 then [] else
    Out(items[0], DroppedAt(buf, chunks, o)) + Kept(buf, chunks, items[1..], NextStart(items, o), k - 1)
  }

  lemma {:induction false} BeforeTheFront(buf: seq<byte>, chunks: seq<seq<byte>>, o: int)
    requires o < 0
    ensures !DroppedAt(buf, chunks, o)
    decreases |chunks|
  {
    hide Poll, UplinkRule;
    if chunks != [] {
      var after := Poll(UplinkRule(), buf + chunks[0]).buf;
      BeforeTheFront(after, chunks[1..], o - (|buf + chunks[0]| - |after|));
    }
  }

  // A poll without reset only moves the front.
  lemma {:induction false} KeptMovesOn(buf: seq<byte>, chunks: seq<seq<byte>>, items: seq<LineItem>, o: int, k: nat)
    requires chunks != [] && k <= |items|
    requires UplinkRule()(buf + chunks[0]).Reset? ==> o >= |buf + chunks[0]|
    ensures var topped := buf + chunks[0];
      var after := Poll(UplinkRule(), topped).buf;
      Kept(buf, chunks, items, o, k) == Kept(after, chunks[1..], items, o - (|topped| - |after|), k)
    decreases k
  {
    hide Poll, UplinkRule, Out, Item.Body;
    if k > 0 { KeptMovesOn(buf, chunks, items[1..], NextStart(items, o), k - 1); }
  }

  lemma {:induction false} KeptSkips(buf: seq<byte>, chunks: seq<seq<byte>>, items: seq<LineItem>, o: int, lost: nat,
      k: nat)
    requires lost + k <= |items| && forall i :: 0 <= i < lost ==> DroppedAt(buf, chunks, StartAt(items, o, i))
    ensures Kept(buf, chunks, items, o, lost + k) ==
      if k == 0 then [] else Kept(buf, chunks, items[lost..], StartAt(items, o, lost), k)
    decreases lost
  {
    hide DroppedAt, NextStart, Out;
    if lost == 0 {
      assert items[0..] == items;
    } else {
      var rest := items[1..];
      assert DroppedAt(buf, chunks, StartAt(items, o, 0));
      forall i | 0 <= i < lost - 1 ensures DroppedAt(buf, chunks, StartAt(rest, NextStart(items, o), i)) {
        assert StartAt(items, o, i + 1) == StartAt(rest, NextStart(items, o), i);
      }
      KeptSkips(buf, chunks, rest, NextStart(items, o), lost - 1, k);
      DroppedIsNotOut(items[0]);
      assert rest[lost - 1..] == items[lost..];
    }
  }

  // Dropping d bytes leaves these bytes in front of a START, and loses that many items.
  function Dropping(gap: seq<byte>, items: seq<LineItem>, d: nat): (r: (seq<byte>, nat))
    ensures r.1 <= |items|
    decreases |items|
  {
    if d <= |gap| then (gap[d..], 0)
    else if items == [] then ([], 0)
    else
      var body, noise, rest := items[0].Body(), NoiseOf(items[1..]), items[1..];
      if d <= |gap| + |body| then (body[d - |gap|..] + noise, 1)
      else
        var later := Dropping(noise, rest, d - |gap| - |body|);
        (later.0, later.1 + 1)
  }

  // Dropping d bytes loses the items whose START is among them.
  lemma {:induction false} AfterDropping(gap: seq<byte>, items: seq<LineItem>, d: nat)
      returns (gap': seq<byte>, lost: nat)
    requires START !in gap && d <= |LineAfter(gap, items)|
    ensures START !in gap' && lost <= |items| && LineAfter(gap, items)[d..] == LineAfter(gap', items[lost..])
    ensures forall i :: 0 <= i < lost ==> StartAt(items, |gap|, i) < d
    ensures (gap', lost) == Dropping(gap, items, d)
    ensures lost < |items| ==> StartAt(items, |gap|, lost) == d + |gap'|
    decreases |items|
  {
    hide Item.Body;
    assert items[0..] == items;
    if d <= |gap| {
      gap', lost := gap[d..], 0;
      DropFromGap(gap, items, d);
    } else {
      var body, noise, rest := items[0].Body(), NoiseOf(items[1..]), items[1..];
      var later := LineAfter(noise, rest);
      if d <= |gap| + |body| {
        gap', lost := body[d - |gap|..] + noise, 1;
        BodyTail(items[0], d - |gap|);
        DropFromBody(gap, body, noise, rest, d);
      } else {
        var n := |gap| + |body|;
        var before;
        gap', before := AfterDropping(noise, rest, d - n);
        lost := before + 1;
        DropBoth(gap, body, later, d);
        assert items[lost..] == rest[before..];
        StartsShift(items, noise, |gap|, before, d, n);
      }
    }
  }

  lemma DropBoth(gap: seq<byte>, body: seq<byte>, later: seq<byte>, d: nat)
    requires |gap| + |body| <= d <= |gap| + |body| + |later|
    ensures (gap + body + later)[d..] == later[d - |gap| - |body|..]
  {
  }

  lemma DropFromGap(gap: seq<byte>, items: seq<LineItem>, d: nat)
    requires d <= |gap|
    ensures LineAfter(gap, items)[d..] == LineAfter(gap[d..], items)
  {
    hide Item.Body;
    if items != [] {
      var more := items[0].Body() + LineAfter(NoiseOf(items[1..]), items[1..]);
      assert LineAfter(gap, items) == gap + more;
      assert LineAfter(gap[d..], items) == gap[d..] + more;
    }
  }

  lemma DropFromBody(gap: seq<byte>, body: seq<byte>, noise: seq<byte>, rest: seq<LineItem>, d: nat)
    requires |gap| < d <= |gap| + |body|
    ensures (gap + body + LineAfter(noise, rest))[d..] == LineAfter(body[d - |gap|..] + noise, rest)
  {
    hide Item.Body;
    var tail := body[d - |gap|..];
    assert (gap + body + LineAfter(noise, rest))[d..] == tail + LineAfter(noise, rest);
    GapGrows(tail, noise, rest);
  }

  lemma GapGrows(tail: seq<byte>, noise: seq<byte>, items: seq<LineItem>)
    ensures tail + LineAfter(noise, items) == LineAfter(tail + noise, items)
  {
    hide LineAfter, Item.Body;
    LineParts(noise, items);
    LineParts(tail + noise, items);
    if items != [] { Reassociate(tail, noise, items[0].Body() + LineAfter(NoiseOf(items[1..]), items[1..])); }
  }

  lemma LineParts(gap: seq<byte>, items: seq<LineItem>)
    ensures LineAfter(gap, items) ==
      if items == [] then gap else gap + (items[0].Body() + LineAfter(NoiseOf(items[1..]), items[1..]))
  {
    hide Item.Body;
    if items != [] { Reassociate(gap, items[0].Body(), LineAfter(NoiseOf(items[1..]), items[1..])); }
  }

  lemma StartsShift(items: seq<LineItem>, noise: seq<byte>, o: nat, before: nat, d: nat, n: nat)
    requires items != [] && noise == NoiseOf(items[1..]) && before < |items| && n == o + |items[0].Body()| < d
    requires forall i :: 0 <= i < before ==> StartAt(items[1..], |noise|, i) < d - n
    ensures forall i :: 0 <= i < before + 1 ==> StartAt(items, o, i) < d
    ensures before + 1 < |items| ==> StartAt(items, o, before + 1) == n + StartAt(items[1..], |noise|, before)
  {
    hide Item.Body;
    forall i | 0 <= i < before + 1 ensures StartAt(items, o, i) < d {
      if i > 0 { StartMoves(items[1..], |noise|, n, i - 1); }
    }
    if before + 1 < |items| { StartMoves(items[1..], |noise|, n, before); }
  }

  lemma {:induction false} StartMoves(items: seq<LineItem>, o: int, n: int, i: nat)
    requires i < |items|
    ensures StartAt(items, n + o, i) == n + StartAt(items, o, i)
    decreases i
  {
    hide Item.Body;
    if i > 0 { StartMoves(items[1..], NextStart(items, o), n, i - 1); }
  }

  lemma BodyTail(item: LineItem, d: nat)
    requires 0 < d <= |item.Body()|
    ensures START !in item.Body()[d..]
  {
    hide Stuff, PutU16;
    if item.Fitting? {
      StuffedTail(PutU16(|item.burst.payload|) + item.burst.payload + item.burst.check, d);
    } else {
      StuffedTail(PutU16(item.len) + item.data, d);
    }
  }

  lemma StuffedTail(data: seq<byte>, d: nat)
    requires 0 < d <= 1 + |Stuff(data)|
    ensures START !in ([START] + Stuff(data))[d..]
  {
    StuffHidesStart(data);
    assert ([START] + Stuff(data))[d..] == Stuff(data)[d - 1..];
  }

  // What the rule makes of the front of such a line: how many bytes it takes, if they are there.
  function Needs(gap: seq<byte>, item: LineItem): nat {
    |gap| + if item.Fitting? then |item.Body()| else 1 + |Stuff(PutU16(item.len))|
  }

  lemma FrontOfLine(gap: seq<byte>, item: LineItem, buf: seq<byte>, ahead: seq<byte>, later: seq<byte>)
    requires START !in gap && buf + ahead == gap + item.Body() + later
    ensures Needs(gap, item) <= |gap + item.Body()|
    ensures
      if |buf| < Needs(gap, item) then UplinkRule()(buf).Wait?
      else if item.Oversized? then UplinkRule()(buf).Reset?
      else UplinkRule()(buf) == Take(Needs(gap, item), if item.burst.Intact() then Some(item.burst.payload) else None)
  {
    hide UplinkRule, RawFrame, Stuff, PutU16, LineBurst.Intact;
    if item.Fitting? {
      FrameInFront(gap, item.burst, buf, ahead, later);
    } else {
      HeadInFront(gap, item.len, buf, ahead, item.data, later);
    }
  }

  lemma FrameInFront(gap: seq<byte>, b: Burst, buf: seq<byte>, ahead: seq<byte>, later: seq<byte>)
    requires START !in gap && buf + ahead == gap + RawFrame(b.payload, b.check) + later
    ensures var n := |gap| + |RawFrame(b.payload, b.check)|;
      if |buf| < n then UplinkRule()(buf).Wait?
      else UplinkRule()(buf) == Take(n, if b.Intact() then Some(b.payload) else None)
  {
    hide Decode, RawFrame, CheckMatches, PutU16;
    var whole := buf + ahead;
    DecodeRawFrame(gap, b.payload, b.check, later, PAYLOAD_SIZE);
    VerdictOfPrefix(whole, |buf|, PAYLOAD_SIZE);
    assert whole[..|buf|] == buf;
  }

  lemma HeadInFront(gap: seq<byte>, len: U16, buf: seq<byte>, ahead: seq<byte>, data: seq<byte>, later: seq<byte>)
    requires START !in gap && len > PAYLOAD_SIZE && buf + ahead == gap + ([START] + Stuff(PutU16(len) + data)) + later
    ensures Stuff(PutU16(len)) <= Stuff(PutU16(len) + data)
    ensures var n := |gap| + 1 + |Stuff(PutU16(len))|;
      if |buf| < n then UplinkRule()(buf).Wait? else UplinkRule()(buf).Reset?
  {
    hide Decode, Stuff, PutU16;
    var head, whole := gap + [START] + Stuff(PutU16(len)), buf + ahead;
    StuffConcat(PutU16(len), data);
    assert whole == head + (Stuff(data) + later);
    if |buf| < |head| {
      assert buf == whole[..|buf|] == head[..|buf|];
      OversizedNeedsItsLength(gap, len, |buf|, PAYLOAD_SIZE);
    } else {
      assert buf[..|head|] == whole[..|head|] == head;
      assert buf == head + buf[|head|..];
      OversizedIsTooSmall(gap, len, buf[|head|..], PAYLOAD_SIZE);
    }
  }

  // Main result: on a line with frames of both kinds, at every moment of every run, exactly those payloads
  // among the first k items have come out that are intact and whose START no reset has dropped; what is
  // buffered and to come is the rest of the line.
  lemma {:induction false} MixedRun(gap: seq<byte>, items: seq<LineItem>, buf: seq<byte>, chunks: seq<seq<byte>>,
      ahead: seq<byte>) returns (k: nat, gap': seq<byte>)
    requires START !in gap && buf + Flatten(chunks) + ahead == LineAfter(gap, items)
    ensures k <= |items| && START !in gap'
    ensures Run(UplinkRule(), buf, chunks).messages == Kept(buf, chunks, items, |gap|, k)
    ensures Run(UplinkRule(), buf, chunks).buf + ahead == LineAfter(gap', items[k..])
    decreases |chunks|
  {
    hide UplinkRule, Poll, LineAfter, DroppedAt, Kept, Needs, Item.Body, Out;
    if chunks == [] {
      k, gap' := 0, gap;
      assert buf + Flatten(chunks) == buf && items[0..] == items;
      NothingKept(buf, chunks, items, |gap|);
    } else {
      var topped, later := buf + chunks[0], Flatten(chunks[1..]);
      Regroup(buf, chunks[0], later, topped);
      Regroup(topped, later, ahead, topped + later);
      var after := Poll(UplinkRule(), topped).buf;
      if items == [] || |topped| < Needs(gap, items[0]) {
        NotYet(gap, items, topped, later + ahead);
        k, gap' := MixedRun(gap, items, topped, chunks[1..], ahead);
        KeptMovesOn(buf, chunks, items, |gap|, k);
      } else if items[0].Fitting? {
        var rest := items[1..];
        TakesFrame(gap, items, topped, later + ahead);
        Regroup(after, later, ahead, after + later);
        var k0;
        k0, gap' := MixedRun(NoiseOf(rest), rest, after, chunks[1..], ahead);
        k := k0 + 1;
        KeptTakes(gap, items, buf, chunks, k0);
        assert rest[k0..] == items[k..];
      } else {
        ResetsAt(gap, items, topped, later + ahead);
        var lost, k0, gap1;
        gap1, lost := AfterDropping(gap, items, |topped|);
        assert [] + later + ahead == later + ahead == LineAfter(gap, items)[|topped|..];
        k0, gap' := MixedRun(gap1, items[lost..], [], chunks[1..], ahead);
        k := lost + k0;
        KeptAfterReset(gap, items, buf, chunks, gap1, lost, k0);
        assert items[lost..][k0..] == items[k..];
      }
    }
  }

  lemma NotYet(gap: seq<byte>, items: seq<LineItem>, topped: seq<byte>, ahead: seq<byte>)
    requires START !in gap && topped + ahead == LineAfter(gap, items)
    requires items != [] ==> |topped| < Needs(gap, items[0])
    ensures UplinkRule()(topped).Wait? && Poll(UplinkRule(), topped) == Outcome([], topped)
  {
    hide UplinkRule, Needs, Item.Body;
    if items == [] {
      assert topped == (topped + ahead)[..|topped|] == gap[..|topped|];
      NoiseWaits(topped);
    } else {
      var later := LineAfter(NoiseOf(items[1..]), items[1..]);
      FrontOfLine(gap, items[0], topped, ahead, later);
    }
  }

  lemma NoiseWaits(noise: seq<byte>)
    requires START !in noise
    ensures UplinkRule()(noise).Wait?
  {
    NoStartIsIncomplete(noise, PAYLOAD_SIZE);
  }

  lemma TakesFrame(gap: seq<byte>, items: seq<LineItem>, topped: seq<byte>, ahead: seq<byte>)
    requires START !in gap && topped + ahead == LineAfter(gap, items)
    requires items != [] && items[0].Fitting? && |topped| >= Needs(gap, items[0])
    ensures var n := |gap| + |items[0].Body()|;
      && n <= |topped| && !UplinkRule()(topped).Reset?
      && Poll(UplinkRule(), topped) == Outcome(Out(items[0], false), topped[n..])
      && topped[n..] + ahead == LineAfter(NoiseOf(items[1..]), items[1..])
  {
    hide UplinkRule, Item.Body, LineBurst.Intact, Needs, Poll, Out, LineAfter, NoiseOf;
    var item, later := items[0], LineAfter(NoiseOf(items[1..]), items[1..]);
    LineParts(gap, items);
    Reassociate(gap, item.Body(), later);
    FrontOfLine(gap, item, topped, ahead, later);
    NeedsWhole(gap, item);
    PollOfTake(topped, Needs(gap, item), item);
    BehindTheFront(gap + item.Body(), later, topped, ahead);
  }

  lemma BehindTheFront(front: seq<byte>, later: seq<byte>, topped: seq<byte>, ahead: seq<byte>)
    requires topped + ahead == front + later && |front| <= |topped|
    ensures topped[|front|..] + ahead == later
  {
    assert topped[|front|..] + ahead == (topped + ahead)[|front|..];
  }

  lemma PollOfTake(topped: seq<byte>, n: nat, item: LineItem)
    requires n <= |topped| && item.Fitting?
    requires UplinkRule()(topped) == Take(n, if item.burst.Intact() then Some(item.burst.payload) else None)
    ensures Poll(UplinkRule(), topped) == Outcome(Out(item, false), topped[n..])
  {
    hide UplinkRule, LineBurst.Intact;
  }

  lemma NeedsWhole(gap: seq<byte>, item: LineItem)
    requires item.Fitting?
    ensures Needs(gap, item) == |gap| + |item.Body()|
  {
  }

  lemma ResetsAt(gap: seq<byte>, items: seq<LineItem>, topped: seq<byte>, ahead: seq<byte>)
    requires START !in gap && topped + ahead == LineAfter(gap, items)
    requires items != [] && items[0].Oversized? && |topped| >= Needs(gap, items[0])
    ensures UplinkRule()(topped).Reset? && Poll(UplinkRule(), topped) == Outcome([], [])
    ensures |topped| <= |LineAfter(gap, items)| && ahead == LineAfter(gap, items)[|topped|..]
  {
    hide UplinkRule, Item.Body;
    FrontOfLine(gap, items[0], topped, ahead, LineAfter(NoiseOf(items[1..]), items[1..]));
    assert (topped + ahead)[|topped|..] == ahead;
  }

  lemma KeptTakes(gap: seq<byte>, items: seq<LineItem>, buf: seq<byte>, chunks: seq<seq<byte>>, k: nat)
    requires items != [] && items[0].Fitting? && k < |items| && chunks != []
    requires var topped, n := buf + chunks[0], |gap| + |items[0].Body()|;
      !UplinkRule()(topped).Reset? && n <= |topped| && Poll(UplinkRule(), topped).buf == topped[n..]
    ensures var after := Poll(UplinkRule(), buf + chunks[0]).buf;
      Kept(buf, chunks, items, |gap|, k + 1) ==
        Out(items[0], false) + Kept(after, chunks[1..], items[1..], |NoiseOf(items[1..])|, k)
  {
    hide UplinkRule, Poll, Out, Item.Body, DroppedAt;
    BodyIsNonempty(items[0]);
    TakenIsNotDropped(buf, chunks, |gap|);
    KeptMovesOn(buf, chunks, items[1..], NextStart(items, |gap|), k);
  }

  lemma TakenIsNotDropped(buf: seq<byte>, chunks: seq<seq<byte>>, o: int)
    requires chunks != [] && !UplinkRule()(buf + chunks[0]).Reset?
    requires o < |buf + chunks[0]| - |Poll(UplinkRule(), buf + chunks[0]).buf|
    ensures !DroppedAt(buf, chunks, o)
  {
    hide UplinkRule, Poll;
    var topped := buf + chunks[0];
    var after := Poll(UplinkRule(), topped).buf;
    BeforeTheFront(after, chunks[1..], o - (|topped| - |after|));
  }

  lemma BodyIsNonempty(item: LineItem)
    ensures item.Body() != []
  {
  }

  lemma KeptAfterReset(gap: seq<byte>, items: seq<LineItem>, buf: seq<byte>, chunks: seq<seq<byte>>,
      gap1: seq<byte>, lost: nat, k: nat)
    requires chunks != [] && lost + k <= |items| && UplinkRule()(buf + chunks[0]).Reset?
    requires forall i :: 0 <= i < lost ==> StartAt(items, |gap|, i) < |buf + chunks[0]|
    requires lost < |items| ==> StartAt(items, |gap|, lost) == |buf + chunks[0]| + |gap1|
    ensures Kept(buf, chunks, items, |gap|, lost + k) == Kept([], chunks[1..], items[lost..], |gap1|, k)
  {
    hide Kept, StartAt;
    forall i | 0 <= i < lost ensures DroppedAt(buf, chunks, StartAt(items, |gap|, i)) {
      StartsLater(items, |gap|, i);
      ResetDrops(buf, chunks, StartAt(items, |gap|, i));
    }
    hide DroppedAt;
    KeptSkips(buf, chunks, items, |gap|, lost, k);
    NothingKept([], chunks[1..], items[lost..], |gap1|);
    ResetLeavesNothing(buf + chunks[0]);
    if k > 0 { KeptMovesOn(buf, chunks, items[lost..], StartAt(items, |gap|, lost), k); }
  }

  lemma ResetDrops(buf: seq<byte>, chunks: seq<seq<byte>>, o: int)
    requires chunks != [] && UplinkRule()(buf + chunks[0]).Reset? && 0 <= o < |buf + chunks[0]|
    ensures DroppedAt(buf, chunks, o)
  {
  }

  lemma ResetLeavesNothing(topped: seq<byte>)
    requires UplinkRule()(topped).Reset?
    ensures Poll(UplinkRule(), topped) == Outcome([], [])
  {
  }

  lemma {:induction false} StartsLater(items: seq<LineItem>, o: nat, i: nat)
    requires i < |items|
    ensures StartAt(items, o, i) >= o
    decreases i
  {
    hide Item.Body;
    if i > 0 { StartsLater(items[1..], NextStart(items, o), i - 1); }
  }

  lemma NothingKept(buf: seq<byte>, chunks: seq<seq<byte>>, items: seq<LineItem>, o: int)
    ensures Kept(buf, chunks, items, o, 0) == []
  {
  }

  // In terms of the loop.
  lemma MixedLine(v: View, core: seq<seq<byte>>, t: Trace, gap: seq<byte>, items: seq<LineItem>)
      returns (k: nat, gap': seq<byte>)
    requires START !in gap && Tracks(v, LineAfter(gap, items), core, t)
    ensures k <= |items| && START !in gap'
    ensures v.forwarded == Kept([], t.chunks, items, |gap|, k)
    ensures v.received + t.left == LineAfter(gap', items[k..])
  {
    hide UplinkRule, Run, Flatten, Fits, SessionsTracked, Kept, LineAfter;
    assert [] + Flatten(t.chunks) == Flatten(t.chunks);
    k, gap' := MixedRun(gap, items, [], t.chunks, t.left);
  }

  // ---- When the loop gets to the end of such a line ----

  // However much each reset drops, the buffer holds what it takes to get past the next item.
  predicate Reaches(gap: seq<byte>, items: seq<LineItem>)
    decreases |items|
  {
    if items == [] then |gap| <= UART_BUF_SIZE else
    && Needs(gap, items[0]) <= UART_BUF_SIZE
    && if items[0].Fitting? then Reaches(NoiseOf(items[1..]), items[1..])
       else
         forall d :: Needs(gap, items[0]) <= d <= UART_BUF_SIZE && d <= |LineAfter(gap, items)| ==>
           Dropping(gap, items, d).1 > 0 ==> Reaches(Dropping(gap, items, d).0, items[Dropping(gap, items, d).1..])
  }

  lemma ResetLoses(gap: seq<byte>, items: seq<LineItem>, d: nat)
    requires items != [] && items[0].Oversized? && Needs(gap, items[0]) <= d
    ensures Dropping(gap, items, d).1 > 0
  {
    hide Item.Body, Stuff;
  }

  lemma ReachesOn(gap: seq<byte>, items: seq<LineItem>, d: nat)
    requires Reaches(gap, items) && items != [] && items[0].Oversized?
    requires Needs(gap, items[0]) <= d <= UART_BUF_SIZE && d <= |LineAfter(gap, items)|
    ensures var (rest, lost) := Dropping(gap, items, d); 0 < lost <= |items| && Reaches(rest, items[lost..])
  {
    hide Item.Body, LineAfter, Needs;
    ResetLoses(gap, items, d);
    hide Dropping;
    assert Dropping(gap, items, d).1 > 0;
  }

  // Progress: then every run ends with the whole line read and nothing but noise in the buffer.
  lemma {:induction false} EveryMixedRunEnds(gap: seq<byte>, items: seq<LineItem>, buf: seq<byte>, left: seq<byte>,
      amounts: seq<nat>)
    requires START !in gap && buf + left == LineAfter(gap, items) && |buf| <= UART_BUF_SIZE && Reaches(gap, items)
    requires Busy(amounts) >= |left| + |items|
    ensures var chunks := Reads(UplinkRule(), UART_BUF_SIZE, buf, left, amounts);
      Flatten(chunks) == left && START !in Run(UplinkRule(), buf, chunks).buf
    decreases |amounts|
  {
    hide UplinkRule, Poll, LineAfter, Needs, Item.Body, Reaches, Dropping;
    if amounts == [] {
      NothingLeft(gap, items);
      assert buf + left == buf;
    } else {
      var n := Readable(UART_BUF_SIZE, buf, left, amounts[0]);
      var chunk, later := left[..n], left[n..];
      var topped := buf + chunk;
      assert left == chunk + later;
      Regroup(buf, chunk, later, topped);
      var after := Poll(UplinkRule(), topped).buf;
      if items == [] || |topped| < Needs(gap, items[0]) {
        NotYet(gap, items, topped, later);
        StillRoom(gap, items, topped, later);
        EveryMixedRunEnds(gap, items, topped, later, amounts[1..]);
      } else if items[0].Fitting? {
        TakesFrame(gap, items, topped, later);
        ReachesRest(gap, items);
        EveryMixedRunEnds(NoiseOf(items[1..]), items[1..], after, later, amounts[1..]);
      } else {
        ResetsAt(gap, items, topped, later);
        ReachesOn(gap, items, |topped|);
        var gap1, lost := AfterDropping(gap, items, |topped|);
        assert [] + later == LineAfter(gap1, items[lost..]);
        EveryMixedRunEnds(gap1, items[lost..], [], later, amounts[1..]);
      }
    }
  }

  lemma NothingLeft(gap: seq<byte>, items: seq<LineItem>)
    ensures items == [] ==> LineAfter(gap, items) == gap
  {
  }

  lemma ReachesRest(gap: seq<byte>, items: seq<LineItem>)
    requires Reaches(gap, items) && items != [] && items[0].Fitting?
    ensures Reaches(NoiseOf(items[1..]), items[1..])
  {
  }

  // A poll that takes nothing leaves room, and with nothing more to come it is the end.
  lemma StillRoom(gap: seq<byte>, items: seq<LineItem>, topped: seq<byte>, later: seq<byte>)
    requires START !in gap && topped + later == LineAfter(gap, items) && Reaches(gap, items)
    requires items != [] ==> |topped| < Needs(gap, items[0])
    ensures later == [] ==> items == []
    ensures later != [] ==> |topped| < UART_BUF_SIZE
  {
    hide Item.Body, Reaches;
    if items != [] {
      NeedsPart(gap, items);
      ReachesNeeds(gap, items);
    } else {
      ReachesNeeds(gap, items);
    }
  }

  lemma ReachesNeeds(gap: seq<byte>, items: seq<LineItem>)
    requires Reaches(gap, items)
    ensures if items == [] then |gap| <= UART_BUF_SIZE else Needs(gap, items[0]) <= UART_BUF_SIZE
  {
  }

  lemma NeedsPart(gap: seq<byte>, items: seq<LineItem>)
    requires items != []
    ensures Needs(gap, items[0]) <= |LineAfter(gap, items)|
  {
    if items[0].Oversized? { StuffConcat(PutU16(items[0].len), items[0].data); }
  }

  // The run that reads these chunks of the line is stuck: more is to come, and there is no room for it ever.
  ghost predicate Sticks(gap: seq<byte>, items: seq<LineItem>, chunks: seq<seq<byte>>, ahead: seq<byte>) {
    && Flatten(chunks) + ahead == LineAfter(gap, items) && ahead != []
    && Fits(UplinkRule(), UART_BUF_SIZE, [], chunks)
    && var buf := Run(UplinkRule(), [], chunks).buf; |buf| == UART_BUF_SIZE && UplinkRule()(buf).Wait?
  }

  lemma {:induction false} SomeRunSticks(gap: seq<byte>, items: seq<LineItem>)
      returns (chunks: seq<seq<byte>>, ahead: seq<byte>)
    requires START !in gap && !Reaches(gap, items)
    ensures Sticks(gap, items, chunks, ahead)
    decreases |items|
  {
    hide UplinkRule, Item.Body, Sticks, LineAfter, Needs, Poll;
    if items == [] || Needs(gap, items[0]) > UART_BUF_SIZE {
      chunks, ahead := FullAtOnce(gap, items);
    } else if items[0].Fitting? {
      var later;
      later, ahead := SomeRunSticks(NoiseOf(items[1..]), items[1..]);
      chunks := SticksPastFrame(gap, items, later, ahead);
    } else {
      var d :| Needs(gap, items[0]) <= d <= UART_BUF_SIZE && d <= |LineAfter(gap, items)|
        && Dropping(gap, items, d).1 > 0 && !Reaches(Dropping(gap, items, d).0, items[Dropping(gap, items, d).1..]);
      var gap1, lost := AfterDropping(gap, items, d);
      var later;
      later, ahead := SomeRunSticks(gap1, items[lost..]);
      chunks := SticksPastReset(gap, items, d, gap1, items[lost..], later, ahead);
    }
  }

  lemma SticksPastFrame(gap: seq<byte>, items: seq<LineItem>, later: seq<seq<byte>>, ahead: seq<byte>)
      returns (chunks: seq<seq<byte>>)
    requires START !in gap && items != [] && items[0].Fitting? && Needs(gap, items[0]) <= UART_BUF_SIZE
    requires Sticks(NoiseOf(items[1..]), items[1..], later, ahead)
    ensures Sticks(gap, items, chunks, ahead)
  {
    hide UplinkRule, Item.Body, Sticks, LineAfter, Needs, Poll;
    var line, n := LineAfter(gap, items), Needs(gap, items[0]);
    NeedsPart(gap, items);
    NeedsWhole(gap, items[0]);
    var front, back := line[..n], line[n..];
    assert front + back == line && front[n..] == [] && [] + back == back;
    hide NoiseOf, Out;
    TakesFrame(gap, items, front, back);
    chunks := [front] + later;
    SticksLater(gap, items, front, NoiseOf(items[1..]), items[1..], later, ahead);
  }

  lemma SticksPastReset(gap: seq<byte>, items: seq<LineItem>, d: nat, gap1: seq<byte>, items1: seq<LineItem>,
      later: seq<seq<byte>>, ahead: seq<byte>) returns (chunks: seq<seq<byte>>)
    requires START !in gap && items != [] && items[0].Oversized?
    requires Needs(gap, items[0]) <= d <= UART_BUF_SIZE && d <= |LineAfter(gap, items)|
    requires LineAfter(gap, items)[d..] == LineAfter(gap1, items1) && Sticks(gap1, items1, later, ahead)
    ensures Sticks(gap, items, chunks, ahead)
  {
    hide UplinkRule, Item.Body, Sticks, LineAfter, Needs, Poll;
    var line := LineAfter(gap, items);
    assert line[..d] + line[d..] == line;
    ResetsAt(gap, items, line[..d], line[d..]);
    chunks := [line[..d]] + later;
    SticksLater(gap, items, line[..d], gap1, items1, later, ahead);
  }

  // The first 256 bytes are not enough to get past the first item, or all noise.
  lemma FullAtOnce(gap: seq<byte>, items: seq<LineItem>) returns (chunks: seq<seq<byte>>, ahead: seq<byte>)
    requires START !in gap
    requires if items == [] then |gap| > UART_BUF_SIZE else Needs(gap, items[0]) > UART_BUF_SIZE
    ensures Sticks(gap, items, chunks, ahead)
  {
    hide UplinkRule, Item.Body, Needs;
    var line := LineAfter(gap, items);
    if items != [] { NeedsPart(gap, items); }
    var front := line[..UART_BUF_SIZE];
    chunks, ahead := [front], line[UART_BUF_SIZE..];
    assert front + ahead == line;
    NotYet(gap, items, front, ahead);
    OneWaitingChunk(front);
  }

  lemma OneWaitingChunk(front: seq<byte>)
    requires |front| <= UART_BUF_SIZE && UplinkRule()(front).Wait?
    ensures Flatten([front]) == front && Fits(UplinkRule(), UART_BUF_SIZE, [], [front])
    ensures Run(UplinkRule(), [], [front]).buf == front
  {
    hide UplinkRule;
    var chunks := [front];
    assert chunks[1..] == [] && [] + front == front && front + [] == front;
  }

  lemma SticksLater(gap: seq<byte>, items: seq<LineItem>, chunk: seq<byte>, gap1: seq<byte>, items1: seq<LineItem>,
      later: seq<seq<byte>>, ahead: seq<byte>)
    requires |chunk| <= UART_BUF_SIZE && Poll(UplinkRule(), chunk).buf == []
    requires LineAfter(gap, items) == chunk + LineAfter(gap1, items1) && Sticks(gap1, items1, later, ahead)
    ensures Sticks(gap, items, [chunk] + later, ahead)
  {
    hide UplinkRule, Poll, LineAfter;
    var chunks := [chunk] + later;
    assert chunks[1..] == later && [] + chunk == chunk;
    Regroup(chunk, Flatten(later), ahead, Flatten(chunks));
  }

  // Main result: every run gets to the end of the line, with enough turns that read anything, if and only if
  // the buffer is large enough at every point; otherwise some run is stuck for ever.
  lemma MixedLineEndsIff(gap: seq<byte>, items: seq<LineItem>)
    requires START !in gap
    ensures Reaches(gap, items) <==> !exists chunks, ahead :: Sticks(gap, items, chunks, ahead)
  {
    hide Sticks, Reaches;
    if Reaches(gap, items) {
      forall chunks, ahead ensures !Sticks(gap, items, chunks, ahead) {
        if Sticks(gap, items, chunks, ahead) { NeverBoth(gap, items, chunks, ahead); }
      }
    } else {
      var chunks, ahead := SomeRunSticks(gap, items);
    }
  }

  lemma NeverBoth(gap: seq<byte>, items: seq<LineItem>, chunks: seq<seq<byte>>, ahead: seq<byte>)
    requires START !in gap && Reaches(gap, items)
    ensures !Sticks(gap, items, chunks, ahead)
  {
    hide UplinkRule, LineAfter, Reaches;
    if Sticks(gap, items, chunks, ahead) {
      var line, buf := LineAfter(gap, items), Run(UplinkRule(), [], chunks).buf;
      var more := AlwaysBusy(|line| + |items|);
      ReadsAreChunks(UplinkRule(), UART_BUF_SIZE, [], chunks, ahead, more);
      assert [] + line == line;
      BusyConcat(Lengths(chunks), more);
      EveryMixedRunEnds(gap, items, [], line, Lengths(chunks) + more);
      var later := Reads(UplinkRule(), UART_BUF_SIZE, buf, ahead, more);
      ReadsFit(UplinkRule(), UART_BUF_SIZE, buf, ahead, more);
      FullBufferWaitsForever(UplinkRule(), UART_BUF_SIZE, buf, later);
      FlattenConcat(chunks, later);
    }
  }

  // In terms of the loop.
  lemma MixedLineProgresses(v: View, core: seq<seq<byte>>, t: Trace, gap: seq<byte>, items: seq<LineItem>,
      amounts: seq<nat>)
    requires START !in gap && Tracks(v, LineAfter(gap, items), core, t) && Reaches(gap, items)
    requires t.chunks == Reads(UplinkRule(), UART_BUF_SIZE, [], LineAfter(gap, items), amounts)
    requires Busy(amounts) >= |LineAfter(gap, items)| + |items|
    ensures t.left == [] && START !in v.received
    ensures v.forwarded == Kept([], t.chunks, items, |gap|, |items|)
  {
    hide UplinkRule, Run, Flatten, Fits, SessionsTracked, Kept, LineAfter, Reaches, Reads;
    assert [] + LineAfter(gap, items) == LineAfter(gap, items);
    EveryMixedRunEnds(gap, items, [], LineAfter(gap, items), amounts);
    var k, gap' := MixedLine(v, core, t, gap, items);
    assert v.received + [] == v.received;
    OnlyNoise(gap', items[k..]);
  }

  lemma OnlyNoise(gap: seq<byte>, items: seq<LineItem>)
    requires START !in LineAfter(gap, items)
    ensures items == []
  {
  }
}
