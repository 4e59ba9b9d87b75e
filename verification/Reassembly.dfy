/**
 A bounded receive buffer that is topped up by whatever has arrived and then looked at once per
 poll. Both buffers of lnc_bridge work this way, each with its own rule for cutting off the front.
 */
module Reassembly {
  import opened Bytes
  import opened Wrappers

  // What one look at the buffer decides.
  datatype Action<+T> = Wait | Take(n: nat, message: Option<T>) | Reset

  datatype Outcome<+T> = Outcome(messages: seq<T>, buf: seq<byte>)

  function Listed<T>(m: Option<T>): seq<T> {
    match m case None => [] case Some(v) => [v]
  }

  function Poll<T>(parse: seq<byte> -> Action<T>, buf: seq<byte>): (after: Outcome<T>)
    ensures |after.buf| <= |buf|
  {
    match parse(buf)
    case Wait => Outcome([], buf)
    case Take(n, message) => Outcome(Listed(message), if n <= |buf| then buf[n..] else [])
    case Reset => Outcome([], [])
  }

  // One poll per chunk.
  function Run<T>(parse: seq<byte> -> Action<T>, buf: seq<byte>, chunks: seq<seq<byte>>): Outcome<T>
    decreases |chunks|
  {
    if chunks == [] then Outcome([], buf) else
    var first := Poll(parse, buf + chunks[0]);
    var rest := Run(parse, first.buf, chunks[1..]);
    Outcome(first.messages + rest.messages, rest.buf)
  }

  // Every read fits into what is left of the buffer.
  predicate Fits<T>(parse: seq<byte> -> Action<T>, cap: nat, buf: seq<byte>, chunks: seq<seq<byte>>)
    decreases |chunks|
  {
    chunks == [] ||
    (|buf + chunks[0]| <= cap && Fits(parse, cap, Poll(parse, buf + chunks[0]).buf, chunks[1..]))
  }

  function Flatten(chunks: seq<seq<byte>>): seq<byte> {
    if chunks == [] then [] else chunks[0] + Flatten(chunks[1..])
  }

  // ---- Streams of well-formed segments ----

  datatype Segment<+T> = Segment(bytes: seq<byte>, message: Option<T>)

  function Stream<T>(segments: seq<Segment<T>>): seq<byte> {
    if segments == [] then [] else segments[0].bytes + Stream(segments[1..])
  }

  function Messages<T>(segments: seq<Segment<T>>): seq<T> {
    if segments == [] then [] else Listed(segments[0].message) + Messages(segments[1..])
  }

  // The rule recognises the segment by its own bytes alone, and not before its last byte.
  ghost predicate Recognised<T(!new)>(parse: seq<byte> -> Action<T>, s: Segment<T>) {
    && s.bytes != []
    && (forall rest :: parse(s.bytes + rest) == Take(|s.bytes|, s.message))
    && (forall k :: 0 <= k < |s.bytes| ==> parse(s.bytes[..k]).Wait?)
  }

  ghost predicate AllRecognised<T(!new)>(parse: seq<byte> -> Action<T>, segments: seq<Segment<T>>) {
    && parse([]).Wait?
    && forall i :: 0 <= i < |segments| ==> Recognised(parse, segments[i])
  }

  predicate TakesFirst<T>(segments: seq<Segment<T>>, buf: seq<byte>) {
    segments != [] && |segments[0].bytes| <= |buf|
  }

  // Here and below, ahead is the part of the stream that has not arrived yet.
  lemma PollOnStream<T(!new)>(parse: seq<byte> -> Action<T>, segments: seq<Segment<T>>, buf: seq<byte>,
      ahead: seq<byte>)
    requires AllRecognised(parse, segments) && buf + ahead == Stream(segments)
    ensures var after := Poll(parse, buf);
      if TakesFirst(segments, buf)
      then after.messages == Listed(segments[0].message) && buf == segments[0].bytes + after.buf
           && after.buf + ahead == Stream(segments[1..])
      else after == Outcome([], buf)
  {
    if segments != [] {
      var s, tail := segments[0], Stream(segments[1..]);
      assert Recognised(parse, s);
      if |s.bytes| <= |buf| {
        var rest := buf[|s.bytes|..];
        assert s.bytes == (s.bytes + tail)[..|s.bytes|] == (buf + ahead)[..|s.bytes|];
        assert buf == s.bytes + rest;
        assert rest + ahead == (buf + ahead)[|s.bytes|..] == tail;
      } else {
        assert buf == (buf + ahead)[..|buf|] == (s.bytes + tail)[..|buf|] == s.bytes[..|buf|];
      }
    }
  }

  // Main result: however the stream is cut up, what has come out and what is still buffered are,
  // together, exactly what has arrived: the messages of the first k segments, and the bytes after them.
  lemma {:induction false} NothingLostOrInvented<T(!new)>(parse: seq<byte> -> Action<T>, segments: seq<Segment<T>>,
      buf: seq<byte>, chunks: seq<seq<byte>>, ahead: seq<byte>) returns (k: nat)
    requires AllRecognised(parse, segments) && buf + Flatten(chunks) + ahead == Stream(segments)
    ensures k <= |segments|
    ensures Run(parse, buf, chunks).messages == Messages(segments[..k])
    ensures buf + Flatten(chunks) == Stream(segments[..k]) + Run(parse, buf, chunks).buf
    ensures Run(parse, buf, chunks).buf + ahead == Stream(segments[k..])
    decreases |chunks|
  {
    hide Poll, Stream, Messages, AllRecognised;
    if chunks == [] {
      k := 0;
      NoneTaken(segments);
      assert buf + Flatten(chunks) == buf;
      assert [] + buf == buf;
    } else {
      var topped, later := buf + chunks[0], Flatten(chunks[1..]);
      Regroup(buf, chunks[0], later, topped);
      Regroup(topped, later, ahead, topped + later);
      PollOnStream(parse, segments, topped, later + ahead);
      var after := Poll(parse, topped).buf;
      Regroup(after, later, ahead, after + later);
      if TakesFirst(segments, topped) {
        var s, rest := segments[0], segments[1..];
        TailRecognised(parse, segments);
        var j := NothingLostOrInvented(parse, rest, after, chunks[1..], ahead);
        k := j + 1;
        TakeOneMore(segments, j);
        Regroup(s.bytes, after, later, topped);
        Regroup(s.bytes, Stream(rest[..j]), Run(parse, after, chunks[1..]).buf, Stream(segments[..k]));
      } else {
        k := NothingLostOrInvented(parse, segments, after, chunks[1..], ahead);
      }
    }
  }

  lemma Regroup(a: seq<byte>, b: seq<byte>, c: seq<byte>, ab: seq<byte>)
    requires ab == a + b
    ensures ab + c == a + (b + c)
  {
  }

  lemma NoneTaken<T>(segments: seq<Segment<T>>)
    ensures segments[0..] == segments
    ensures Stream(segments[..0]) == [] && Messages(segments[..0]) == []
  {
  }

  lemma TailRecognised<T(!new)>(parse: seq<byte> -> Action<T>, segments: seq<Segment<T>>)
    requires AllRecognised(parse, segments) && segments != []
    ensures AllRecognised(parse, segments[1..])
  {
  }

  lemma TakeOneMore<T>(segments: seq<Segment<T>>, j: nat)
    requires j < |segments|
    ensures var rest := segments[1..];
      && segments[j + 1..] == rest[j..]
      && Stream(segments[..j + 1]) == segments[0].bytes + Stream(rest[..j])
      && Messages(segments[..j + 1]) == Listed(segments[0].message) + Messages(rest[..j])
  {
    assert segments[..j + 1][1..] == segments[1..][..j];
  }

  // ---- Progress ----

  function Idle(n: nat): (chunks: seq<seq<byte>>)
    ensures Flatten(chunks) == [] && |chunks| == n
  {
    if n == 0 then [] else [[]] + Idle(n - 1)
  }

  lemma {:induction false} RunConcat<T>(parse: seq<byte> -> Action<T>, buf: seq<byte>, xs: seq<seq<byte>>,
      ys: seq<seq<byte>>)
    ensures var first := Run(parse, buf, xs);
      var second := Run(parse, first.buf, ys);
      Run(parse, buf, xs + ys) == Outcome(first.messages + second.messages, second.buf)
    decreases |xs|
  {
    hide Poll;
    if xs == [] {
      assert xs + ys == ys;
    } else {
      assert (xs + ys)[1..] == xs[1..] + ys;
      RunConcat(parse, Poll(parse, buf + xs[0]).buf, xs[1..], ys);
    }
  }

  lemma RunOneMore<T>(parse: seq<byte> -> Action<T>, chunks: seq<seq<byte>>, chunk: seq<byte>)
    ensures Flatten(chunks + [chunk]) == Flatten(chunks) + chunk
    ensures var run := Run(parse, [], chunks);
      var last := Poll(parse, run.buf + chunk);
      Run(parse, [], chunks + [chunk]) == Outcome(run.messages + last.messages, last.buf)
  {
    hide Poll;
    var last := Poll(parse, Run(parse, [], chunks).buf + chunk);
    assert [chunk][1..] == [] && chunk + [] == chunk && last.messages + [] == last.messages;
    FlattenConcat(chunks, [chunk]);
    RunConcat(parse, [], chunks, [chunk]);
  }

  lemma {:induction false} FlattenConcat(xs: seq<seq<byte>>, ys: seq<seq<byte>>)
    ensures Flatten(xs + ys) == Flatten(xs) + Flatten(ys)
  {
    if xs == [] {
      assert xs + ys == ys;
    } else {
      assert (xs + ys)[1..] == xs[1..] + ys;
      FlattenConcat(xs[1..], ys);
    }
  }

  // One more poll at the end of a run.
  lemma {:induction false} OneMorePoll<T>(parse: seq<byte> -> Action<T>, cap: nat, buf: seq<byte>,
      chunks: seq<seq<byte>>, chunk: seq<byte>)
    requires Fits(parse, cap, buf, chunks) && |Run(parse, buf, chunks).buf + chunk| <= cap
    ensures Fits(parse, cap, buf, chunks + [chunk])
    decreases |chunks|
  {
    hide Poll;
    if chunks == [] {
      assert chunks + [chunk] == [chunk] && [chunk][1..] == [];
    } else {
      assert (chunks + [chunk])[1..] == chunks[1..] + [chunk];
      OneMorePoll(parse, cap, Poll(parse, buf + chunks[0]).buf, chunks[1..], chunk);
    }
  }

  // n polls without input take n segments, or all that are complete.
  lemma {:induction false} IdlePollsDrain<T(!new)>(parse: seq<byte> -> Action<T>, segments: seq<Segment<T>>,
      buf: seq<byte>, ahead: seq<byte>, n: nat) returns (k: nat)
    requires AllRecognised(parse, segments) && buf + ahead == Stream(segments)
    ensures k <= |segments|
    ensures Run(parse, buf, Idle(n)).messages == Messages(segments[..k])
    ensures Run(parse, buf, Idle(n)).buf + ahead == Stream(segments[k..])
    ensures k >= n || !TakesFirst(segments[k..], Run(parse, buf, Idle(n)).buf)
    decreases n
  {
    hide Poll, Stream, Messages, AllRecognised;
    NoneTaken(segments);
    if n == 0 {
      k := 0;
    } else {
      assert Idle(n)[0] == [] && Idle(n)[1..] == Idle(n - 1);
      assert buf + [] == buf;
      PollOnStream(parse, segments, buf, ahead);
      var after := Poll(parse, buf).buf;
      if TakesFirst(segments, buf) {
        TailRecognised(parse, segments);
        var j := IdlePollsDrain(parse, segments[1..], after, ahead, n - 1);
        k := j + 1;
        TakeOneMore(segments, j);
      } else {
        IdleChangesNothing(parse, buf, n);
        k := 0;
      }
    }
  }

  lemma {:induction false} IdleChangesNothing<T>(parse: seq<byte> -> Action<T>, buf: seq<byte>, n: nat)
    requires Poll(parse, buf) == Outcome([], buf)
    ensures Run(parse, buf, Idle(n)) == Outcome([], buf)
  {
    hide Poll;
    if n > 0 {
      assert Idle(n)[0] == [] && Idle(n)[1..] == Idle(n - 1);
      assert buf + [] == buf;
      IdleChangesNothing(parse, buf, n - 1);
    }
  }

  // Main result: once the whole stream is in, polling on delivers every message and empties the buffer.
  lemma EverythingIsDelivered<T(!new)>(parse: seq<byte> -> Action<T>, segments: seq<Segment<T>>,
      chunks: seq<seq<byte>>, n: nat)
    requires AllRecognised(parse, segments) && Flatten(chunks) == Stream(segments) && n >= |segments|
    ensures Run(parse, [], chunks + Idle(n)) == Outcome(Messages(segments), [])
  {
    hide Run, Messages, Stream, Flatten, AllRecognised, TakesFirst;
    assert [] + Flatten(chunks) + [] == Stream(segments);
    var k := NothingLostOrInvented(parse, segments, [], chunks, []);
    var buf, rest := Run(parse, [], chunks).buf, segments[k..];
    assert buf + [] == buf;
    LaterRecognised(parse, segments, k);
    var j := IdlePollsDrain(parse, rest, buf, [], n);
    var left := Run(parse, buf, Idle(n)).buf;
    assert left + [] == left;
    NothingComplete(rest, j, left);
    assert rest[..j] == rest && segments == segments[..k] + rest;
    MessagesConcat(segments[..k], rest);
    RunConcat(parse, [], chunks, Idle(n));
  }

  lemma NothingComplete<T>(segments: seq<Segment<T>>, j: nat, left: seq<byte>)
    requires j <= |segments| && left == Stream(segments[j..]) && (j == |segments| || !TakesFirst(segments[j..], left))
    ensures j == |segments| && left == []
  {
  }

  lemma LaterRecognised<T(!new)>(parse: seq<byte> -> Action<T>, segments: seq<Segment<T>>, k: nat)
    requires AllRecognised(parse, segments) && k <= |segments|
    ensures AllRecognised(parse, segments[k..])
  {
  }

  lemma {:induction false} MessagesConcat<T>(xs: seq<Segment<T>>, ys: seq<Segment<T>>)
    ensures Messages(xs + ys) == Messages(xs) + Messages(ys)
  {
    hide Listed;
    if xs == [] {
      assert xs + ys == ys;
    } else {
      assert (xs + ys)[1..] == xs[1..] + ys;
      MessagesConcat(xs[1..], ys);
      Reassociate(Listed(xs[0].message), Messages(xs[1..]), Messages(ys));
    }
  }

  // What is read when the driver holds these bytes and hands over, poll by poll, at most so many of them
  // and never more than there is room for.
  function Reads<T>(parse: seq<byte> -> Action<T>, cap: nat, buf: seq<byte>, left: seq<byte>,
      amounts: seq<nat>): seq<seq<byte>>
    requires |buf| <= cap
    decreases |amounts|
  {
    if amounts == [] then [] else
    var n := Readable(cap, buf, left, amounts[0]);
    [left[..n]] + Reads(parse, cap, Poll(parse, buf + left[..n]).buf, left[n..], amounts[1..])
  }

  function Readable(cap: nat, buf: seq<byte>, left: seq<byte>, amount: nat): (n: nat)
    requires |buf| <= cap
    ensures n <= |left| && |buf| + n <= cap
  {
    var room := cap - |buf|;
    var most := if amount < room then amount else room;
    if most < |left| then most else |left|
  }

  lemma ReadsStep<T>(parse: seq<byte> -> Action<T>, cap: nat, buf: seq<byte>, left: seq<byte>, amounts: seq<nat>,
      i: nat, before: seq<seq<byte>>)
    requires |buf| <= cap && i < |amounts|
    ensures var chunk := left[..Readable(cap, buf, left, amounts[i])];
      before + Reads(parse, cap, buf, left, amounts[i..]) ==
        before + [chunk] + Reads(parse, cap, Poll(parse, buf + chunk).buf, left[|chunk|..], amounts[i + 1..])
  {
    hide Poll, Readable;
    assert amounts[i..][1..] == amounts[i + 1..];
  }

  function Lengths(chunks: seq<seq<byte>>): (amounts: seq<nat>)
    ensures |amounts| == |chunks|
  {
    seq(|chunks|, i requires 0 <= i < |chunks| => |chunks[i]|)
  }

  // Any chunks that fit can be what is read, when the driver hands over exactly as much each time.
  lemma {:induction false} ReadsAreChunks<T>(parse: seq<byte> -> Action<T>, cap: nat, buf: seq<byte>,
      chunks: seq<seq<byte>>, ahead: seq<byte>, more: seq<nat>)
    requires |buf| <= cap && Fits(parse, cap, buf, chunks)
    ensures var after := Run(parse, buf, chunks).buf;
      && |after| <= cap
      && Reads(parse, cap, buf, Flatten(chunks) + ahead, Lengths(chunks) + more) ==
           chunks + Reads(parse, cap, after, ahead, more)
    decreases |chunks|
  {
    hide Poll, Reads;
    if chunks == [] {
      var rest := Reads(parse, cap, buf, ahead, more);
      assert Flatten(chunks) + ahead == ahead && Lengths(chunks) + more == more && [] + rest == rest;
    } else {
      var chunk, later := chunks[0], chunks[1..];
      var after := Poll(parse, buf + chunk).buf;
      ReadsAreChunks(parse, cap, after, later, ahead, more);
      ReadsFirst(parse, cap, buf, chunk, Flatten(later) + ahead, Lengths(later) + more);
      Regroup(chunk, Flatten(later), ahead, Flatten(chunks));
      assert Lengths(chunks) + more == [|chunk|] + (Lengths(later) + more);
      assert chunks == [chunk] + later;
      Reassociate([chunk], later, Reads(parse, cap, Run(parse, buf, chunks).buf, ahead, more));
    }
  }

  lemma ReadsFirst<T>(parse: seq<byte> -> Action<T>, cap: nat, buf: seq<byte>, chunk: seq<byte>, left: seq<byte>,
      amounts: seq<nat>)
    requires |buf + chunk| <= cap
    ensures Reads(parse, cap, buf, chunk + left, [|chunk|] + amounts) ==
      [chunk] + Reads(parse, cap, Poll(parse, buf + chunk).buf, left, amounts)
  {
    hide Poll;
    var all := chunk + left;
    assert all[..|chunk|] == chunk && all[|chunk|..] == left && ([|chunk|] + amounts)[1..] == amounts;
  }

  // How many of the polls hand over anything at all, if there is anything.
  function Busy(amounts: seq<nat>): nat {
    if amounts == [] then 0 else (if amounts[0] > 0 then 1 else 0) + Busy(amounts[1..])
  }

  function AlwaysBusy(n: nat): (amounts: seq<nat>)
    ensures Busy(amounts) == n
  {
    if n == 0 then [] else [1] + AlwaysBusy(n - 1)
  }

  lemma {:induction false} BusyConcat(xs: seq<nat>, ys: seq<nat>)
    ensures Busy(xs + ys) == Busy(xs) + Busy(ys)
  {
    if xs == [] {
      assert xs + ys == ys;
    } else {
      assert (xs + ys)[1..] == xs[1..] + ys;
      BusyConcat(xs[1..], ys);
    }
  }

  lemma {:induction false} ReadsFit<T>(parse: seq<byte> -> Action<T>, cap: nat, buf: seq<byte>, left: seq<byte>,
      amounts: seq<nat>)
    requires |buf| <= cap
    ensures Fits(parse, cap, buf, Reads(parse, cap, buf, left, amounts))
    ensures Flatten(Reads(parse, cap, buf, left, amounts)) <= left
    decreases |amounts|
  {
    hide Poll;
    if amounts != [] {
      var n := Readable(cap, buf, left, amounts[0]);
      ReadsFit(parse, cap, Poll(parse, buf + left[..n]).buf, left[n..], amounts[1..]);
      assert left == left[..n] + left[n..];
    }
  }

  // Main result: with no segment larger than the buffer every run makes progress. After as many polls that
  // read anything as there are bytes and segments, all messages are out and the buffer is empty.
  lemma {:induction false} EveryRunDelivers<T(!new)>(parse: seq<byte> -> Action<T>, cap: nat, segments: seq<Segment<T>>,
      buf: seq<byte>, left: seq<byte>, amounts: seq<nat>)
    requires AllRecognised(parse, segments) && buf + left == Stream(segments) && |buf| <= cap && cap > 0
    requires forall i :: 0 <= i < |segments| ==> |segments[i].bytes| <= cap
    requires Busy(amounts) >= |left| + |segments|
    ensures var chunks := Reads(parse, cap, buf, left, amounts);
      Flatten(chunks) == left && Run(parse, buf, chunks) == Outcome(Messages(segments), [])
    decreases |amounts|
  {
    hide Poll, Messages, AllRecognised, Stream, TakesFirst;
    if amounts == [] {
      NothingStreams(segments);
    } else {
      var n := Readable(cap, buf, left, amounts[0]);
      var chunk, rest := left[..n], left[n..];
      Regroup(buf, chunk, rest, buf + chunk);
      assert left == chunk + rest;
      PollOnStream(parse, segments, buf + chunk, rest);
      var after := Poll(parse, buf + chunk).buf;
      if TakesFirst(segments, buf + chunk) {
        TakesSome(segments, buf + chunk);
        TailRecognised(parse, segments);
        EveryRunDelivers(parse, cap, segments[1..], after, rest, amounts[1..]);
      } else {
        WaitingMeansMore(segments, cap, buf + chunk, rest);
        EveryRunDelivers(parse, cap, segments, after, rest, amounts[1..]);
      }
    }
  }

  lemma NothingStreams<T>(segments: seq<Segment<T>>)
    ensures segments == [] ==> Stream(segments) == [] && Messages(segments) == []
  {
  }

  lemma TakesSome<T>(segments: seq<Segment<T>>, buf: seq<byte>)
    requires TakesFirst(segments, buf)
    ensures segments != [] && Messages(segments) == Listed(segments[0].message) + Messages(segments[1..])
  {
  }

  // A poll that takes nothing leaves room, and with nothing more to come it is the end.
  lemma WaitingMeansMore<T>(segments: seq<Segment<T>>, cap: nat, buf: seq<byte>, ahead: seq<byte>)
    requires buf + ahead == Stream(segments) && !TakesFirst(segments, buf) && cap > 0
    requires forall i :: 0 <= i < |segments| ==> |segments[i].bytes| <= cap
    ensures |buf| < cap
    ensures ahead == [] ==> segments == []
  {
  }

  // A full buffer never waits: its first segment is complete.
  lemma FullBufferMoves<T(!new)>(parse: seq<byte> -> Action<T>, segments: seq<Segment<T>>, cap: nat, buf: seq<byte>,
      ahead: seq<byte>)
    requires AllRecognised(parse, segments) && buf + ahead == Stream(segments)
    requires cap > 0 && |buf| == cap && forall i :: 0 <= i < |segments| ==> |segments[i].bytes| <= cap
    ensures segments != [] && |Poll(parse, buf).buf| == cap - |segments[0].bytes| < cap
  {
    PollOnStream(parse, segments, buf, ahead);
    assert segments != [];
    assert Recognised(parse, segments[0]);
  }

  // A full buffer at which the rule waits is full for ever: nothing is read any more, nothing comes out.
  lemma {:induction false} FullBufferWaitsForever<T>(parse: seq<byte> -> Action<T>, cap: nat, buf: seq<byte>,
      chunks: seq<seq<byte>>)
    requires |buf| == cap && parse(buf).Wait? && Fits(parse, cap, buf, chunks)
    ensures Flatten(chunks) == [] && Run(parse, buf, chunks) == Outcome([], buf)
    decreases |chunks|
  {
    if chunks != [] {
      assert buf + chunks[0] == buf;
      FullBufferWaitsForever(parse, cap, buf, chunks[1..]);
    }
  }

  // A segment larger than the buffer is where every run gets stuck.
  lemma {:induction false} OversizedSegmentStays<T(!new)>(parse: seq<byte> -> Action<T>, cap: nat,
      segments: seq<Segment<T>>, i: nat,
      buf: seq<byte>, chunks: seq<seq<byte>>, ahead: seq<byte>) returns (k: nat)
    requires AllRecognised(parse, segments) && buf + Flatten(chunks) + ahead == Stream(segments)
    requires Fits(parse, cap, buf, chunks)
    requires i < |segments| && |segments[i].bytes| > cap
    ensures k <= i
    ensures Run(parse, buf, chunks).messages == Messages(segments[..k])
    ensures Run(parse, buf, chunks).buf + ahead == Stream(segments[k..])
    decreases |chunks|
  {
    hide Poll, Stream, Messages, AllRecognised;
    NoneTaken(segments);
    if chunks == [] {
      k := 0;
      assert buf + Flatten(chunks) == buf;
    } else {
      var topped, later := buf + chunks[0], Flatten(chunks[1..]);
      Regroup(buf, chunks[0], later, topped);
      Regroup(topped, later, ahead, topped + later);
      PollOnStream(parse, segments, topped, later + ahead);
      var after := Poll(parse, topped).buf;
      Regroup(after, later, ahead, after + later);
      if TakesFirst(segments, topped) {
        TailRecognised(parse, segments);
        var j := OversizedSegmentStays(parse, cap, segments[1..], i - 1, after, chunks[1..], ahead);
        k := j + 1;
        TakeOneMore(segments, j);
      } else {
        k := OversizedSegmentStays(parse, cap, segments, i, after, chunks[1..], ahead);
      }
    }
  }

  function Whole<T>(segments: seq<Segment<T>>): seq<seq<byte>> {
    if segments == [] then [] else [segments[0].bytes] + Whole(segments[1..])
  }

  lemma {:induction false} WholeSegmentsFit<T(!new)>(parse: seq<byte> -> Action<T>, cap: nat, segments: seq<Segment<T>>)
    requires AllRecognised(parse, segments) && forall i :: 0 <= i < |segments| ==> |segments[i].bytes| <= cap
    ensures Flatten(Whole(segments)) == Stream(segments)
    ensures Fits(parse, cap, [], Whole(segments))
    ensures Run(parse, [], Whole(segments)) == Outcome(Messages(segments), [])
    decreases |segments|
  {
    if segments != [] {
      var s := segments[0];
      assert Recognised(parse, s);
      assert s.bytes + [] == s.bytes && [] + s.bytes == s.bytes;
      assert s.bytes[|s.bytes|..] == [];
      assert Poll(parse, s.bytes) == Outcome(Listed(s.message), []);
      assert Whole(segments)[1..] == Whole(segments[1..]);
      WholeSegmentsFit(parse, cap, segments[1..]);
    }
  }

  // Reading chunks cuts the stream up so that every segment comes through.
  ghost predicate Delivers<T>(parse: seq<byte> -> Action<T>, cap: nat, segments: seq<Segment<T>>,
      chunks: seq<seq<byte>>) {
    && Flatten(chunks) == Stream(segments)
    && Fits(parse, cap, [], chunks)
    && Run(parse, [], chunks) == Outcome(Messages(segments), [])
  }

  // Main result: the stream can be delivered exactly when no segment is larger than the buffer.
  lemma DeliverableIff<T(!new)>(parse: seq<byte> -> Action<T>, cap: nat, segments: seq<Segment<T>>)
    requires AllRecognised(parse, segments)
    ensures (exists chunks :: Delivers(parse, cap, segments, chunks)) <==>
      forall i :: 0 <= i < |segments| ==> |segments[i].bytes| <= cap
  {
    if forall i :: 0 <= i < |segments| ==> |segments[i].bytes| <= cap {
      WholeSegmentsFit(parse, cap, segments);
      assert Delivers(parse, cap, segments, Whole(segments));
    } else {
      var i :| 0 <= i < |segments| && |segments[i].bytes| > cap;
      forall chunks ensures !Delivers(parse, cap, segments, chunks) {
        if Delivers(parse, cap, segments, chunks) {
          NotDelivered(parse, cap, segments, i, chunks);
        }
      }
    }
  }

  lemma NotDelivered<T(!new)>(parse: seq<byte> -> Action<T>, cap: nat, segments: seq<Segment<T>>, i: nat,
      chunks: seq<seq<byte>>)
    requires AllRecognised(parse, segments) && i < |segments| && |segments[i].bytes| > cap
    requires Flatten(chunks) == Stream(segments) && Fits(parse, cap, [], chunks)
    ensures Run(parse, [], chunks).buf != []
  {
    assert [] + Flatten(chunks) + [] == Stream(segments);
    var k := OversizedSegmentStays(parse, cap, segments, i, [], chunks, []);
    assert Recognised(parse, segments[k]);
    assert |Stream(segments[k..])| >= |segments[k].bytes| > 0;
  }

  // ---- Arbitrary bytes ----

  // Reading on at the front for as long as the rule takes something; what it waits or resets at is left.
  function Cut<T>(parse: seq<byte> -> Action<T>, input: seq<byte>): (cut: Outcome<T>)
    ensures |cut.buf| <= |input|
    decreases |input|
  {
    match parse(input)
    case Wait => Outcome([], input)
    case Reset => Outcome([], input)
    case Take(n, message) =>
      if n == 0 || n > |input| then Outcome([], input) else
      var rest := Cut(parse, input[n..]);
      Outcome(Listed(message) + rest.messages, rest.buf)
  }

  // How often it takes something, and whether each time it looks at no more than cap bytes for that.
  function Takes<T>(parse: seq<byte> -> Action<T>, input: seq<byte>): nat
    decreases |input|
  {
    match parse(input)
    case Wait => 0
    case Reset => 0
    case Take(n, _) => if n == 0 || n > |input| then 0 else 1 + Takes(parse, input[n..])
  }

  predicate CutFits<T>(parse: seq<byte> -> Action<T>, cap: nat, input: seq<byte>)
    decreases |input|
  {
    match parse(input)
    case Wait => |input| <= cap
    case Reset => false
    case Take(n, _) => 0 < n <= |input| && n <= cap && CutFits(parse, cap, input[n..])
  }

  // The rule does not change its mind: what it decides about some bytes it decides whatever follows, and it
  // takes what it takes as soon as that is there.
  ghost predicate Stable<T(!new)>(parse: seq<byte> -> Action<T>) {
    && parse([]).Wait?
    && (forall input, more :: !parse(input).Wait? ==> parse(input + more) == parse(input))
    && (forall input :: parse(input).Take? ==>
          0 < parse(input).n <= |input| && parse(input[..parse(input).n]) == parse(input))
  }

  // Some poll of the run resets.
  predicate Resets<T>(parse: seq<byte> -> Action<T>, buf: seq<byte>, chunks: seq<seq<byte>>)
    decreases |chunks|
  {
    chunks != [] &&
    (parse(buf + chunks[0]).Reset? || Resets(parse, Poll(parse, buf + chunks[0]).buf, chunks[1..]))
  }

  // One poll takes a message exactly where cutting would.
  lemma PollCuts<T(!new)>(parse: seq<byte> -> Action<T>, buf: seq<byte>, ahead: seq<byte>)
    requires Stable(parse)
    ensures if parse(buf).Reset? then Cut(parse, buf + ahead) == Outcome([], buf + ahead) && parse(buf + ahead).Reset?
      else var after := Poll(parse, buf);
        var rest := Cut(parse, after.buf + ahead);
        Cut(parse, buf + ahead) == Outcome(after.messages + rest.messages, rest.buf)
  {
    match parse(buf)
    case Wait => assert [] + Cut(parse, buf + ahead).messages == Cut(parse, buf + ahead).messages;
    case Reset => assert parse(buf + ahead) == parse(buf);
    case Take(n, message) =>
      assert parse(buf + ahead) == parse(buf);
      assert (buf + ahead)[n..] == buf[n..] + ahead;
  }

  // Main result: on any bytes whatever, however they arrive, until a poll resets what has come out and what is
  // still to be cut off the buffer and the bytes ahead are together what is cut off the whole. A reset comes
  // only where cutting the whole ends in one, after everything in front of it has come out.
  lemma {:induction false} RunCuts<T(!new)>(parse: seq<byte> -> Action<T>, buf: seq<byte>, chunks: seq<seq<byte>>,
      ahead: seq<byte>)
    requires Stable(parse)
    ensures var run := Run(parse, buf, chunks);
      var cut := Cut(parse, buf + Flatten(chunks) + ahead);
      if Resets(parse, buf, chunks) then parse(cut.buf).Reset? && cut.messages <= run.messages
      else
        var rest := Cut(parse, run.buf + ahead);
        cut == Outcome(run.messages + rest.messages, rest.buf)
    decreases |chunks|
  {
    hide Poll, Stable, Cut;
    if chunks == [] {
      assert buf + Flatten(chunks) == buf;
      assert [] + Cut(parse, buf + ahead).messages == Cut(parse, buf + ahead).messages;
    } else {
      var topped, later := buf + chunks[0], Flatten(chunks[1..]);
      Regroup(buf, chunks[0], later, topped);
      Regroup(topped, later, ahead, topped + later);
      PollCuts(parse, topped, later + ahead);
      var first := Poll(parse, topped);
      Regroup(first.buf, later, ahead, first.buf + later);
      RunCuts(parse, first.buf, chunks[1..], ahead);
      var rest := Run(parse, first.buf, chunks[1..]);
      Reassociate(first.messages, rest.messages, Cut(parse, rest.buf + ahead).messages);
      InFront(first.messages, Cut(parse, first.buf + later + ahead).messages, rest.messages);
    }
  }

  lemma InFront<X>(a: seq<X>, b: seq<X>, c: seq<X>)
    ensures b <= c ==> a + b <= a + c
  {
  }

  // What one poll, of a buffer that the rest of the input is ahead of, leaves to be cut.
  lemma PollLeaves<T(!new)>(parse: seq<byte> -> Action<T>, cap: nat, buf: seq<byte>, ahead: seq<byte>)
    requires Stable(parse) && CutFits(parse, cap, buf + ahead)
    ensures !parse(buf).Reset?
    ensures var after := Poll(parse, buf).buf;
      && CutFits(parse, cap, after + ahead)
      && if parse(buf).Take? then Takes(parse, buf + ahead) == 1 + Takes(parse, after + ahead)
         else after == buf && (|buf| >= cap || ahead == [] ==> Takes(parse, buf + ahead) == 0 && ahead == [])
  {
    var whole := buf + ahead;
    StableVerdict(parse, buf, ahead);
    TakesStep(parse, cap, whole);
    hide Stable, CutFits, Takes;
    match parse(buf)
    case Reset => assert false;
    case Take(n, message) => assert whole[n..] == buf[n..] + ahead;
    case Wait =>
      if ahead == [] { assert whole == buf; }
      if |buf| >= cap { WaitingIsWaiting(parse, cap, buf, ahead); }
  }

  lemma StableVerdict<T(!new)>(parse: seq<byte> -> Action<T>, buf: seq<byte>, ahead: seq<byte>)
    requires Stable(parse)
    ensures !parse(buf).Wait? ==> parse(buf + ahead) == parse(buf)
    ensures parse(buf).Take? ==> 0 < parse(buf).n <= |buf|
  {
  }

  lemma TakesStep<T>(parse: seq<byte> -> Action<T>, cap: nat, input: seq<byte>)
    requires CutFits(parse, cap, input)
    ensures !parse(input).Reset?
    ensures parse(input).Wait? ==> |input| <= cap && Takes(parse, input) == 0
    ensures parse(input).Take? ==>
      var n := parse(input).n;
      n <= |input| && CutFits(parse, cap, input[n..]) && Takes(parse, input) == 1 + Takes(parse, input[n..])
  {
  }

  // Where the rule waits with as many bytes as it may need, it would not take anything of the whole.
  lemma WaitingIsWaiting<T(!new)>(parse: seq<byte> -> Action<T>, cap: nat, buf: seq<byte>, ahead: seq<byte>)
    requires Stable(parse) && CutFits(parse, cap, buf + ahead) && |buf| >= cap && parse(buf).Wait?
    ensures parse(buf + ahead).Wait?
  {
    var whole := buf + ahead;
    var n := match parse(whole) case Take(n, _) => n case _ => 0;
    assert n <= |buf|;
    var front, back := buf[..n], buf[n..];
    assert whole[..n] == front && buf == front + back;
  }

  // Main result: if everything to be cut off fits the buffer, and what is left does, every run makes
  // progress. After as many polls that read anything as there are bytes and takes, it has cut all there is.
  lemma {:induction false} EveryRunCuts<T(!new)>(parse: seq<byte> -> Action<T>, cap: nat, buf: seq<byte>,
      left: seq<byte>, amounts: seq<nat>)
    requires Stable(parse) && |buf| <= cap && CutFits(parse, cap, buf + left)
    requires Busy(amounts) >= |left| + Takes(parse, buf + left)
    ensures var chunks := Reads(parse, cap, buf, left, amounts);
      Flatten(chunks) == left && Run(parse, buf, chunks) == Cut(parse, buf + left)
    decreases |amounts|
  {
    hide Poll, Stable, CutFits, Cut, Takes, Readable;
    if amounts == [] {
      assert buf + left == buf;
      NothingTaken(parse, cap, buf);
    } else {
      var n := Readable(cap, buf, left, amounts[0]);
      var chunk, rest := left[..n], left[n..];
      var topped := buf + chunk;
      assert left == chunk + rest;
      Regroup(buf, chunk, rest, topped);
      PollCuts(parse, topped, rest);
      PollLeaves(parse, cap, topped, rest);
      ReadsSome(cap, buf, left, amounts[0]);
      EveryRunCuts(parse, cap, Poll(parse, topped).buf, rest, amounts[1..]);
    }
  }

  lemma ReadsSome(cap: nat, buf: seq<byte>, left: seq<byte>, amount: nat)
    requires |buf| <= cap
    ensures amount > 0 && left != [] && |buf| < cap ==> Readable(cap, buf, left, amount) > 0
    ensures amount == 0 ==> Readable(cap, buf, left, amount) == 0
  {
  }

  lemma NothingTaken<T>(parse: seq<byte> -> Action<T>, cap: nat, buf: seq<byte>)
    requires CutFits(parse, cap, buf) && Takes(parse, buf) == 0
    ensures Cut(parse, buf) == Outcome([], buf)
  {
  }

  // Behind any bytes, and in front of any.
  lemma {:induction false} CutConcat<T(!new)>(parse: seq<byte> -> Action<T>, x: seq<byte>, y: seq<byte>)
    requires Stable(parse) && parse(Cut(parse, x).buf).Wait?
    ensures var first := Cut(parse, x);
      var second := Cut(parse, first.buf + y);
      Cut(parse, x + y) == Outcome(first.messages + second.messages, second.buf)
    decreases |x|
  {
    hide Stable;
    PollCuts(parse, x, y);
    CutStep(parse, x);
    hide Cut;
    if parse(x).Take? {
      var after := Poll(parse, x);
      CutConcat(parse, after.buf, y);
      var first := Cut(parse, after.buf);
      Reassociate(after.messages, first.messages, Cut(parse, first.buf + y).messages);
    } else {
      assert [] + Cut(parse, x + y).messages == Cut(parse, x + y).messages;
    }
  }

  lemma CutStep<T(!new)>(parse: seq<byte> -> Action<T>, x: seq<byte>)
    requires Stable(parse)
    ensures if parse(x).Take? then
        var after := Poll(parse, x);
        |after.buf| < |x| && Cut(parse, x) == Outcome(after.messages + Cut(parse, after.buf).messages,
          Cut(parse, after.buf).buf)
      else Cut(parse, x) == Outcome([], x)
  {
  }

  // A stream of recognised segments is cut into them.
  lemma {:induction false} SegmentsAreCut<T(!new)>(parse: seq<byte> -> Action<T>, cap: nat, segments: seq<Segment<T>>)
    requires AllRecognised(parse, segments)
    ensures Cut(parse, Stream(segments)) == Outcome(Messages(segments), [])
    ensures Takes(parse, Stream(segments)) == |segments|
    ensures CutFits(parse, cap, Stream(segments)) <==> forall i :: 0 <= i < |segments| ==> |segments[i].bytes| <= cap
    decreases |segments|
  {
    if segments != [] {
      var s, rest := segments[0], segments[1..];
      assert Recognised(parse, s);
      assert parse(s.bytes + Stream(rest)) == Take(|s.bytes|, s.message);
      assert Stream(segments)[|s.bytes|..] == Stream(rest);
      SegmentsAreCut(parse, cap, rest);
      assert forall i :: 1 <= i < |segments| ==> segments[i] == rest[i - 1];
      if forall i :: 0 <= i < |segments| ==> |segments[i].bytes| <= cap {
        assert forall i :: 0 <= i < |rest| ==> rest[i] == segments[i + 1];
      }
    }
  }
}
