/** The packet loops around FFmpeg: collecting encoded packets into one buffer, and feeding
    input to a parser.

    The encoder's packets and the parser's answers are parameters.  What a call leaves of the
    context is told on the memory of `Cleanup`: `opt` is the options object, and `ctx` the
    codec context it points to, if it does. */
module Packets {
  import opened Bytes
  import Cleanup

  /** The context can be reached through the options. */
  predicate Live(m: Cleanup.Memory, opt: Cleanup.Block) {
    Cleanup.Field(opt, "ctx") in m.cells
  }

  predicate Has(m: Cleanup.Memory, ctx: Cleanup.Block, name: string) {
    Cleanup.Field(ctx, name) in m.cells
  }

  /** A coding call that failed has released everything its chains name. */
  function GivenUp(m: Cleanup.Memory, opt: Cleanup.Block, ctx: Cleanup.Block): Cleanup.Memory {
    Cleanup.Cleaned(m, Cleanup.CodingChains(opt, ctx), 6)
  }

  const OUT := Cleanup.Variable("data_out")

  // ---------------------------------------------------------------- encoding

  /** One answer of the encoder when asked for a packet. */
  datatype Received = Packet(bytes: seq<Byte>) | Again | Eof | Failed

  /** Sending a frame, then asking for packets until there are no more for now. */
  datatype Pass = Pass(sendRet: int, received: seq<Received>)

  /** An encoder stops handing out packets at some point. */
  predicate Terminates(received: seq<Received>) {
    exists i :: 0 <= i < |received| && !received[i].Packet?
  }

  /** The position of the answer that ends the pass. */
  function Stop(received: seq<Received>, from: nat := 0): (n: nat)
    requires from < |received| && exists i :: from <= i < |received| && !received[i].Packet?
    ensures from <= n < |received| && !received[n].Packet?
    ensures forall i :: from <= i < n ==> received[i].Packet?
    decreases |received| - from
  {
    if !received[from].Packet? then from else Stop(received, from + 1)
  }

  function PacketsOf(received: seq<Received>): (packets: seq<seq<Byte>>)
    requires Terminates(received)
  {
    seq(Stop(received), i requires 0 <= i < Stop(received) => received[i].bytes)
  }

  lemma {:induction false} ConcatPrefix(parts: seq<seq<Byte>>, n: nat)
    requires n <= |parts|
    ensures |Concat(parts[..n])| <= |Concat(parts)|
    decreases |parts|
  {
    var m := |parts| - 1;
    if n == |parts| {
      assert parts[..n] == parts;
    } else {
      ConcatPrefix(parts[..m], n);
      assert parts[..m][..n] == parts[..n];
    }
  }

  lemma {:induction false} ConcatAppend(a: seq<seq<Byte>>, b: seq<seq<Byte>>)
    ensures Concat(a + b) == Concat(a) + Concat(b)
    decreases |b|
  {
    if b == [] {
      assert a + b == a;
    } else {
      var init, last := b[..|b| - 1], b[|b| - 1];
      ConcatAppend(a, init);
      ConcatSnoc(a + init, last);
      ConcatSnoc(init, last);
      hide Concat;
      assert b == init + [last] && a + b == (a + init) + [last];
      assert Concat(a + b) == (Concat(a) + Concat(init)) + last;
    }
  }

  /** `Crashed` is the use of a null packet. */
  datatype Result = Ret(code: int) | Overflowed | Crashed

  /** All the packets of a pass, in order, right after what is there already. */
  predicate Appended(before: seq<Byte>, index: nat, data: seq<Byte>, after: seq<Byte>) {
    index + |data| <= |before| == |after| &&
    forall i :: 0 <= i < |after| ==>
      after[i] == if index <= i < index + |data| then data[i - index] else before[i]
  }

  method EncodeFrame(pass: Pass, out: array<Byte>, index: nat, size: nat)
    returns (r: Result, index': nat, size': nat)
    requires Terminates(pass.received) && index <= out.Length
    modifies out
    ensures index' - index == size' - size && r != Crashed
    ensures pass.sendRet < 0 ==> r == Ret(-1) && out[..] == old(out[..]) && index' == index
    ensures pass.sendRet >= 0 ==>
              (r == Overflowed <==> index + |Concat(PacketsOf(pass.received))| > out.Length)
    ensures pass.sendRet >= 0 && r != Overflowed ==>
              Appended(old(out[..]), index, Concat(PacketsOf(pass.received)), out[..]) &&
              index' == index + |Concat(PacketsOf(pass.received))| &&
              r == Ret(if pass.received[Stop(pass.received)].Failed? then -1 else pass.sendRet)
  {
    hide Appended, Stop, Concat;
    index', size' := index, size;
    if pass.sendRet < 0 {
      return Ret(-1), index', size';
    }
    ghost var packets := PacketsOf(pass.received);
    var n := 0;
    assert packets[..0] == [];
    ConcatNothing();
    AppendedNothing(out[..], index);
    while true
      invariant n <= |packets| == Stop(pass.received)
      invariant index' == index + |Concat(packets[..n])| && index' - index == size' - size
      invariant Appended(old(out[..]), index, Concat(packets[..n]), out[..])
      decreases |packets| - n
    {
      var received := pass.received[n];
      AppendedFits(old(out[..]), index, Concat(packets[..n]), out[..]);
      if received.Again? || received.Eof? {
        assert packets[..n] == packets;
        return Ret(pass.sendRet), index', size';
      }
      if received.Failed? {
        assert packets[..n] == packets;
        return Ret(-1), index', size';
      }
      assert packets[..n + 1] == packets[..n] + [received.bytes];
      ConcatSnoc(packets[..n], received.bytes);
      ConcatPrefix(packets, n + 1);
      if index' + |received.bytes| > out.Length {
        return Overflowed, index', size';
      }
      ghost var s1 := out[..];
      CopyInto(out, index', received.bytes);
      AppendedTwice(old(out[..]), index, Concat(packets[..n]), s1, received.bytes, out[..]);
      index' := index' + |received.bytes|;
      size' := size' + |received.bytes|;
      n := n + 1;
    }
  }

  method CopyInto(out: array<Byte>, at: nat, bytes: seq<Byte>)
    requires at + |bytes| <= out.Length
    modifies out
    ensures Appended(old(out[..]), at, bytes, out[..])
  {
    forall i | at <= i < at + |bytes| {
      out[i] := bytes[i - at];
    }
  }

  /** What encoding leaves in memory; `b` is the output buffer, if there is memory for it. */
  function EncodeLeaves(m: Cleanup.Memory, opt: Cleanup.Block, ctx: Cleanup.Block, converted: bool,
                        b: Option<Cleanup.Block>, first: Pass, flush: Pass): Cleanup.Memory
    requires Terminates(first.received) && Terminates(flush.received)
  {
    if !Live(m, opt) then m
    else if !Has(m, ctx, "yuv_frame") || !converted then GivenUp(m, opt, ctx)
    else
      var buffered := Cleanup.Stored(m, OUT, b);
      if b == None || !Encodes(first) then GivenUp(buffered, opt, ctx)
      else
        var flushed := Cleanup.Stored(buffered, Cleanup.Field(ctx, "yuv_frame"), None);
        if !Encodes(flush) then GivenUp(flushed, opt, ctx) else flushed
  }

  /** Encoding one frame: the frame itself, then a pass that flushes the encoder.  The output
      is the packets of both passes in order, and its size is exactly their length. */
  method Encode(heap: Cleanup.Heap, opt: Cleanup.Block, ctx: Cleanup.Block, converted: bool,
                b: Option<Cleanup.Block>, area: nat, first: Pass, flush: Pass)
    returns (r: Result, out: array?<Byte>, size: nat)
    requires Terminates(first.received) && Terminates(flush.received)
    modifies heap
    ensures r.Ret? ==> heap.View() == EncodeLeaves(old(heap.View()), opt, ctx, converted, b, first, flush)
    ensures r == Ret(0) ==>
              var m := old(heap.View());
              b.Some? && heap.live == m.live + {b.value} && heap.freed == m.freed && heap.faults == m.faults &&
              heap.cells == m.cells[OUT := b.value] - {Cleanup.Field(ctx, "yuv_frame")}
    ensures r == Ret(0) ==>
              out != null && fresh(out) && out.Length == 3 * area && size <= out.Length &&
              out[..size] == Concat(PacketsOf(first.received) + PacketsOf(flush.received)) &&
              (forall i :: size <= i < out.Length ==> out[i] == 0)
    ensures var m, length := old(heap.View()), |Concat(PacketsOf(first.received) + PacketsOf(flush.received))|;
            var starts := Live(m, opt) && Has(m, ctx, "yuv_frame") && converted && b.Some?;
            (r == Crashed <==> starts && !Has(m, ctx, "packet")) &&
            (r == Ret(0) ==> starts && Encodes(first) && Encodes(flush) && length <= 3 * area) &&
            (starts && Has(m, ctx, "packet") && Encodes(first) && Encodes(flush) ==>
              r == if length > 3 * area then Overflowed else Ret(0)) &&
            (r.Ret? && r != Ret(0) ==> r == Ret(-1))
  {
    hide Appended, Concat, PacketsOf, Cleanup.Cleaned, Cleanup.CodingChains;
    out, size := null, 0;
    if Cleanup.Field(opt, "ctx") !in heap.cells {
      return Ret(-1), out, size;
    }
    if Cleanup.Field(ctx, "yuv_frame") !in heap.cells || !converted {
      heap.Cleanup(Cleanup.CodingChains(opt, ctx));
      return Ret(-1), out, size;
    }
    heap.Store(OUT, b);
    if b == None {
      heap.Cleanup(Cleanup.CodingChains(opt, ctx));
      return Ret(-1), out, size;
    }
    out := new Byte[3 * area](_ => 0);
    if Cleanup.Field(ctx, "packet") !in heap.cells {
      return Crashed, out, size;
    }
    ConcatAppend(PacketsOf(first.received), PacketsOf(flush.received));
    r, size := EncodeBoth(heap, ctx, out, first, flush);
    if r == Ret(-1) {
      heap.Cleanup(Cleanup.CodingChains(opt, ctx));
    }
  }

  /** The two passes, into a buffer of zeros. */
  method EncodeBoth(heap: Cleanup.Heap, ctx: Cleanup.Block, out: array<Byte>, first: Pass, flush: Pass)
    returns (r: Result, size: nat)
    requires Terminates(first.received) && Terminates(flush.received)
    requires forall i :: 0 <= i < out.Length ==> out[i] == 0
    modifies heap`live, heap`cells, out
    ensures r == Ret(0) || r == Ret(-1) || r == Overflowed
    ensures var a, b := Concat(PacketsOf(first.received)), Concat(PacketsOf(flush.received));
            (r == Ret(0) ==>
              Encodes(first) && Encodes(flush) && size == |a + b| <= out.Length && out[..size] == a + b &&
              forall i :: size <= i < out.Length ==> out[i] == 0) &&
            (Encodes(first) && Encodes(flush) ==> r == if |a + b| > out.Length then Overflowed else Ret(0)) &&
            (r == Ret(-1) ==> !Encodes(first) || !Encodes(flush))
    ensures r.Ret? ==>
              heap.View() == if Encodes(first)
                             then Cleanup.Stored(old(heap.View()), Cleanup.Field(ctx, "yuv_frame"), None)
                             else old(heap.View())
  {
    hide Appended, Concat, PacketsOf;
    size := 0;
    var writeIndex := 0;
    ghost var zeros := out[..];
    r, writeIndex, size := EncodeFrame(first, out, writeIndex, size);
    if r == Overflowed {
      return;
    }
    if r.code < 0 {
      return Ret(-1), size;
    }
    ghost var half := out[..];
    heap.Store(Cleanup.Field(ctx, "yuv_frame"), None);
    r, writeIndex, size := EncodeFrame(flush, out, writeIndex, size);
    if r == Overflowed {
      return;
    }
    if r.code < 0 {
      return Ret(-1), size;
    }
    ghost var a, b := Concat(PacketsOf(first.received)), Concat(PacketsOf(flush.received));
    AppendedTwice(zeros, 0, a, half, b, out[..]);
    AppendedToZeros(zeros, a + b, out[..]);
    return Ret(0), size;
  }

  predicate Encodes(pass: Pass)
    requires Terminates(pass.received)
  {
    pass.sendRet >= 0 && !pass.received[Stop(pass.received)].Failed?
  }

  /** Appending twice is appending the concatenation. */
  lemma AppendedTwice(s0: seq<Byte>, index: nat, a: seq<Byte>, s1: seq<Byte>, b: seq<Byte>, s2: seq<Byte>)
    requires Appended(s0, index, a, s1) && Appended(s1, index + |a|, b, s2)
    ensures Appended(s0, index, a + b, s2)
  {
  }

  lemma AppendedToZeros(zeros: seq<Byte>, data: seq<Byte>, after: seq<Byte>)
    requires Appended(zeros, 0, data, after) && forall i :: 0 <= i < |zeros| ==> zeros[i] == 0
    ensures |data| <= |after| && after[..|data|] == data
    ensures forall i :: |data| <= i < |after| ==> after[i] == 0
  {
  }

  lemma ConcatNothing()
    ensures Concat([]) == []
  {
  }

  lemma AppendedFits(before: seq<Byte>, index: nat, data: seq<Byte>, after: seq<Byte>)
    requires Appended(before, index, data, after)
    ensures index + |data| <= |after| == |before|
  {
  }

  lemma AppendedNothing(s: seq<Byte>, index: nat)
    requires index <= |s|
    ensures Appended(s, index, [], s)
  {
  }

  // ---------------------------------------------------------------- decoding

  /** One answer of the decoder when asked for a frame; a frame may fail to convert, or its
      size may not be known. */
  datatype FrameAnswer = NoMoreFrames | BrokenFrame | Frame(converts: bool, sized: bool)

  datatype SendAndReceive = SendAndReceive(sendRet: int, answers: seq<FrameAnswer>)

  /** Sending a packet to the decoder, then receiving frames; at some point it has no more. */
  type FramePass = p: SendAndReceive | StopsFrom(p.answers, 0)
    witness SendAndReceive(0, [NoMoreFrames])

  predicate StopsFrom(answers: seq<FrameAnswer>, from: nat)
    decreases |answers| - from
  {
    from < |answers| && (answers[from] != Frame(true, true) || StopsFrom(answers, from + 1))
  }

  /** The position of the first answer that is not a good frame. */
  function FrameStop(answers: seq<FrameAnswer>, from: nat := 0): (n: nat)
    requires StopsFrom(answers, from)
    ensures from <= n < |answers| && answers[n] != Frame(true, true)
    ensures forall i :: from <= i < n ==> answers[i] == Frame(true, true)
    decreases |answers| - from
  {
    if answers[from] != Frame(true, true) then from else FrameStop(answers, from + 1)
  }

  /** What decoding one packet returns; nothing can be converted without an RGB frame. */
  function FrameRet(pass: FramePass, rgb: bool): int {
    var k := FrameStop(pass.answers);
    if pass.sendRet < 0 || (!rgb && k > 0) || pass.answers[k] != NoMoreFrames then -1 else pass.sendRet
  }

  /** The packet was sent, and all frames before the decoder had no more were received,
      converted and sized. */
  ghost predicate AllFramesGood(pass: FramePass, rgb: bool) {
    pass.sendRet >= 0 &&
    exists k :: 0 <= k < |pass.answers| && pass.answers[k] == NoMoreFrames && (k > 0 ==> rgb) &&
                forall i :: 0 <= i < k ==> pass.answers[i] == Frame(true, true)
  }

  /** Whether it makes the output pointer point to the pixels of the RGB frame: the packet was
      sent, and the first answer was a frame that could be converted. */
  predicate Delivers(pass: FramePass, rgb: bool) {
    pass.sendRet >= 0 && rgb && pass.answers[0].Frame? && pass.answers[0].converts
  }

  method DecodeFrame(heap: Cleanup.Heap, ctx: Cleanup.Block, pixels: Cleanup.Block, pass: FramePass)
    returns (ret: int)
    modifies heap`cells
    ensures var rgb := Has(old(heap.View()), ctx, "rgb_frame");
            ret == FrameRet(pass, rgb) && ret == (if AllFramesGood(pass, rgb) then pass.sendRet else -1)
    ensures var m, rgb := old(heap.View()), Has(old(heap.View()), ctx, "rgb_frame");
            heap.View() == if Delivers(pass, rgb) then Cleanup.Aimed(m, OUT, pixels) else m
  {
    ghost var m, stop := heap.View(), FrameStop(pass.answers);
    if pass.sendRet < 0 {
      return -1;
    }
    var i := 0;
    while true
      invariant i <= stop && (i > 0 ==> Has(m, ctx, "rgb_frame"))
      invariant heap.View() == if i > 0 then Cleanup.Aimed(m, OUT, pixels) else m
      decreases stop - i
    {
      var answer := pass.answers[i];
      if answer == NoMoreFrames {
        return pass.sendRet;
      }
      if answer == BrokenFrame {
        return -1;
      }
      if Cleanup.Field(ctx, "rgb_frame") !in heap.cells || !answer.converts {
        return -1;
      }
      heap.Aim(OUT, pixels);
      if !answer.sized {
        return -1;
      }
      i := i + 1;
    }
  }

  lemma FrameRetTold(pass: FramePass, rgb: bool)
    ensures FrameRet(pass, rgb) == if AllFramesGood(pass, rgb) then pass.sendRet else -1
  {
    var k := FrameStop(pass.answers);
    if AllFramesGood(pass, rgb) {
      var n :| 0 <= n < |pass.answers| && pass.answers[n] == NoMoreFrames && (n > 0 ==> rgb) &&
               forall i :: 0 <= i < n ==> pass.answers[i] == Frame(true, true);
      assert n == k;
    }
  }

  /** What the parser is offered: the call, the position in the input, and the bytes left. */
  datatype Offer = Offer(call: nat, at: nat, size: nat)

  /** How many bytes it took (negative for an error), whether it has completed a packet, and
      how decoding that packet goes. */
  datatype Parsed = Parsed(consumed: int, packetSize: nat, frames: FramePass)

  type Parser = Offer -> Parsed

  /** It takes no more than it is offered. */
  ghost predicate Bounded(parser: Parser) {
    forall o: Offer {:trigger parser(o)} :: parser(o).consumed <= o.size
  }

  /** Where the loop stands in an input of `length` bytes after `n` calls, if it has not been
      left. */
  ghost function Position(parser: Parser, length: nat, n: nat): (p: Option<nat>)
    requires Bounded(parser)
    ensures p.Some? ==> p.value <= length
  {
    if n == 0 then Some(0)
    else
      match Position(parser, length, n - 1)
      case None => None
      case Some(at) =>
        var o := Offer(n - 1, at, length - at);
        if parser(o).consumed < 0 || parser(o).consumed == o.size then None
        else Some(at + parser(o).consumed)
  }

  ghost predicate Finishes(parser: Parser, length: nat)
    requires Bounded(parser)
  {
    exists n: nat :: Position(parser, length, n) == None
  }

  lemma {:induction false} LeftForGood(parser: Parser, length: nat, n: nat, m: nat)
    requires Bounded(parser) && n <= m && Position(parser, length, n) == None
    ensures Position(parser, length, m) == None
  {
    if n < m {
      LeftForGood(parser, length, n, m - 1);
    }
  }

  lemma LastCall(parser: Parser, length: nat) returns (n: nat)
    requires Bounded(parser) && Finishes(parser, length)
    ensures Position(parser, length, n) == None
  {
    n :| Position(parser, length, n) == None;
  }

  lemma StillRunning(parser: Parser, length: nat, n: nat, last: nat)
    requires Bounded(parser) && Position(parser, length, last) == None
    ensures Position(parser, length, n).Some? ==> n < last
  {
    if last <= n {
      LeftForGood(parser, length, last, n);
    }
  }

  /** A call that takes nothing of what is left. */
  ghost predicate Stalls(parser: Parser, length: nat, n: nat)
    requires Bounded(parser)
  {
    Position(parser, length, n).Some? && Position(parser, length, n + 1) == Position(parser, length, n)
  }

  ghost predicate MovesAfter(parser: Parser, length: nat, m: nat)
    requires Bounded(parser)
  {
    exists n: nat :: m <= n && !Stalls(parser, length, n)
  }

  /** The loop is left unless, from some call on, the parser takes nothing. */
  lemma FinishesIff(parser: Parser, length: nat)
    requires Bounded(parser)
    ensures Finishes(parser, length) <==> forall m: nat :: MovesAfter(parser, length, m)
  {
    hide Position, Bounded;
    if Finishes(parser, length) {
      var last: nat :| Position(parser, length, last) == None;
      forall m: nat
        ensures MovesAfter(parser, length, m)
      {
        var n := if m < last then last else m;
        LeftForGood(parser, length, last, n);
        assert !Stalls(parser, length, n);
      }
    }
    if forall m: nat :: MovesAfter(parser, length, m) {
      var n := Gets(parser, length, length + 1);
      assert Position(parser, length, n) == None;
    }
  }

  /** Unless it has been left, the loop gets as far as one likes. */
  lemma {:induction false} Gets(parser: Parser, length: nat, far: nat) returns (n: nat)
    requires Bounded(parser) && forall m: nat :: MovesAfter(parser, length, m)
    ensures Position(parser, length, n).Some? ==> Position(parser, length, n).value >= far
  {
    hide Position, Bounded;
    n := 0;
    if far > 0 {
      var m := Gets(parser, length, far - 1);
      assert MovesAfter(parser, length, m);
      var k: nat :| m <= k && !Stalls(parser, length, k);
      n := k + 1;
      OnlyForward(parser, length, m, k);
      OnlyForward(parser, length, k, n);
    }
  }

  lemma {:induction false} OnlyForward(parser: Parser, length: nat, n: nat, m: nat)
    requires Bounded(parser) && n <= m
    ensures Position(parser, length, m).Some? ==>
              Position(parser, length, n).Some? &&
              Position(parser, length, n).value <= Position(parser, length, m).value
  {
    if n < m {
      OnlyForward(parser, length, n, m - 1);
    }
  }

  /** The pieces taken are consecutive: each offer starts where the last piece ended and
      reaches to the end of the input. */
  ghost predicate Consecutive(input: seq<Byte>, parser: Parser, offers: seq<Offer>, pieces: seq<seq<Byte>>) {
    |offers| == |pieces| &&
    forall k :: 0 <= k < |offers| ==> Takes(input, parser, offers[k], pieces[..k], pieces[k])
  }

  ghost predicate Takes(input: seq<Byte>, parser: Parser, o: Offer, before: seq<seq<Byte>>, piece: seq<Byte>) {
    o.call == |before| && o.at == |Concat(before)| && o.at + o.size == |input| &&
    0 <= parser(o).consumed <= o.size &&
    piece == input[o.at..o.at + parser(o).consumed]
  }

  datatype Decoding = Decoded(ret: int) | ParseFailed | NoContext | NoMemory | NullPacket

  /** What decoding leaves in memory when it has returned `r`; `parsed` and `flushed` tell
      whether frames were delivered before the flush and by it. */
  function DecodeLeaves(m: Cleanup.Memory, opt: Cleanup.Block, ctx: Cleanup.Block, b: Option<Cleanup.Block>,
                        r: Decoding, parsed: bool, flushed: bool, pixels: Cleanup.Block): Cleanup.Memory
  {
    if !Live(m, opt) then m
    else
      var buffered := Cleanup.Stored(m, OUT, b);
      if b == None then GivenUp(buffered, opt, ctx)
      else
        var before := if parsed then Cleanup.Aimed(buffered, OUT, pixels) else buffered;
        if r == ParseFailed then GivenUp(before, opt, ctx)
        else
          var flushing := Cleanup.Stored(before, Cleanup.Field(ctx, "packet"), None);
          var after := if flushed then Cleanup.Aimed(flushing, OUT, pixels) else flushing;
          if r == Decoded(-1) then GivenUp(after, opt, ctx) else after
  }

  /** Every byte of the input is taken exactly once, in order.  The result is that of the
      flush at the end: failures of single frames are forgotten.  `pixels` is the buffer that
      the RGB frame converts into. */
  method Decode(heap: Cleanup.Heap, opt: Cleanup.Block, ctx: Cleanup.Block, b: Option<Cleanup.Block>,
                pixels: Cleanup.Block, input: seq<Byte>, parser: Parser, flush: FramePass)
    returns (r: Decoding, frames: seq<int>, ghost offers: seq<Offer>, ghost pieces: seq<seq<Byte>>)
    requires Bounded(parser) && Finishes(parser, |input|)
    modifies heap
    ensures var m, rgb := old(heap.View()), Has(old(heap.View()), ctx, "rgb_frame");
            (r != NullPacket ==>
              heap.View() == DecodeLeaves(m, opt, ctx, b, r, Delivered(parser, offers, rgb), Delivers(flush, rgb), pixels)) &&
            (r == NoContext <==> !Live(m, opt)) &&
            (r == NoMemory <==> Live(m, opt) && b == None) &&
            (r == NullPacket <==> Live(m, opt) && b.Some? && !Has(m, ctx, "packet")) &&
            (r.Decoded? ==>
              r.ret == (if AllFramesGood(flush, rgb) then flush.sendRet else -1) &&
              frames == FrameResults(parser, offers, rgb))
    ensures r.Decoded? && r.ret >= 0 ==>
              var m, rgb := old(heap.View()), Has(old(heap.View()), ctx, "rgb_frame");
              var shown := Delivered(parser, offers, rgb) || Delivers(flush, rgb);
              heap.live == m.live + {b.value} && heap.freed == m.freed && heap.faults == m.faults &&
              heap.cells == (m.cells - {Cleanup.Field(ctx, "packet")})[OUT := if shown then pixels else b.value]
    ensures Consecutive(input, parser, offers, pieces) && Concat(pieces) <= input
    ensures r.Decoded? ==> Concat(pieces) == input && |pieces| >= 1
    ensures r == ParseFailed ==>
              var o := Offer(|pieces|, |Concat(pieces)|, |input| - |Concat(pieces)|); parser(o).consumed < 0
  {
    hide Takes, Bounded, Concat, Consecutive, FrameResults, Delivered, Delivers, FrameRet, AllFramesGood, Position, Finishes;
    hide Cleanup.Cleaned, Cleanup.CodingChains;
    frames, offers, pieces := [], [], [];
    NothingTaken(input, parser, Has(heap.View(), ctx, "rgb_frame"));
    if Cleanup.Field(opt, "ctx") !in heap.cells {
      return NoContext, frames, offers, pieces;
    }
    heap.Store(OUT, b);
    if b == None {
      heap.Cleanup(Cleanup.CodingChains(opt, ctx));
      return NoMemory, frames, offers, pieces;
    }
    if Cleanup.Field(ctx, "packet") !in heap.cells {
      return NullPacket, frames, offers, pieces;
    }
    var ok;
    ok, frames, offers, pieces := ParseAll(heap, ctx, pixels, input, parser);
    if !ok {
      heap.Cleanup(Cleanup.CodingChains(opt, ctx));
      return ParseFailed, frames, offers, pieces;
    }
    var ret := FlushDecoder(heap, opt, ctx, pixels, flush);
    ShownOnce(Cleanup.Stored(old(heap.View()), OUT, b), ctx, pixels);
    return Decoded(ret), frames, offers, pieces;
  }

  method FlushDecoder(heap: Cleanup.Heap, opt: Cleanup.Block, ctx: Cleanup.Block, pixels: Cleanup.Block, flush: FramePass)
    returns (ret: int)
    modifies heap
    ensures var rgb := Has(old(heap.View()), ctx, "rgb_frame");
            var after := AfterFrames(Cleanup.Stored(old(heap.View()), Cleanup.Field(ctx, "packet"), None),
                                     Delivers(flush, rgb), pixels);
            ret == (if AllFramesGood(flush, rgb) then flush.sendRet else -1) &&
            heap.View() == if ret == -1 then GivenUp(after, opt, ctx) else after
  {
    hide Delivers, AllFramesGood, Cleanup.Cleaned, Cleanup.CodingChains;
    heap.Store(Cleanup.Field(ctx, "packet"), None);
    ret := DecodeFrame(heap, ctx, pixels, flush);
    if ret == -1 {
      heap.Cleanup(Cleanup.CodingChains(opt, ctx));
    }
  }

  /** Showing frames before the flush, by it, or both. */
  lemma ShownOnce(m: Cleanup.Memory, ctx: Cleanup.Block, pixels: Cleanup.Block)
    ensures forall parsed, flushed :: parsed || flushed ==>
              var s := Cleanup.Field(ctx, "packet");
              AfterFrames(Cleanup.Stored(AfterFrames(m, parsed, pixels), s, None), flushed, pixels).cells ==
              (m.cells - {s})[OUT := pixels]
  {
    var s := Cleanup.Field(ctx, "packet");
    assert m.cells[OUT := pixels] - {s} == (m.cells - {s})[OUT := pixels];
  }

  /** The parse loop. */
  method ParseAll(heap: Cleanup.Heap, ctx: Cleanup.Block, pixels: Cleanup.Block, input: seq<Byte>, parser: Parser)
    returns (ok: bool, frames: seq<int>, ghost offers: seq<Offer>, ghost pieces: seq<seq<Byte>>)
    requires Bounded(parser) && Finishes(parser, |input|)
    modifies heap`cells
    ensures var m, rgb := old(heap.View()), Has(old(heap.View()), ctx, "rgb_frame");
            heap.View() == AfterFrames(m, Delivered(parser, offers, rgb), pixels) &&
            (ok ==> frames == FrameResults(parser, offers, rgb))
    ensures Consecutive(input, parser, offers, pieces) && Concat(pieces) <= input
    ensures ok ==> Concat(pieces) == input && |pieces| >= 1
    ensures !ok ==>
              var o := Offer(|pieces|, |Concat(pieces)|, |input| - |Concat(pieces)|); parser(o).consumed < 0
  {
    hide Bounded, Fed, Concat, Consecutive, FrameResults, Delivered, Delivers, FrameRet, Position, Finishes;
    frames, offers, pieces := [], [], [];
    ghost var m, rgb := heap.View(), Has(heap.View(), ctx, "rgb_frame");
    ghost var last := LastCall(parser, |input|);
    NothingTaken(input, parser, rgb);
    PositionStep(parser, |input|, 0);
    var data: nat, size: nat, call: nat := 0, |input|, 0;
    while true
      invariant data + size == |input| && call < last
      invariant Position(parser, |input|, call) == Some(data)
      invariant Fed(input, parser, rgb, call, data, frames, offers, pieces)
      invariant heap.View() == AfterFrames(m, Delivered(parser, offers, rgb), pixels)
      decreases last - call
    {
      var o := Offer(call, data, size);
      var parsed := parser(o);
      ParserBounded(parser, o);
      PositionStep(parser, |input|, call);
      if parsed.consumed < 0 {
        FedMeans(input, parser, rgb, call, data, frames, offers, pieces);
        return false, frames, offers, pieces;
      }
      FedMore(input, parser, rgb, call, data, frames, offers, pieces);
      pieces := pieces + [input[data..data + parsed.consumed]];
      data := data + parsed.consumed;
      size := size - parsed.consumed;
      call := call + 1;
      if parsed.packetSize > 0 {
        var ret := DecodeFrame(heap, ctx, pixels, parsed.frames);
        frames := frames + [ret];
      }
      offers := offers + [o];
      assert Fed(input, parser, rgb, call, data, frames, offers, pieces);
      if size <= 0 {
        break;
      }
      StillRunning(parser, |input|, call, last);
    }
    FedMeans(input, parser, rgb, call, data, frames, offers, pieces);
    return true, frames, offers, pieces;
  }

  /** The output pointer points to the pixels once a frame has been delivered. */
  function AfterFrames(m: Cleanup.Memory, delivered: bool, pixels: Cleanup.Block): Cleanup.Memory {
    if delivered then Cleanup.Aimed(m, OUT, pixels) else m
  }

  /** What the first `call` calls have taken: the input up to `data`. */
  ghost predicate Fed(input: seq<Byte>, parser: Parser, rgb: bool, call: nat, data: nat,
                      frames: seq<int>, offers: seq<Offer>, pieces: seq<seq<Byte>>) {
    call == |pieces| && data <= |input| && Consecutive(input, parser, offers, pieces) &&
    Concat(pieces) == input[..data] && frames == FrameResults(parser, offers, rgb)
  }

  lemma FedMeans(input: seq<Byte>, parser: Parser, rgb: bool, call: nat, data: nat,
                 frames: seq<int>, offers: seq<Offer>, pieces: seq<seq<Byte>>)
    requires Fed(input, parser, rgb, call, data, frames, offers, pieces)
    ensures call == |pieces| && data == |Concat(pieces)| && Concat(pieces) <= input
    ensures Consecutive(input, parser, offers, pieces) && frames == FrameResults(parser, offers, rgb)
    ensures data == |input| ==> Concat(pieces) == input
  {
    hide Concat, Consecutive, FrameResults;
    assert data == |input| ==> input[..data] == input;
  }

  lemma FedMore(input: seq<Byte>, parser: Parser, rgb: bool, call: nat, data: nat,
                frames: seq<int>, offers: seq<Offer>, pieces: seq<seq<Byte>>)
    requires Fed(input, parser, rgb, call, data, frames, offers, pieces)
    requires 0 <= parser(Offer(call, data, |input| - data)).consumed <= |input| - data
    ensures var o := Offer(call, data, |input| - data);
            var p, end := parser(o), data + parser(o).consumed;
            Fed(input, parser, rgb, call + 1, end,
                if p.packetSize > 0 then frames + [FrameRet(p.frames, rgb)] else frames,
                offers + [o], pieces + [input[data..end]])
    ensures var o := Offer(call, data, |input| - data);
            Delivered(parser, offers + [o], rgb) <==>
              Delivered(parser, offers, rgb) || (parser(o).packetSize > 0 && Delivers(parser(o).frames, rgb))
  {
    hide Consecutive, Concat, FrameResults, Delivered, FrameRet, Delivers;
    var o := Offer(call, data, |input| - data);
    MorePieces(input, parser, offers, pieces, o);
    FrameResultsSnoc(parser, offers, o, rgb);
  }

  lemma ParserBounded(parser: Parser, o: Offer)
    requires Bounded(parser)
    ensures parser(o).consumed <= o.size
  {
  }

  lemma PositionStep(parser: Parser, length: nat, n: nat)
    requires Bounded(parser)
    ensures Position(parser, length, 0) == Some(0)
    ensures Position(parser, length, n).Some? ==>
              var at := Position(parser, length, n).value;
              var o := Offer(n, at, length - at);
              Position(parser, length, n + 1) ==
                if parser(o).consumed < 0 || parser(o).consumed == o.size then None
                else Some(at + parser(o).consumed)
  {
  }

  /** What decoding each completed packet returned. */
  ghost function FrameResults(parser: Parser, offers: seq<Offer>, rgb: bool): seq<int> {
    if offers == [] then []
    else
      var p := parser(offers[|offers| - 1]);
      FrameResults(parser, offers[..|offers| - 1], rgb) +
      (if p.packetSize > 0 then [FrameRet(p.frames, rgb)] else [])
  }

  /** Whether some completed packet delivered a frame. */
  ghost predicate Delivered(parser: Parser, offers: seq<Offer>, rgb: bool) {
    exists k :: 0 <= k < |offers| && DeliversAt(parser, offers[k], rgb)
  }

  ghost predicate DeliversAt(parser: Parser, o: Offer, rgb: bool) {
    parser(o).packetSize > 0 && Delivers(parser(o).frames, rgb)
  }

  lemma FrameResultsSnoc(parser: Parser, offers: seq<Offer>, o: Offer, rgb: bool)
    ensures FrameResults(parser, offers + [o], rgb) ==
            FrameResults(parser, offers, rgb) +
            (if parser(o).packetSize > 0 then [FrameRet(parser(o).frames, rgb)] else [])
    ensures Delivered(parser, offers + [o], rgb) <==>
            Delivered(parser, offers, rgb) || (parser(o).packetSize > 0 && Delivers(parser(o).frames, rgb))
  {
    hide FrameRet, Delivers;
    var more := offers + [o];
    assert more[..|offers|] == offers && more[|offers|] == o;
    forall k | 0 <= k < |offers|
      ensures DeliversAt(parser, more[k], rgb) <==> DeliversAt(parser, offers[k], rgb)
    {
      assert more[k] == offers[k];
    }
    assert DeliversAt(parser, more[|offers|], rgb) <==> DeliversAt(parser, o, rgb);
    if Delivered(parser, offers, rgb) {
      var k :| 0 <= k < |offers| && DeliversAt(parser, offers[k], rgb);
      assert DeliversAt(parser, more[k], rgb);
    }
  }

  /** The calls that completed a packet. */
  function Completed(parser: Parser, offers: seq<Offer>): set<nat> {
    set k: nat | k < |offers| && parser(offers[k]).packetSize > 0
  }

  lemma CompletedSnoc(parser: Parser, offers: seq<Offer>)
    requires offers != []
    ensures var n := |offers| - 1;
            var before := Completed(parser, offers[..n]);
            n !in before &&
            Completed(parser, offers) == if parser(offers[n]).packetSize > 0 then before + {n} else before
  {
  }

  /** Every packet that the parser completed is decoded, once: there are as many results as
      completed packets, each of them -1 unless all frames of its packet were good. */
  lemma {:induction false} PacketsDecoded(parser: Parser, offers: seq<Offer>, rgb: bool)
    ensures |FrameResults(parser, offers, rgb)| == |Completed(parser, offers)|
    ensures forall k :: k in Completed(parser, offers) ==>
              var p := parser(offers[k]).frames;
              (if AllFramesGood(p, rgb) then p.sendRet else -1) in FrameResults(parser, offers, rgb)
  {
    hide AllFramesGood, FrameRet;
    if offers != [] {
      var n := |offers| - 1;
      PacketsDecoded(parser, offers[..n], rgb);
      FrameRetTold(parser(offers[n]).frames, rgb);
      CompletedSnoc(parser, offers);
    }
  }

  /** Frames are shown exactly if the first answer to some packet that was completed and sent
      is a frame that converts. */
  lemma DeliveredTold(parser: Parser, offers: seq<Offer>, rgb: bool)
    ensures Delivered(parser, offers, rgb) <==>
            rgb && exists k :: k in Completed(parser, offers) && ShownFirst(parser(offers[k]).frames)
  {
    if Delivered(parser, offers, rgb) {
      var k :| 0 <= k < |offers| && DeliversAt(parser, offers[k], rgb);
      assert k in Completed(parser, offers) && ShownFirst(parser(offers[k]).frames);
    }
    if rgb && exists k :: k in Completed(parser, offers) && ShownFirst(parser(offers[k]).frames) {
      var k :| k in Completed(parser, offers) && ShownFirst(parser(offers[k]).frames);
      assert DeliversAt(parser, offers[k], rgb);
    }
  }

  predicate ShownFirst(pass: FramePass) {
    pass.sendRet >= 0 && exists sized :: pass.answers[0] == Frame(true, sized)
  }

  lemma NothingTaken(input: seq<Byte>, parser: Parser, rgb: bool)
    ensures Fed(input, parser, rgb, 0, 0, [], [], [])
    ensures Consecutive(input, parser, [], []) && Concat([]) == [] && FrameResults(parser, [], rgb) == []
    ensures !Delivered(parser, [], rgb)
  {
  }

  lemma MorePieces(input: seq<Byte>, parser: Parser, offers: seq<Offer>, pieces: seq<seq<Byte>>, o: Offer)
    requires Consecutive(input, parser, offers, pieces)
    requires o.call == |pieces| && o.at == |Concat(pieces)| && o.at + o.size == |input|
    requires Concat(pieces) == input[..o.at] && 0 <= parser(o).consumed <= o.size
    ensures var piece := input[o.at..o.at + parser(o).consumed];
            Consecutive(input, parser, offers + [o], pieces + [piece]) &&
            Concat(pieces + [piece]) == input[..o.at + parser(o).consumed]
  {
    var piece := input[o.at..o.at + parser(o).consumed];
    ConcatSnoc(pieces, piece);
    assert Takes(input, parser, o, pieces, piece);
    assert Concat(pieces) + piece == input[..o.at + parser(o).consumed];
    hide Takes, Concat;
    var offers', pieces' := offers + [o], pieces + [piece];
    forall k | 0 <= k < |offers'|
      ensures Takes(input, parser, offers'[k], pieces'[..k], pieces'[k])
    {
      if k < |pieces| {
        assert pieces'[..k] == pieces[..k];
      } else {
        assert pieces'[..k] == pieces;
      }
    }
  }

  lemma PrefixGrows(a: seq<Byte>, s: seq<Byte>, k: nat)
    requires a <= s && |a| + k <= |s|
    ensures a + s[|a|..|a| + k] <= s
  {
    assert a + s[|a|..|a| + k] == s[..|a| + k];
  }

  /** Consecutive pieces that reach the end make up the input: no byte is skipped or offered
      again once taken. */
  lemma {:induction false} PiecesPartition(input: seq<Byte>, parser: Parser, offers: seq<Offer>,
                                           pieces: seq<seq<Byte>>, n: nat)
    requires Consecutive(input, parser, offers, pieces) && n <= |pieces|
    ensures Concat(pieces[..n]) <= input
    ensures n < |pieces| ==> offers[n].at == |Concat(pieces[..n])|
  {
    hide Concat;
    ConcatNothing();
    if n > 0 {
      PiecesPartition(input, parser, offers, pieces, n - 1);
      var before, piece := pieces[..n - 1], pieces[n - 1];
      assert Takes(input, parser, offers[n - 1], before, piece);
      assert pieces[..n] == before + [piece];
      ConcatSnoc(before, piece);
      PrefixGrows(Concat(before), input, |piece|);
    }
    if n < |pieces| {
      assert Takes(input, parser, offers[n], pieces[..n], pieces[n]);
    }
  }

  // ---------------------------------------------------------------- one call per context

  /** After a successful encode the context has no frame: the next encode fails whatever it
      is given, and finishing instead leaks the frame of the first. */
  lemma EncodesOnce(m: Cleanup.Memory, opt: Cleanup.Block, ctx: Cleanup.Block, b: Cleanup.Block,
                    first: Pass, flush: Pass)
    requires Cleanup.Opened(m, opt, ctx) && Has(m, ctx, "yuv_frame") && Cleanup.Unused(m, b)
    requires Terminates(first.received) && Terminates(flush.received) && Encodes(first) && Encodes(flush)
    ensures var left := EncodeLeaves(m, opt, ctx, true, Some(b), first, flush);
            (forall converted, b', first': Pass, flush': Pass | Terminates(first'.received) && Terminates(flush'.received) ::
              EncodeLeaves(left, opt, ctx, converted, b', first', flush') == GivenUp(left, opt, ctx)) &&
            LeaksOnFini(left, opt, ctx, m.cells[Cleanup.Field(ctx, "yuv_frame")])
  {
    hide Cleanup.Cleaned, Cleanup.CodingChains, Cleanup.FiniChains, Cleanup.Leaked;
    Cleanup.StillOpened(m, opt, ctx, b);
    var buffered := Cleanup.Stored(m, OUT, Some(b));
    Cleanup.OverwrittenMemberLeaks(buffered, opt, ctx, "yuv_frame");
  }

  /** After a decode that reached its flush the context has no packet: the next decode uses a
      null packet, and finishing instead leaks the packet. */
  lemma DecodesOnce(m: Cleanup.Memory, opt: Cleanup.Block, ctx: Cleanup.Block, b: Cleanup.Block, ret: int,
                    parsed: bool, flushed: bool, pixels: Cleanup.Block)
    requires Cleanup.Opened(m, opt, ctx) && Has(m, ctx, "packet") && Cleanup.Unused(m, b) && ret != -1
    requires Cleanup.Leaked(m, pixels)
    ensures var left := DecodeLeaves(m, opt, ctx, Some(b), Decoded(ret), parsed, flushed, pixels);
            Live(left, opt) && !Has(left, ctx, "packet") &&
            LeaksOnFini(left, opt, ctx, m.cells[Cleanup.Field(ctx, "packet")])
  {
    hide Cleanup.Cleaned, Cleanup.CodingChains, Cleanup.FiniChains, Cleanup.Opened, Cleanup.Leaked;
    Cleanup.StillOpened(m, opt, ctx, b);
    Cleanup.StillLeaked(m, b, pixels);
    var buffered := Cleanup.Stored(m, OUT, Some(b));
    Cleanup.StillOpenedAiming(buffered, opt, ctx, pixels);
    var aimed := if parsed || flushed then Cleanup.Aimed(buffered, OUT, pixels) else buffered;
    Cleanup.OverwrittenMemberLeaks(aimed, opt, ctx, "packet");
    AimingLast(buffered, ctx, pixels);
    AimingLast(aimed, ctx, pixels);
    CtxIsLive(m, opt, ctx);
    assert DecodeLeaves(m, opt, ctx, Some(b), Decoded(ret), parsed, flushed, pixels)
        == Cleanup.Stored(aimed, Cleanup.Field(ctx, "packet"), None);
  }

  lemma AimingLast(m: Cleanup.Memory, ctx: Cleanup.Block, pixels: Cleanup.Block)
    ensures var s := Cleanup.Field(ctx, "packet");
            Cleanup.Aimed(Cleanup.Stored(m, s, None), OUT, pixels) ==
            Cleanup.Stored(Cleanup.Aimed(m, OUT, pixels), s, None)
    ensures Cleanup.Aimed(Cleanup.Aimed(m, OUT, pixels), OUT, pixels) == Cleanup.Aimed(m, OUT, pixels)
  {
    var s := Cleanup.Field(ctx, "packet");
    assert (m.cells - {s})[OUT := pixels] == m.cells[OUT := pixels] - {s};
  }

  lemma CtxIsLive(m: Cleanup.Memory, opt: Cleanup.Block, ctx: Cleanup.Block)
    requires Cleanup.Opened(m, opt, ctx)
    ensures Live(m, opt) && m.cells[Cleanup.Field(opt, "ctx")] == ctx && ctx != opt
  {
  }

  /** `w_ffmpeg_fini` leaks `lost`, and frees in order all that the context still holds and
      then the context, without misusing memory. */
  ghost predicate LeaksOnFini(m: Cleanup.Memory, opt: Cleanup.Block, ctx: Cleanup.Block, lost: Cleanup.Block) {
    var w := Cleanup.Cleaned(m, Cleanup.FiniChains(opt, ctx), 6);
    Cleanup.Leaked(w, lost) && w.faults == m.faults &&
    w.freed == m.freed + (Cleanup.HeldMembers(m, ctx) +
                          Cleanup.Held(m, Cleanup.Field(ctx, "parser")) + [ctx])
  }
}
