/** The framing of LZMA1 and LZMA2 buffers: property bytes, then the original size in eight
    little-endian bytes, then the payload.  The two codecs are parameters that obey small
    contracts. */
module Lzma {
  import opened Bytes

  const HEADER_SIZE: nat := 8
  const PROPS_SIZE: nat := 5
  const U64: int := 0x1_0000_0000_0000_0000
  const U64_MAX: int := 0xFFFF_FFFF_FFFF_FFFF
  const U32_MAX: int := 0xFFFF_FFFF
  const MAX_SIZE: nat := 256 * 1024 * 1024
  const BUF_SIZE: nat := 10240

  // ---------------------------------------------------------------- the size header

  /** `n >> (8 * i)`. */
  function ShiftRight(n: nat, i: nat): nat {
    if i == 0 then n else ShiftRight(n / 256, i - 1)
  }

  /** `n << (8 * i)`, before truncation to the word. */
  function ShiftLeft(n: nat, i: nat): nat {
    if i == 0 then n else 256 * ShiftLeft(n, i - 1)
  }

  /** Bitwise or. */
  function Or(a: nat, b: nat): nat {
    if a == 0 && b == 0 then 0
    else 2 * Or(a / 2, b / 2) + (if a % 2 == 1 || b % 2 == 1 then 1 else 0)
  }

  /** The low `k` bytes of `n`, lowest first: what the write loop pushes. */
  function Written(n: nat, k: nat): (s: seq<Byte>)
    ensures |s| == k
  {
    seq(k, i requires 0 <= i < k => ShiftRight(n, i) % 256)
  }

  /** What the read loop has gathered after `i` bytes. */
  function Gathered(s: seq<Byte>, i: nat): nat
    requires i <= |s|
  {
    if i == 0 then 0
    else
      var c := ShiftLeft(s[i - 1], i - 1) % U64;
      if c < U64_MAX then Or(Gathered(s, i - 1), c) else Gathered(s, i - 1)
  }

  /** The number a little-endian byte string stands for. */
  function Value(s: seq<Byte>): nat {
    if s == [] then 0 else s[0] + 256 * Value(s[1..])
  }

  method WriteSize(n: nat, v: Vec)
    modifies v
    ensures v.data == old(v.data) + Written(n, HEADER_SIZE)
  {
    var i := 0;
    while i < HEADER_SIZE
      invariant i <= HEADER_SIZE
      invariant v.data == old(v.data) + Written(n, i)
    {
      v.data := v.data + [ShiftRight(n, i) % 256];
      i := i + 1;
      assert Written(n, i) == Written(n, i - 1) + [ShiftRight(n, i - 1) % 256];
    }
  }

  method ReadSize(src: seq<Byte>, offset: nat) returns (size: nat)
    requires offset + HEADER_SIZE <= |src|
    ensures size == Value(src[offset..offset + HEADER_SIZE]) <= U64_MAX
  {
    ghost var header := src[offset..offset + HEADER_SIZE];
    size := 0;
    var i := 0;
    while i < HEADER_SIZE
      invariant i <= HEADER_SIZE
      invariant size == Gathered(header, i)
    {
      var a := src[offset + i];
      var c := ShiftLeft(a, i) % U64;
      if c < U64_MAX {
        size := Or(size, c);
      }
      i := i + 1;
    }
    GatheredIsValue(header, HEADER_SIZE);
    assert header[..HEADER_SIZE] == header;
    ValueBelow(header);
  }

  lemma {:induction false} OrWithZero(b: nat)
    ensures Or(0, b) == b
  {
    if b > 0 {
      OrWithZero(b / 2);
    }
  }

  function Twice(n: nat, k: nat): nat {
    if k == 0 then n else 2 * Twice(n, k - 1)
  }

  /** Or-ing a number into the bits above another one adds them. */
  lemma {:induction false} OrAdds(a: nat, b: nat, k: nat)
    requires a < Twice(1, k)
    ensures Or(a, Twice(b, k)) == a + Twice(b, k)
  {
    if k == 0 {
      OrWithZero(b);
    } else {
      OrAdds(a / 2, b, k - 1);
    }
  }

  lemma {:induction false} ShiftLeftIsTwice(n: nat, i: nat)
    ensures ShiftLeft(n, i) == Twice(n, 8 * i)
  {
    if i > 0 {
      ShiftLeftIsTwice(n, i - 1);
      TwiceEight(n, 8 * (i - 1));
    }
  }

  lemma TwiceEight(n: nat, k: nat)
    ensures Twice(n, k + 8) == 256 * Twice(n, k)
  {
    assert Twice(n, k + 2) == 4 * Twice(n, k);
    assert Twice(n, k + 4) == 4 * Twice(n, k + 2);
    assert Twice(n, k + 6) == 4 * Twice(n, k + 4);
  }

  lemma {:induction false} ShiftLeftBelow(n: nat, m: nat, i: nat)
    requires n < m
    ensures ShiftLeft(n, i) + ShiftLeft(1, i) <= ShiftLeft(m, i)
    ensures ShiftLeft(256, i) == ShiftLeft(1, i + 1)
  {
    if i > 0 {
      ShiftLeftBelow(n, m, i - 1);
    }
  }

  lemma {:induction false} ValueBelow(s: seq<Byte>)
    ensures Value(s) < ShiftLeft(1, |s|)
  {
    if s != [] {
      ValueBelow(s[1..]);
    }
    EightBytes();
  }

  lemma EightBytes()
    ensures ShiftLeft(1, 8) == U64
  {
    assert ShiftLeft(1, 4) == 0x1_0000_0000;
    assert ShiftLeft(1, 6) == 0x1_0000_0000_0000;
  }

  lemma {:induction false} ValueSnoc(s: seq<Byte>, b: Byte)
    ensures Value(s + [b]) == Value(s) + ShiftLeft(b, |s|)
  {
    if s == [] {
      assert [b][1..] == [];
    } else {
      assert (s + [b])[1..] == s[1..] + [b];
      ValueSnoc(s[1..], b);
    }
  }

  /** No byte is ever truncated or dropped by the guard of the read loop. */
  lemma GuardNeverDrops(b: Byte, i: nat)
    requires i < HEADER_SIZE
    ensures ShiftLeft(b, i) % U64 == ShiftLeft(b, i) < U64_MAX
  {
    ShiftLeftBelow(b, 256, i);
    ShiftLeftMonotone(1, i + 1, 8);
    EightBytes();
    if i == 0 {
    } else {
      assert ShiftLeft(1, i) >= 256 by { ShiftLeftMonotone(1, 1, i); }
    }
  }

  lemma {:induction false} ShiftLeftMonotone(n: nat, i: nat, k: nat)
    requires i <= k
    ensures ShiftLeft(n, i) <= ShiftLeft(n, k)
  {
    if i < k {
      ShiftLeftMonotone(n, i, k - 1);
    }
  }

  lemma {:induction false} GatheredIsValue(s: seq<Byte>, i: nat)
    requires i <= |s| && i <= HEADER_SIZE
    ensures Gathered(s, i) == Value(s[..i])
  {
    if i > 0 {
      GatheredIsValue(s, i - 1);
      GuardNeverDrops(s[i - 1], i - 1);
      ValueBelow(s[..i - 1]);
      ShiftLeftIsTwice(1, i - 1);
      ShiftLeftIsTwice(s[i - 1], i - 1);
      OrAdds(Value(s[..i - 1]), s[i - 1], 8 * (i - 1));
      assert s[..i] == s[..i - 1] + [s[i - 1]];
      ValueSnoc(s[..i - 1], s[i - 1]);
    }
  }

  /** The lowest byte comes first. */
  lemma LowestFirst(n: nat, k: nat)
    requires k > 0
    ensures Written(n, k)[0] == n % 256 && Written(n, k)[1..] == Written(n / 256, k - 1)
  {
  }

  /** Reading back the bytes written for `n` gives `n`. */
  lemma {:induction false} ValueOfWritten(n: nat, k: nat)
    requires n < ShiftLeft(1, k)
    ensures Value(Written(n, k)) == n
  {
    if k > 0 {
      assert Written(n, k)[1..] == Written(n / 256, k - 1);
      ValueOfWritten(n / 256, k - 1);
    }
  }

  /** Writing the number that was read from any header bytes gives those bytes back. */
  lemma {:induction false} WrittenOfValue(s: seq<Byte>)
    ensures Written(Value(s), |s|) == s
  {
    if s != [] {
      var n := Value(s);
      WrittenOfValue(s[1..]);
      assert n / 256 == Value(s[1..]) && n % 256 == s[0];
      assert Written(n, |s|)[1..] == Written(n / 256, |s| - 1);
      assert Written(n, |s|)[0] == s[0];
      assert Written(n, |s|) == [s[0]] + s[1..];
    }
  }

  lemma SizeRoundTrip(before: seq<Byte>, n: nat, after: seq<Byte>)
    requires n <= U64_MAX
    ensures var src := before + Written(n, HEADER_SIZE) + after;
            Value(src[|before|..|before| + HEADER_SIZE]) == n
  {
    var src := before + Written(n, HEADER_SIZE) + after;
    assert src[|before|..|before| + HEADER_SIZE] == Written(n, HEADER_SIZE);
    EightBytes();
    ValueOfWritten(n, HEADER_SIZE);
  }

  // ---------------------------------------------------------------- LZMA1

  datatype Encoded<P> = Encoded(props: P, payload: seq<Byte>)

  /** Encoding is given its options; decoding the properties, the payload and the
      size it should produce. */
  datatype Codec1 = Codec1(
    encode: (seq<Byte>, Options) -> Option<Encoded<seq<Byte>>>,
    decode: (seq<Byte>, seq<Byte>, nat) -> Option<seq<Byte>>)

  ghost predicate Lawful1(codec: Codec1) {
    forall x, o {:trigger codec.encode(x, o)} ::
      codec.encode(x, o).Some? ==>
        var e := codec.encode(x, o).value;
        |e.props| == PROPS_SIZE && 0 < |e.payload| && codec.decode(e.props, e.payload, |x|) == Some(x)
  }

  function Capacity(n: nat): nat {
    if n * 2 < 1024 then 1024 else n * 2
  }

  /** What an encoder is told: its level, the size of its dictionary, and the room for output. */
  datatype Options = Options(level: nat, dictionary: nat, capacity: nat)

  /** A length passed as a signed 32-bit number. */
  function AsInt32(n: nat): int {
    (n + 0x8000_0000) % 0x1_0000_0000 - 0x8000_0000
  }

  const LARGEST_DICTIONARY: nat := 0x6000_0000

  /** The dictionary covers the whole source, between 4 KiB and 1.5 GiB. */
  function DictionaryFor(n: nat): nat {
    if AsInt32(n) <= 4096 then 4096
    else if AsInt32(n) >= LARGEST_DICTIONARY then LARGEST_DICTIONARY
    else AsInt32(n)
  }

  function OptionsFor(n: nat, level: nat): Options {
    Options(Min(level, 9), DictionaryFor(n), Capacity(n))
  }

  /** What encoders are told: level 9 at most; a dictionary between 4 KiB and 1.5 GiB that
      covers a source of less than 2 GiB, if it can; and room for twice the source, or 1024
      bytes. */
  lemma OptionsTold(n: nat, level: nat)
    ensures var o := OptionsFor(n, level);
            o.level <= 9 && (level <= 9 ==> o.level == level) && (level > 9 ==> o.level == 9) &&
            4096 <= o.dictionary <= 0x6000_0000 &&
            (n < 0x8000_0000 ==> o.dictionary >= n || o.dictionary == 0x6000_0000) &&
            (4096 <= n <= 0x6000_0000 ==> o.dictionary == n) &&
            o.capacity >= 1024 && o.capacity >= 2 * n && (n >= 512 ==> o.capacity == 2 * n) && (n < 512 ==> o.capacity == 1024)
  {
  }

  datatype Outcome =
    | Returned(bytes: seq<Byte>)
    | Aborted      // a checked subscript past the end of the source
    | Overrun      // more output than the buffer allocated for it

  method Compress1(src: seq<Byte>, level: nat, memory: bool, codec: Codec1) returns (out: seq<Byte>)
    requires |src| <= U64_MAX
    ensures var e := codec.encode(src, OptionsFor(|src|, level));
            out == if |src| > 0 && memory && e.Some?
                   then e.value.props + Written(|src|, HEADER_SIZE) + e.value.payload else []
  {
    if |src| == 0 || !memory {
      return [];
    }
    var encoded := codec.encode(src, OptionsFor(|src|, level));
    if encoded == None {
      return [];
    }
    var v := new Vec();
    v.data := encoded.value.props;
    WriteSize(|src|, v);
    return v.data + encoded.value.payload;
  }

  /** What decompression of an LZMA1 buffer amounts to. */
  function Decompressed1(src: seq<Byte>, memory: bool, codec: Codec1): Outcome {
    if |src| < HEADER_SIZE + PROPS_SIZE then Returned([])
    else
      var size := Value(src[PROPS_SIZE..PROPS_SIZE + HEADER_SIZE]);
      if size > MAX_SIZE || !memory then Returned([])
      else if |src| == HEADER_SIZE + PROPS_SIZE then Aborted
      else
        match codec.decode(src[..PROPS_SIZE], src[HEADER_SIZE + PROPS_SIZE..], size)
        case Some(x) => Returned(if |x| == size then x else [])
        case None => Returned([])
  }

  method Decompress1(src: seq<Byte>, memory: bool, codec: Codec1) returns (r: Outcome)
    ensures r == Decompressed1(src, memory, codec)
  {
    if |src| < HEADER_SIZE + PROPS_SIZE {
      return Returned([]);
    }
    var sizeFromHeader := ReadSize(src, PROPS_SIZE);
    if sizeFromHeader <= MAX_SIZE {
      if !memory {
        return Returned([]);
      }
      if HEADER_SIZE + PROPS_SIZE >= |src| {
        return Aborted;
      }
      var decoded := codec.decode(src[..PROPS_SIZE], src[HEADER_SIZE + PROPS_SIZE..], sizeFromHeader);
      if decoded.Some? && |decoded.value| == sizeFromHeader {
        return Returned(decoded.value);
      }
      return Returned([]);
    }
    return Returned([]);
  }

  /** Whatever the encoder produced for `x` decompresses to `x` if and only if `x` is at
      most 256 MiB long; a longer one compresses, but is refused on the way back. */
  lemma RoundTrip1(x: seq<Byte>, level: nat, codec: Codec1)
    requires Lawful1(codec) && 0 < |x| <= U64_MAX
    requires codec.encode(x, OptionsFor(|x|, level)).Some?
    ensures var e := codec.encode(x, OptionsFor(|x|, level)).value;
            var src := e.props + Written(|x|, HEADER_SIZE) + e.payload;
            Decompressed1(src, true, codec) == Returned(if |x| <= 256 * 1024 * 1024 then x else [])
  {
    var e := codec.encode(x, OptionsFor(|x|, level)).value;
    var src := e.props + Written(|x|, HEADER_SIZE) + e.payload;
    SizeRoundTrip(e.props, |x|, e.payload);
    assert src[..PROPS_SIZE] == e.props;
    assert src[HEADER_SIZE + PROPS_SIZE..] == e.payload;
  }

  /** Something is returned if and only if the frame is complete, its size is accepted, and what
      the decoder produces has exactly that size. */
  lemma ReturnsIff(src: seq<Byte>, memory: bool, codec: Codec1, x: seq<Byte>)
    requires x != []
    ensures Decompressed1(src, memory, codec) == Returned(x) <==>
            |src| > 13 && memory && Value(src[5..13]) == |x| <= 256 * 1024 * 1024 &&
            codec.decode(src[..5], src[13..], |x|) == Some(x)
  {
  }

  /** A frame with no payload is not rejected: it aborts exactly when its size is accepted. */
  lemma BareHeaderAborts(src: seq<Byte>, codec: Codec1)
    ensures Decompressed1(src, true, codec) == Aborted <==>
            |src| == HEADER_SIZE + PROPS_SIZE && Value(src[PROPS_SIZE..]) <= MAX_SIZE
  {
    if |src| == HEADER_SIZE + PROPS_SIZE {
      assert src[PROPS_SIZE..] == src[PROPS_SIZE..PROPS_SIZE + HEADER_SIZE];
    }
  }

  // ---------------------------------------------------------------- LZMA2

  /** One answer of the chunked decoder. */
  datatype Chunk = Chunk(ok: bool, consumed: nat, produced: seq<Byte>, finished: bool)

  /** The decoder is asked with the number of the call, the bytes it has taken so far, how many
      it has given so far, the room for output, the bytes on offer, and whether the output
      should end here. */
  datatype Request = Request(call: nat, taken: seq<Byte>, given: nat, room: nat, offered: seq<Byte>, end: bool)

  type Decoder2 = Request -> Chunk

  /** It takes and gives no more than was offered. */
  ghost predicate Bounded(d: Decoder2) {
    forall q: Request {:trigger d(q)} :: d(q).consumed <= |q.offered| && |d(q).produced| <= q.room
  }

  function Min(a: nat, b: nat): nat {
    if a < b then a else b
  }

  /** The loop between two calls: the input cursor, a 32-bit number, all bytes the decoder has
      taken and all it has produced; or the outcome. */
  datatype Progress =
    | Going(inPos: nat, taken: seq<Byte>, out: seq<Byte>)
    | Over(outcome: Outcome)

  /** At most a buffer's worth of room and of input, and the finish flag when the room ends
      exactly at the size in the header. */
  function Asked(src: seq<Byte>, size: nat, k: nat, g: Progress): Request
    requires g.Going? && g.inPos <= |src| && |g.out| <= 2 * size
  {
    var room := Min(BUF_SIZE, 2 * size - |g.out|);
    var offered := src[g.inPos..g.inPos + Min(BUF_SIZE, |src| - g.inPos)];
    Request(k, g.taken, |g.out|, room, offered, |g.out| + room == size)
  }

  function Answered(src: seq<Byte>, size: nat, g: Progress, q: Request, c: Chunk): Progress
    requires g.Going? && c.consumed <= |q.offered|
  {
    var out := g.out + c.produced;
    if |out| > size then Over(Overrun)
    else if !c.ok then Over(Returned([]))
    else if c.finished then Over(Returned(if |out| == size then out else []))
    else Going((g.inPos + c.consumed) % (U32_MAX + 1), g.taken + q.offered[..c.consumed], out)
  }

  /** One turn of the loop. */
  ghost function Turn(d: Decoder2, src: seq<Byte>, size: nat, k: nat, g: Progress): Progress
    requires Bounded(d) && g.Going?
  {
    if |g.out| >= 2 * size then Over(Returned(if |g.out| == size then g.out else []))
    else if g.inPos >= |src| then Over(Aborted)
    else var q := Asked(src, size, k, g); Answered(src, size, g, q, d(q))
  }

  /** The loop after `n` turns. */
  ghost function Turns(d: Decoder2, src: seq<Byte>, size: nat, n: nat): Progress
    requires Bounded(d)
  {
    if n == 0 then Going(HEADER_SIZE + 1, [], [])
    else
      var g := Turns(d, src, size, n - 1);
      if g.Over? then g else Turn(d, src, size, n - 1, g)
  }

  ghost predicate Ends(d: Decoder2, src: seq<Byte>, size: nat)
    requires Bounded(d)
  {
    exists n: nat :: Turns(d, src, size, n).Over?
  }

  lemma {:induction false} OverStays(d: Decoder2, src: seq<Byte>, size: nat, n: nat, m: nat)
    requires Bounded(d) && n <= m && Turns(d, src, size, n).Over?
    ensures Turns(d, src, size, m) == Turns(d, src, size, n)
  {
    if n < m {
      OverStays(d, src, size, n, m - 1);
    }
  }

  ghost function Chunked(d: Decoder2, src: seq<Byte>, size: nat): (r: Outcome)
    requires Bounded(d) && Ends(d, src, size)
    ensures forall n: nat :: Turns(d, src, size, n).Over? ==> Turns(d, src, size, n).outcome == r
  {
    var m: nat :| Turns(d, src, size, m).Over?;
    assert forall n: nat :: Turns(d, src, size, n).Over? ==>
             Turns(d, src, size, n) == Turns(d, src, size, m) by {
      forall n: nat | Turns(d, src, size, n).Over?
        ensures Turns(d, src, size, n) == Turns(d, src, size, m)
      {
        if n <= m {
          OverStays(d, src, size, n, m);
        } else {
          OverStays(d, src, size, m, n);
        }
      }
    }
    Turns(d, src, size, m).outcome
  }

  function HeaderSize2(src: seq<Byte>): nat
    requires |src| >= HEADER_SIZE + 1
  {
    Value(src[1..1 + HEADER_SIZE])
  }

  /** Whether the chunk loop is entered, and so has to end. */
  predicate Enters(src: seq<Byte>, memory: bool) {
    |src| >= HEADER_SIZE + 1 && HeaderSize2(src) <= MAX_SIZE && memory
  }

  /** The decoder is set up with property 0, whatever property the source begins with. */
  ghost function Decompressed2(src: seq<Byte>, memory: bool, decoder: Byte -> Decoder2): Outcome
    requires Bounded(decoder(0)) && (Enters(src, memory) ==> Ends(decoder(0), src, HeaderSize2(src)))
  {
    if Enters(src, memory) then Chunked(decoder(0), src, HeaderSize2(src)) else Returned([])
  }

  /** `chunks` is what the decoder produced, call by call. */
  method Decompress2(src: seq<Byte>, memory: bool, decoder: Byte -> Decoder2)
    returns (r: Outcome, ghost chunks: seq<seq<Byte>>)
    requires Bounded(decoder(0)) && (Enters(src, memory) ==> Ends(decoder(0), src, HeaderSize2(src)))
    ensures r == Decompressed2(src, memory, decoder)
    ensures r.Returned? && r.bytes != [] ==>
              r.bytes == Concat(chunks) && |r.bytes| == HeaderSize2(src) <= MAX_SIZE
  {
    hide Value, Concat;
    chunks := [];
    if |src| < HEADER_SIZE + 1 {
      return Returned([]), chunks;
    }
    var sizeFromHeader := ReadSize(src, 1);
    if sizeFromHeader > MAX_SIZE || !memory {
      return Returned([]), chunks;
    }
    r, chunks := DecodeChunks(src, sizeFromHeader, decoder(0));
  }

  /** The chunk loop. */
  method DecodeChunks(src: seq<Byte>, size: nat, d: Decoder2) returns (r: Outcome, ghost chunks: seq<seq<Byte>>)
    requires Bounded(d) && Ends(d, src, size) && |src| >= HEADER_SIZE + 1
    ensures r == Chunked(d, src, size)
    ensures r.Returned? && r.bytes != [] ==> r.bytes == Concat(chunks) && |r.bytes| == size
  {
    hide Concat, Bounded, Turns, Ends;
    var preOutSize := 2 * size;
    var data: seq<Byte> := [];
    var outPos: nat := 0;
    var inPos: nat := HEADER_SIZE + 1;
    var k: nat := 0;
    chunks := [];
    var taken: seq<Byte> := [];   // the state of the decoder
    ghost var last := LastTurn(d, src, size);
    TurnsStep(d, src, size, 0);
    ConcatEmpty();
    while outPos < preOutSize
      invariant outPos == |data| <= size && data == Concat(chunks)
      invariant k < last && Turns(d, src, size, k) == Going(inPos, taken, data)
      decreases last - k
    {
      TurnsStep(d, src, size, k);
      NotYet(d, src, size, k + 1, last);
      if inPos >= |src| {
        return Aborted, chunks;
      }
      var room := Min(BUF_SIZE, preOutSize - outPos);
      var offered := src[inPos..inPos + Min(BUF_SIZE, |src| - inPos)];
      var q := Request(k, taken, outPos, room, offered, outPos + room == size);
      CallBounded(d, q);
      var c := d(q);
      if outPos + |c.produced| > size {
        return Overrun, chunks;
      }
      if !c.ok {
        return Returned([]), chunks;
      }
      ConcatSnoc(chunks, c.produced);
      chunks := chunks + [c.produced];
      data := data + c.produced;
      taken := taken + offered[..c.consumed];
      inPos := (inPos + c.consumed) % (U32_MAX + 1);
      outPos := outPos + |c.produced|;
      if c.finished {
        return Returned(if outPos == size then data else []), chunks;
      }
      k := k + 1;
    }
    TurnsStep(d, src, size, k);
    return Returned(if outPos == size then data else []), chunks;
  }

  lemma ConcatEmpty()
    ensures Concat([]) == []
  {
  }

  lemma CallBounded(d: Decoder2, q: Request)
    requires Bounded(d)
    ensures d(q).consumed <= |q.offered| && |d(q).produced| <= q.room
  {
  }

  lemma LastTurn(d: Decoder2, src: seq<Byte>, size: nat) returns (n: nat)
    requires Bounded(d) && Ends(d, src, size)
    ensures Turns(d, src, size, n).Over?
  {
    n :| Turns(d, src, size, n).Over?;
  }

  lemma NotYet(d: Decoder2, src: seq<Byte>, size: nat, k: nat, last: nat)
    requires Bounded(d) && Turns(d, src, size, last).Over?
    ensures Turns(d, src, size, k).Going? ==> k < last
  {
    if k >= last {
      OverStays(d, src, size, last, k);
    }
  }

  lemma TurnsStep(d: Decoder2, src: seq<Byte>, size: nat, k: nat)
    requires Bounded(d)
    ensures Turns(d, src, size, 0) == Going(HEADER_SIZE + 1, [], [])
    ensures var g := Turns(d, src, size, k);
            g.Going? ==> Turns(d, src, size, k + 1) == Turn(d, src, size, k, g)
  {
  }

  // ---------------------------------------------------------------- when the chunk loop ends

  ghost predicate InRange(src: seq<Byte>, size: nat, g: Progress) {
    g.Going? ==>
      |g.out| <= size && g.inPos == (HEADER_SIZE + 1 + |g.taken|) % (U32_MAX + 1) &&
      (|src| <= U32_MAX ==> HEADER_SIZE + 1 <= g.inPos <= |src| && g.taken == src[HEADER_SIZE + 1..g.inPos])
  }

  /** The cursor is where the taken bytes end, as a 32-bit number; in a source below 4 GiB it
      stays in range and what was taken is the source up to it. */
  lemma {:induction false} CursorInRange(d: Decoder2, src: seq<Byte>, size: nat, n: nat)
    requires Bounded(d) && |src| >= HEADER_SIZE + 1
    ensures InRange(src, size, Turns(d, src, size, n))
  {
    hide Turns, Turn, InRange, Bounded;
    if n == 0 {
      TurnsStep(d, src, size, 0);
      AtStart(src, size);
    } else {
      CursorInRange(d, src, size, n - 1);
      TurnsStep(d, src, size, n - 1);
      var g := Turns(d, src, size, n - 1);
      if g.Over? {
        OverStays(d, src, size, n - 1, n);
      } else {
        TurnInRange(d, src, size, n - 1, g);
      }
    }
  }

  lemma AtStart(src: seq<Byte>, size: nat)
    requires |src| >= HEADER_SIZE + 1
    ensures InRange(src, size, Going(HEADER_SIZE + 1, [], []))
  {
  }

  lemma TurnInRange(d: Decoder2, src: seq<Byte>, size: nat, k: nat, g: Progress)
    requires Bounded(d) && |src| >= HEADER_SIZE + 1 && g.Going? && InRange(src, size, g)
    ensures InRange(src, size, Turn(d, src, size, k, g))
  {
    if g.inPos < |src| && |g.out| < 2 * size {
      var q := Asked(src, size, k, g);
      CallBounded(d, q);
      CursorMoves(src, g, q.offered, d(q).consumed);
      hide Bounded;
    }
  }

  lemma CursorMoves(src: seq<Byte>, g: Progress, offered: seq<Byte>, consumed: nat)
    requires |src| >= HEADER_SIZE + 1 && g.Going? && g.inPos < |src| && consumed <= |offered| <= |src| - g.inPos
    requires offered == src[g.inPos..g.inPos + |offered|]
    requires g.inPos == (HEADER_SIZE + 1 + |g.taken|) % (U32_MAX + 1)
    requires |src| <= U32_MAX ==> HEADER_SIZE + 1 <= g.inPos && g.taken == src[HEADER_SIZE + 1..g.inPos]
    ensures var inPos, taken := (g.inPos + consumed) % (U32_MAX + 1), g.taken + offered[..consumed];
            inPos == (HEADER_SIZE + 1 + |taken|) % (U32_MAX + 1) &&
            (|src| <= U32_MAX ==>
              HEADER_SIZE + 1 <= inPos <= |src| && taken == src[HEADER_SIZE + 1..inPos])
  {
    WrapAdds(HEADER_SIZE + 1 + |g.taken|, consumed);
    if |src| <= U32_MAX {
      NextSlice(src, HEADER_SIZE + 1, g.inPos, offered, consumed);
    }
  }

  lemma NextSlice(src: seq<Byte>, from: nat, at: nat, offered: seq<Byte>, n: nat)
    requires from <= at <= at + |offered| <= |src| && offered == src[at..at + |offered|] && n <= |offered|
    ensures src[from..at] + offered[..n] == src[from..at + n]
  {
    assert offered[..n] == src[at..at + n];
  }

  lemma WrapAdds(a: nat, b: nat)
    ensures (a % (U32_MAX + 1) + b) % (U32_MAX + 1) == (a + b) % (U32_MAX + 1)
  {
  }

  /** A call that takes nothing and gives nothing. */
  ghost predicate Stalls(d: Decoder2, src: seq<Byte>, size: nat, n: nat)
    requires Bounded(d)
  {
    Turns(d, src, size, n).Going? && Turns(d, src, size, n + 1) == Turns(d, src, size, n)
  }

  ghost predicate MovesAfter(d: Decoder2, src: seq<Byte>, size: nat, m: nat)
    requires Bounded(d)
  {
    exists n: nat :: m <= n && !Stalls(d, src, size, n)
  }

  /** For a source below 4 GiB the loop ends unless, from some call on, the decoder neither
      takes nor gives a byte and reports no error. */
  lemma EndsIff(d: Decoder2, src: seq<Byte>, size: nat)
    requires Bounded(d) && HEADER_SIZE + 1 <= |src| <= U32_MAX
    ensures Ends(d, src, size) <==> forall m: nat :: MovesAfter(d, src, size, m)
  {
    hide Turns, Bounded;
    if Ends(d, src, size) {
      var last := LastTurn(d, src, size);
      forall m: nat
        ensures MovesAfter(d, src, size, m)
      {
        var n := if m < last then last else m;
        OverStays(d, src, size, last, n);
        assert !Stalls(d, src, size, n);
      }
    }
    if forall m: nat :: MovesAfter(d, src, size, m) {
      var n := Gets(d, src, size, |src| + size + 1);
      CursorInRange(d, src, size, n);
      assert Turns(d, src, size, n).Over?;
    }
  }

  /** Bytes taken and given so far. */
  function Moved(g: Progress): nat
    requires g.Going?
  {
    |g.taken| + |g.out|
  }

  /** Unless it is over, the loop gets as far as one likes. */
  lemma {:induction false} Gets(d: Decoder2, src: seq<Byte>, size: nat, far: nat) returns (n: nat)
    requires Bounded(d) && |src| >= HEADER_SIZE + 1
    requires forall m: nat :: MovesAfter(d, src, size, m)
    ensures Turns(d, src, size, n).Going? ==> Moved(Turns(d, src, size, n)) >= far
  {
    hide Turns, Bounded;
    n := 0;
    if far > 0 {
      var m := Gets(d, src, size, far - 1);
      assert MovesAfter(d, src, size, m);
      var k: nat :| m <= k && !Stalls(d, src, size, k);
      n := k + 1;
      OnlyGrows(d, src, size, m, k);
      OnlyGrows(d, src, size, k, n);
    }
  }

  lemma {:induction false} OnlyGrows(d: Decoder2, src: seq<Byte>, size: nat, n: nat, m: nat)
    requires Bounded(d) && |src| >= HEADER_SIZE + 1 && n <= m
    ensures var g, h := Turns(d, src, size, n), Turns(d, src, size, m);
            h.Going? ==> g.Going? && Moved(g) <= Moved(h) && (Moved(g) == Moved(h) ==> g == h)
  {
    hide Turns, Turn, Bounded;
    if n < m {
      OnlyGrows(d, src, size, n, m - 1);
      TurnsStep(d, src, size, m - 1);
      CursorInRange(d, src, size, m - 1);
      var g := Turns(d, src, size, m - 1);
      if g.Over? {
        OverStays(d, src, size, m - 1, m);
      } else {
        TurnGrows(d, src, size, m - 1, g);
      }
    }
  }

  lemma TurnGrows(d: Decoder2, src: seq<Byte>, size: nat, k: nat, g: Progress)
    requires Bounded(d) && g.Going? && g.inPos <= U32_MAX
    ensures var h := Turn(d, src, size, k, g);
            h.Going? ==> Moved(g) <= Moved(h) && (Moved(g) == Moved(h) ==> g == h)
  {
    if g.inPos < |src| && |g.out| < 2 * size {
      var q := Asked(src, size, k, g);
      CallBounded(d, q);
      hide Bounded;
      assert q.offered[..0] == [];
    }
  }

  /** Every call of the chunk loop, by what it asks: at most 10240 bytes of output and of input,
      the input being what follows the cursor, and the finish flag exactly when the room ends
      at the size in the header. */
  lemma CallsTold(d: Decoder2, src: seq<Byte>, size: nat, n: nat)
    requires Bounded(d) && |src| >= HEADER_SIZE + 1
    ensures var g, h := Turns(d, src, size, n), Turns(d, src, size, n + 1);
            g.Going? && |g.out| < 2 * size && g.inPos < |src| ==>
              exists q: Request ::
                0 < q.room <= 10240 && q.given + q.room <= 2 * size && (q.room < 10240 ==> q.given + q.room == 2 * size) &&
                0 < |q.offered| <= 10240 && g.inPos + |q.offered| <= |src| &&
                (|q.offered| < 10240 ==> g.inPos + |q.offered| == |src|) &&
                q.offered == src[g.inPos..g.inPos + |q.offered|] &&
                (q.call, q.taken, q.given) == (n, g.taken, |g.out|) && (q.end <==> q.given + q.room == size) &&
                h == Answered(src, size, g, q, d(q))
  {
    TurnsStep(d, src, size, n);
    var g := Turns(d, src, size, n);
    hide Turns;
    if g.Going? && |g.out| < 2 * size && g.inPos < |src| {
      var q := Asked(src, size, n, g);
      CallBounded(d, q);
      assert Turns(d, src, size, n + 1) == Answered(src, size, g, q, d(q));
    }
  }

  // ---------------------------------------------------------------- LZMA2 round trip

  /** How `d` treats a `payload` written for `x`: given bytes of the payload after those it has
      taken, it gives the next bytes of `x`, as many as it likes, and gets somewhere on every
      call that succeeds.  A payload it can decode it takes to the end, where it reports the
      end mark; one it cannot decode makes some call fail before that. */
  ghost predicate Treats(d: Decoder2, payload: seq<Byte>, x: seq<Byte>, decodable: bool) {
    forall q: Request {:trigger d(q)} :: Fair(payload, x, q) ==> TreatsWell(d, payload, x, decodable, q)
  }

  /** A request that goes on where the decoder has got to in `payload`. */
  predicate Fair(payload: seq<Byte>, x: seq<Byte>, q: Request) {
    q.taken + q.offered <= payload && q.offered != [] && q.room > 0 && q.given <= |x|
  }

  predicate TreatsWell(d: Decoder2, payload: seq<Byte>, x: seq<Byte>, decodable: bool, q: Request)
    requires q.given <= |x|
  {
    var c, end := d(q), q.given + |d(q).produced|;
    end <= |x| && c.produced == x[q.given..end] && (decodable ==> c.ok) &&
    (c.ok ==>
      c.consumed + |c.produced| > 0 && (c.finished <==> |q.taken| + c.consumed == |payload|) &&
      (c.finished ==> decodable && end == |x|))
  }

  /** The dictionary that an LZMA2 property byte stands for: 4 KiB for property 0, 6 KiB for 1,
      8 KiB for 2, and so on. */
  function Dictionary(property: Byte): nat {
    if property >= 40 then U32_MAX else Twice(2 + property % 2, property / 2 + 11)
  }

  /** The encoder; the decoder set up with a property; and how far back the farthest match of
      a payload reaches. */
  datatype Codec2 = Codec2(
    encode: (seq<Byte>, Options) -> Option<Encoded<Byte>>,
    decoder: Byte -> Decoder2,
    lookBack: seq<Byte> -> nat)

  /** What the encoder writes fits its capacity, reaches back no farther than its dictionary,
      which its property covers, and not before the start of `x`.  A decoder can decode it
      exactly when no match reaches back beyond the decoder's own dictionary. */
  ghost predicate Lawful2(codec: Codec2) {
    (forall property :: Bounded(codec.decoder(property))) &&
    forall x, o {:trigger codec.encode(x, o)} ::
      codec.encode(x, o).Some? ==>
        var e := codec.encode(x, o).value;
        0 < |e.payload| <= o.capacity && codec.lookBack(e.payload) <= o.dictionary <= Dictionary(e.props) &&
        (0 < |x| ==> codec.lookBack(e.payload) < |x|) &&
        forall property :: Treats(codec.decoder(property), e.payload, x,
                                  codec.lookBack(e.payload) <= Dictionary(property))
  }

  /** The loop on its way through a frame of `x`. */
  ghost predicate OnTheWay(payload: seq<Byte>, x: seq<Byte>, g: Progress) {
    g.Going? && g.taken <= payload && |g.taken| < |payload| && g.out <= x &&
    g.inPos == HEADER_SIZE + 1 + |g.taken|
  }

  /** Where the loop ends for such a payload. */
  function EndOf(x: seq<Byte>, decodable: bool): Progress {
    Over(Returned(if decodable then x else []))
  }

  lemma OneTurn(d: Decoder2, head: seq<Byte>, payload: seq<Byte>, x: seq<Byte>, decodable: bool,
                k: nat, g: Progress)
    requires Bounded(d) && Treats(d, payload, x, decodable) && 0 < |x|
    requires |head| == HEADER_SIZE + 1 && |head + payload| <= U32_MAX && OnTheWay(payload, x, g)
    ensures var h := Turn(d, head + payload, |x|, k, g);
            h == EndOf(x, decodable) || (h.Going? && OnTheWay(payload, x, h) && Moved(h) > Moved(g))
  {
    var src := head + payload;
    var q := Asked(src, |x|, k, g);
    OfferedIsNext(head, payload, g.taken, |q.offered|);
    CallBounded(d, q);
    assert Fair(payload, x, q);
    assert TreatsWell(d, payload, x, decodable, q);
    hide Treats, Bounded;
    var c, n := d(q), |g.taken| + d(q).consumed;
    assert Turn(d, src, |x|, k, g) == Answered(src, |x|, g, q, c);
    assert g.out + c.produced == x[..|g.out| + |c.produced|];
    assert g.taken + q.offered[..c.consumed] == payload[..n];
    if c.ok && c.finished {
      assert g.out + c.produced == x;
    } else if c.ok {
      assert n < |payload|;
      assert (g.inPos + c.consumed) % (U32_MAX + 1) == HEADER_SIZE + 1 + n;
    }
  }

  lemma OfferedIsNext(head: seq<Byte>, payload: seq<Byte>, taken: seq<Byte>, n: nat)
    requires taken <= payload && |taken| + n <= |payload|
    ensures var at := |head| + |taken|;
            taken + (head + payload)[at..at + n] == payload[..|taken| + n]
  {
  }

  lemma {:induction false} OnTheWayUntilOver(
      d: Decoder2, head: seq<Byte>, payload: seq<Byte>, x: seq<Byte>, decodable: bool, n: nat)
    requires Bounded(d) && Treats(d, payload, x, decodable) && 0 < |x| && payload != []
    requires |head| == HEADER_SIZE + 1 && |head + payload| <= U32_MAX
    ensures var g := Turns(d, head + payload, |x|, n);
            g == EndOf(x, decodable) || (g.Going? && OnTheWay(payload, x, g) && Moved(g) >= n)
  {
    hide Turns, Turn, OnTheWay, Treats, Bounded;
    var src := head + payload;
    TurnsStep(d, src, |x|, 0);
    if n == 0 {
      OnTheWayAtStart(payload, x);
    } else {
      OnTheWayUntilOver(d, head, payload, x, decodable, n - 1);
      TurnsStep(d, src, |x|, n - 1);
      var g := Turns(d, src, |x|, n - 1);
      if g.Going? {
        OneTurn(d, head, payload, x, decodable, n - 1, g);
      } else {
        OverStays(d, src, |x|, n - 1, n);
      }
    }
  }

  lemma OnTheWayAtStart(payload: seq<Byte>, x: seq<Byte>)
    requires payload != []
    ensures OnTheWay(payload, x, Going(HEADER_SIZE + 1, [], []))
  {
  }

  /** However the decoder cuts its work into chunks, the loop ends with the original, or with
      nothing if the decoder cannot decode the payload. */
  lemma ChunkedDecoding(d: Decoder2, head: seq<Byte>, payload: seq<Byte>, x: seq<Byte>, decodable: bool)
    requires Bounded(d) && Treats(d, payload, x, decodable) && 0 < |x| && payload != []
    requires |head| == HEADER_SIZE + 1 && |head + payload| <= U32_MAX
    ensures Ends(d, head + payload, |x|)
    ensures Chunked(d, head + payload, |x|) == Returned(if decodable then x else [])
  {
    var n := |payload| + |x| + 1;
    OnTheWayUntilOver(d, head, payload, x, decodable, n);
    hide Turns;
    assert Turns(d, head + payload, |x|, n) == EndOf(x, decodable);
  }

  /** What the encoder wrote for `x` decompresses to `x`, for every chunking, if and only if
      `x` is at most 256 MiB long and no match reaches back beyond 4 KiB: that is the
      dictionary of property 0, which the decoder is always given. */
  lemma RoundTrip2(x: seq<Byte>, level: nat, codec: Codec2)
    requires Lawful2(codec) && 0 < |x| <= U64_MAX
    requires codec.encode(x, OptionsFor(|x|, level)).Some?
    ensures var e := codec.encode(x, OptionsFor(|x|, level)).value;
            var src := [e.props] + Written(|x|, HEADER_SIZE) + e.payload;
            (Enters(src, true) ==> Ends(codec.decoder(0), src, HeaderSize2(src))) &&
            Decompressed2(src, true, codec.decoder)
            == Returned(if |x| <= 256 * 1024 * 1024 && codec.lookBack(e.payload) <= 4096 then x else [])
  {
    var e := codec.encode(x, OptionsFor(|x|, level)).value;
    var head := [e.props] + Written(|x|, HEADER_SIZE);
    SizeRoundTrip([e.props], |x|, e.payload);
    SmallestDictionary();
    if |x| <= MAX_SIZE {
      ChunkedDecoding(codec.decoder(0), head, e.payload, x, codec.lookBack(e.payload) <= Dictionary(0));
    }
  }

  lemma SmallestDictionary()
    ensures Dictionary(0) == 4096
  {
    assert Twice(2, 4) == 32 && Twice(2, 8) == 512;
  }

  /** Up to 4 KiB, and one byte more, the round trip always succeeds. */
  lemma SmallRoundTrip2(x: seq<Byte>, level: nat, codec: Codec2)
    requires Lawful2(codec) && 0 < |x| <= 4097
    requires codec.encode(x, OptionsFor(|x|, level)).Some?
    ensures var e := codec.encode(x, OptionsFor(|x|, level)).value;
            var src := [e.props] + Written(|x|, HEADER_SIZE) + e.payload;
            Enters(src, true) && Ends(codec.decoder(0), src, HeaderSize2(src)) &&
            Decompressed2(src, true, codec.decoder) == Returned(x)
  {
    RoundTrip2(x, level, codec);
    SizeRoundTrip([codec.encode(x, OptionsFor(|x|, level)).value.props], |x|,
                  codec.encode(x, OptionsFor(|x|, level)).value.payload);
  }

  /** A decoder given the property that the frame begins with would recover every source of up
      to 256 MiB. */
  lemma OwnPropertyWouldDo(x: seq<Byte>, level: nat, codec: Codec2)
    requires Lawful2(codec) && 0 < |x| <= MAX_SIZE
    requires codec.encode(x, OptionsFor(|x|, level)).Some?
    ensures var e := codec.encode(x, OptionsFor(|x|, level)).value;
            var src := [e.props] + Written(|x|, HEADER_SIZE) + e.payload;
            HeaderSize2(src) == |x| && Ends(codec.decoder(e.props), src, |x|) &&
            Chunked(codec.decoder(e.props), src, |x|) == Returned(x)
  {
    var e := codec.encode(x, OptionsFor(|x|, level)).value;
    SizeRoundTrip([e.props], |x|, e.payload);
    ChunkedDecoding(codec.decoder(e.props), [e.props] + Written(|x|, HEADER_SIZE), e.payload, x, true);
  }

  // ---------------------------------------------------------------- an input that is lost

  /** A block of 10000 bytes, twice. */
  function TwoBlocks(): (x: seq<Byte>)
    ensures |x| == 20000
  {
    var block := seq(10000, i => if i < 0 then 0 else (i * i + i / 256) % 256);
    block + block
  }

  /** A codec for that source: the payload stands for the block and a match that copies it
      from 10000 bytes back. */
  function TwoBlocksDecoder(property: Byte): Decoder2 {
    (q: Request) =>
      if Dictionary(property) < 10000 || q.offered == [] || q.given > 20000 then Chunk(false, 0, [], false)
      else if 20000 - q.given <= q.room then Chunk(true, 1, TwoBlocks()[q.given..], true)
      else Chunk(true, 0, TwoBlocks()[q.given..q.given + q.room], false)
  }

  function TwoBlocksCodec(): Codec2 {
    Codec2((x, o: Options) => if x == TwoBlocks() && 10000 <= o.dictionary <= Dictionary(5) && 1 <= o.capacity
                              then Some(Encoded(5, [1])) else None,
           property => TwoBlocksDecoder(property),
           payload => 10000)
  }

  lemma TwoBlocksIsLawful()
    ensures Lawful2(TwoBlocksCodec())
  {
    hide TwoBlocks;
    forall property
      ensures Bounded(TwoBlocksDecoder(property))
      ensures Treats(TwoBlocksDecoder(property), [1], TwoBlocks(), 10000 <= Dictionary(property))
    {
      TwoBlocksDecoderTreats(property);
    }
  }

  lemma TwoBlocksDecoderTreats(property: Byte)
    ensures Bounded(TwoBlocksDecoder(property))
    ensures Treats(TwoBlocksDecoder(property), [1], TwoBlocks(), 10000 <= Dictionary(property))
  {
    hide TwoBlocks, Dictionary;
    var d, x := TwoBlocksDecoder(property), TwoBlocks();
    forall q: Request | Fair([1], x, q)
      ensures TreatsWell(d, [1], x, 10000 <= Dictionary(property), q)
    {
      assert |q.taken + q.offered| <= 1;
      assert q.taken == [] && |q.offered| == 1;
    }
  }

  /** 20000 bytes are far below 256 MiB, and yet are compressed to what is then refused. */
  lemma TwoBlocksAreLost(level: nat)
    ensures var x, codec := TwoBlocks(), TwoBlocksCodec();
            var e := codec.encode(x, OptionsFor(|x|, level));
            Lawful2(codec) && e.Some? &&
            var src := [e.value.props] + Written(|x|, HEADER_SIZE) + e.value.payload;
            (Enters(src, true) ==> Ends(codec.decoder(0), src, HeaderSize2(src))) &&
            Decompressed2(src, true, codec.decoder) == Returned([])
  {
    hide TwoBlocks;
    TwoBlocksIsLawful();
    assert Dictionary(5) == 24576 by {
      assert Twice(3, 5) == 96 && Twice(3, 9) == 1536;
    }
    RoundTrip2(TwoBlocks(), level, TwoBlocksCodec());
  }

  method Compress2(src: seq<Byte>, level: nat, memory: bool, codec: Codec2) returns (out: seq<Byte>)
    requires |src| <= U64_MAX
    ensures var e := codec.encode(src, OptionsFor(|src|, level));
            out == if |src| > 0 && memory && e.Some?
                   then [e.value.props] + Written(|src|, HEADER_SIZE) + e.value.payload else []
  {
    if |src| == 0 || !memory {
      return [];
    }
    var encoded := codec.encode(src, OptionsFor(|src|, level));
    if encoded == None {
      return [];
    }
    var v := new Vec();
    v.data := [encoded.value.props];
    WriteSize(|src|, v);
    return v.data + encoded.value.payload;
  }
}
