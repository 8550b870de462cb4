/** The life of an FFmpeg context over whole sequences of calls: initialising, encoding,
    decoding and finishing, in any order and with any outcome, and what the caller does with
    the output.  No call misuses memory, and an account of the calls tells exactly which
    blocks have been leaked. */
module Lifecycles {
  import opened Bytes
  import opened Cleanup
  import Packets

  const OPT := Variable("opt")
  const OUT := Variable("data_out")
  const PIXELS := Variable("frame_buffer_out")

  function Ctx(opt: Block): Slot {
    Field(opt, "ctx")
  }

  function Members(c: Block): set<Slot> {
    {Field(c, "packet"), Field(c, "context"), Field(c, "yuv_frame"), Field(c, "rgb_frame"), Field(c, "parser")}
  }

  // ---------------------------------------------------------------- initialisation

  /** What the allocations and look-ups of an initialisation give. */
  datatype Answers = Answers(ctx: Option<Block>, packet: Option<Block>, yuv: Option<Block>, action: Action)

  datatype Action =
    | Encoding(found: bool, context: Option<Block>, openOk: bool)
    | Decoding(found: bool, context: Option<Block>, rgb: Option<Block>, pixels: Option<Block>,
               filled: bool, parser: Option<Block>, openOk: bool)
    | Unknown

  predicate ActionOk(a: Action) {
    match a
    case Encoding(found, context, ok) => found && context.Some? && ok
    case Decoding(found, context, rgb, pixels, filled, parser, ok) =>
      found && context.Some? && rgb.Some? && pixels.Some? && filled && parser.Some? && ok
    case Unknown => false
  }

  predicate InitOk(a: Answers) {
    a.ctx.Some? && a.packet.Some? && a.yuv.Some? && ActionOk(a.action)
  }

  /** The chains that setting up an encoder or a decoder builds one by one. */
  function InnerChains(opt: Block, c: Block): (chains: seq<Chain>)
    ensures |chains| == 4
  {
    [ToMember(opt, c, Context, "context"), ToMember(opt, c, Frame, "rgb_frame"),
     [Link(Data, PIXELS)], ToMember(opt, c, Parser, "parser")]
  }

  /** After failing with the first `k` chains in place. */
  function InnerUndone(m: Memory, opt: Block, c: Block, k: nat): Memory
    requires k <= 4
  {
    Cleaned(m, InnerChains(opt, c)[..k], k)
  }

  function OuterUndone(m: Memory, opt: Block, c: Block, k: nat): Memory
    requires k <= 3
  {
    Cleaned(m, InitChains(opt, c)[..k], k)
  }

  function ActionLeaves(m: Memory, opt: Block, c: Block, a: Action): Memory {
    match a
    case Encoding(found, context, ok) =>
      if !found then m
      else
        var m1 := Stored(m, Field(c, "context"), context);
        if context == None || !ok then InnerUndone(m1, opt, c, 1) else m1
    case Decoding(found, context, rgb, pixels, filled, parser, ok) =>
      if !found then m
      else
        var m1 := Stored(m, Field(c, "context"), context);
        if context == None then InnerUndone(m1, opt, c, 1)
        else
          var m2 := Stored(m1, Field(c, "rgb_frame"), rgb);
          if rgb == None then InnerUndone(m2, opt, c, 2)
          else
            var m3 := Stored(m2, PIXELS, pixels);
            if pixels == None || !filled then InnerUndone(m3, opt, c, 3)
            else
              var m4 := Stored(m3, Field(c, "parser"), parser);
              if parser == None || !ok then InnerUndone(m4, opt, c, 4) else Stored(m4, PIXELS, None)
    case Unknown => m
  }

  /** What an initialisation leaves in memory. */
  function InitLeaves(m: Memory, opt: Block, a: Answers): Memory {
    var m1 := Stored(m, Ctx(opt), a.ctx);
    match a.ctx
    case None => OuterUndone(m1, opt, opt, 1)
    case Some(c) =>
      var m2 := Stored(m1, Field(c, "packet"), a.packet);
      if a.packet == None then OuterUndone(m2, opt, c, 2)
      else
        var m3 := Stored(m2, Field(c, "yuv_frame"), a.yuv);
        if a.yuv == None then OuterUndone(m3, opt, c, 3)
        else
          var m4 := ActionLeaves(m3, opt, c, a.action);
          if ActionOk(a.action) then m4 else OuterUndone(m4, opt, c, 3)
  }

  /** Setting up an encoder. */
  method InitEncoder(heap: Heap, opt: Block, c: Block, a: Action) returns (ret: int)
    requires a.Encoding?
    modifies heap
    ensures heap.View() == ActionLeaves(old(heap.View()), opt, c, a)
    ensures ret == if a.found && a.context.Some? && a.openOk then 0 else -1
    ensures ret == 0 ==> heap.cells == old(heap.cells)[Field(c, "context") := a.context.value]
  {
    hide Cleaned, InnerChains;
    var chains: seq<Chain> := [];
    CleanedNothing(heap.View());
    if !a.found {
      heap.Finally(-1, chains);
      return -1;
    }
    heap.Store(Field(c, "context"), a.context);
    ChainsGrow(opt, c);
    chains := chains + [ToMember(opt, c, Context, "context")];
    assert chains == InnerChains(opt, c)[..1];
    ret := if a.context == None || !a.openOk then -1 else 0;
    heap.Finally(ret, chains);
  }

  /** Setting up a decoder; its chains grow with what it has allocated. */
  method InitDecoder(heap: Heap, opt: Block, c: Block, a: Action) returns (ret: int)
    requires a.Decoding?
    modifies heap
    ensures heap.View() == ActionLeaves(old(heap.View()), opt, c, a)
    ensures ret == if a.found && a.context.Some? && a.rgb.Some? && a.pixels.Some? && a.filled && a.parser.Some? &&
                      a.openOk then 0 else -1
    ensures ret == 0 ==>
              heap.cells == old(heap.cells)[Field(c, "context") := a.context.value]
                                           [Field(c, "rgb_frame") := a.rgb.value]
                                           [Field(c, "parser") := a.parser.value] - {PIXELS}
  {
    hide Cleaned, InnerChains;
    var chains: seq<Chain> := [];
    CleanedNothing(heap.View());
    if !a.found {
      heap.Finally(-1, chains);
      return -1;
    }
    ChainsGrow(opt, c);
    heap.Store(Field(c, "context"), a.context);
    chains := chains + [ToMember(opt, c, Context, "context")];
    assert chains == InnerChains(opt, c)[..1];
    if a.context == None {
      heap.Finally(-1, chains);
      return -1;
    }
    heap.Store(Field(c, "rgb_frame"), a.rgb);
    chains := chains + [ToMember(opt, c, Frame, "rgb_frame")];
    if a.rgb == None {
      heap.Finally(-1, chains);
      return -1;
    }
    heap.Store(PIXELS, a.pixels);
    chains := chains + [[Link(Data, PIXELS)]];
    if a.pixels == None || !a.filled {
      heap.Finally(-1, chains);
      return -1;
    }
    heap.Store(Field(c, "parser"), a.parser);
    chains := chains + [ToMember(opt, c, Parser, "parser")];
    ret := if a.parser == None || !a.openOk then -1 else 0;
    heap.Finally(ret, chains);
    if ret == 0 {
      heap.Store(PIXELS, None);   // the variable goes out of scope
    }
  }

  lemma CleanedNothing(m: Memory)
    ensures Cleaned(m, [], 0) == m
  {
  }

  lemma UnknownLeaves(m: Memory, opt: Block, c: Block)
    ensures ActionLeaves(m, opt, c, Unknown) == m
  {
  }

  lemma ChainsGrow(opt: Block, c: Block)
    ensures var chains := InnerChains(opt, c);
            chains[..0] == [] && chains[..1] == [ToMember(opt, c, Context, "context")] &&
            chains[..2] == chains[..1] + [ToMember(opt, c, Frame, "rgb_frame")] &&
            chains[..3] == chains[..2] + [[Link(Data, PIXELS)]] &&
            chains[..4] == chains[..3] + [ToMember(opt, c, Parser, "parser")]
  {
  }

  lemma OuterChainsGrow(opt: Block, c: Block)
    ensures var chains := InitChains(opt, c);
            chains[..1] == [ToOpt(opt)] &&
            chains[..2] == chains[..1] + [[Link(Data, Ctx(opt)), Link(Packet, Field(c, "packet"))]] &&
            chains[..3] == chains[..2] + [[Link(Data, Ctx(opt)), Link(Frame, Field(c, "yuv_frame"))]]
  {
  }

  /** The whole initialisation. */
  method Init(heap: Heap, opt: Block, a: Answers) returns (ret: int)
    modifies heap
    ensures heap.View() == InitLeaves(old(heap.View()), opt, a)
    ensures ret == 0 || ret == -1
    ensures ret == 0 <==>
              a.ctx.Some? && a.packet.Some? && a.yuv.Some? &&
              match a.action
              case Encoding(found, context, openOk) => found && context.Some? && openOk
              case Decoding(found, context, rgb, pixels, filled, parser, openOk) =>
                found && context.Some? && rgb.Some? && pixels.Some? && filled && parser.Some? && openOk
              case Unknown => false
    ensures ret == 0 ==>
              var c := a.ctx.value;
              var begun := old(heap.cells)[Ctx(opt) := c][Field(c, "packet") := a.packet.value]
                                          [Field(c, "yuv_frame") := a.yuv.value];
              heap.cells == if a.action.Decoding?
                            then begun[Field(c, "context") := a.action.context.value]
                                      [Field(c, "rgb_frame") := a.action.rgb.value]
                                      [Field(c, "parser") := a.action.parser.value] - {PIXELS}
                            else begun[Field(c, "context") := a.action.context.value]
    ensures ret == -1 && old(Tame(heap.View(), opt) && PIXELS !in heap.cells && AllNew(heap.View(), a)) ==>
              Ctx(opt) !in heap.cells
  {
    hide Cleaned, InitChains, ActionLeaves, Tame, AllNew;
    if Tame(heap.View(), opt) && PIXELS !in heap.cells && AllNew(heap.View(), a) {
      if !InitOk(a) {
        FailedInitHasNoContext(heap.View(), opt, a);
      }
    }
    heap.Store(Ctx(opt), a.ctx);
    OuterChainsGrow(opt, if a.ctx.Some? then a.ctx.value else opt);
    var chains := [ToOpt(opt)];
    if a.ctx == None {
      heap.Finally(-1, chains);
      return -1;
    }
    var c := a.ctx.value;
    heap.Store(Field(c, "packet"), a.packet);
    chains := chains + [[Link(Data, Ctx(opt)), Link(Packet, Field(c, "packet"))]];
    if a.packet == None {
      heap.Finally(-1, chains);
      return -1;
    }
    heap.Store(Field(c, "yuv_frame"), a.yuv);
    chains := chains + [[Link(Data, Ctx(opt)), Link(Frame, Field(c, "yuv_frame"))]];
    if a.yuv == None {
      heap.Finally(-1, chains);
      return -1;
    }
    match a.action {
      case Encoding(_, _, _) => ret := InitEncoder(heap, opt, c, a.action);
      case Decoding(_, _, _, _, _, _, _) => ret := InitDecoder(heap, opt, c, a.action);
      case Unknown =>
        UnknownLeaves(heap.View(), opt, c);
        ret := -1;
    }
    heap.Finally(ret, chains);
  }

  // ---------------------------------------------------------------- what is leaked

  function At(m: Memory, s: Slot): set<Block> {
    if s in m.cells then {m.cells[s]} else {}
  }

  function AllAt(m: Memory, slots: set<Slot>): set<Block> {
    set s | s in slots && s in m.cells :: m.cells[s]
  }

  /** `leaked` holds exactly the live blocks that no readable pointer leads to. */
  ghost predicate Tracks(m: Memory, leaked: set<Block>) {
    forall x :: Leaked(m, x) <==> x in leaked
  }

  function Known(m: Memory, opt: Block): set<Slot> {
    {OPT, OUT, PIXELS, Ctx(opt)} + (if Ctx(opt) in m.cells then Members(m.cells[Ctx(opt)]) else {})
  }

  /** Pointers are owned one by one, and those that can be read are the known ones, or lie in a
      context that was leaked. */
  ghost predicate Tame(m: Memory, opt: Block) {
    Owned(m) && OPT in m.cells && m.cells[OPT] == opt && opt in m.live &&
    forall s :: Stores(m, s) ==> s in Known(m, opt) || (s.Field? && Leaked(m, s.block))
  }

  /** Overwriting a slot leaks what it held. */
  lemma StoringTracks(m: Memory, leaked: set<Block>, s: Slot, b: Option<Block>)
    requires Owned(m) && Tracks(m, leaked) && Readable(m, s) && (b.Some? ==> Unused(m, b.value))
    ensures Owned(Stored(m, s, b)) && Tracks(Stored(m, s, b), leaked + At(m, s))
  {
    var w := Stored(m, s, b);
    assert forall r :: Stores(w, r) && r != s ==> Stores(m, r);
    assert forall r :: Stores(m, r) && r != s ==> Stores(w, r);
    forall x
      ensures Leaked(w, x) <==> x in leaked + At(m, s)
    {
      assert Leaked(m, x) <==> x in leaked;
      if s in m.cells && x == m.cells[s] {
        assert Stores(m, s);
        assert forall r :: Stores(m, r) && r != s ==> m.cells[r] != x;
      }
      if b.Some? && x == b.value {
        assert Stores(w, s);
      }
    }
  }

  /** Pointing to a leaked block takes it back. */
  lemma AimingTracks(m: Memory, leaked: set<Block>, s: Slot, b: Block)
    requires Owned(m) && Tracks(m, leaked) && Readable(m, s) && b in leaked
    ensures Owned(Aimed(m, s, b)) && Tracks(Aimed(m, s, b), leaked - {b} + At(m, s))
  {
    var w := Aimed(m, s, b);
    assert Leaked(m, b);
    assert forall r :: Stores(w, r) && r != s ==> Stores(m, r);
    assert forall r :: Stores(m, r) && r != s ==> Stores(w, r);
    forall x
      ensures Leaked(w, x) <==> x in leaked - {b} + At(m, s)
    {
      assert Leaked(m, x) <==> x in leaked;
      if s in m.cells && x == m.cells[s] {
        assert Stores(m, s);
        assert forall r :: Stores(m, r) && r != s ==> m.cells[r] != x;
      }
      if x == b {
        assert Stores(w, s);
      }
    }
  }

  /** Cleanup leaks what can no longer be read, and nothing else. */
  lemma TidyingTracks(m: Memory, leaked: set<Block>, slots: set<Slot>, w: Memory, more: set<Block>)
    requires Owned(m) && Tracks(m, leaked) && Tidied(m, slots, w) && forall s :: s in slots ==> Readable(m, s)
    requires forall x :: x in more <==> exists s :: Stores(m, s) && !Readable(w, s) && s !in slots && m.cells[s] == x
    ensures Owned(w) && Tracks(w, leaked + more)
  {
    assert forall s :: Stores(w, s) ==> Stores(m, s) && s !in slots && w.cells[s] == m.cells[s];
    forall s | Stores(m, s) && s !in slots
      ensures m.cells[s] in w.live
    {
      assert forall r :: r in slots && r in m.cells ==> Stores(m, r);
    }
    forall x
      ensures Leaked(w, x) <==> x in leaked + more
    {
      assert Leaked(m, x) <==> x in leaked;
      if x in more {
        var s :| Stores(m, s) && !Readable(w, s) && s !in slots && m.cells[s] == x;
      }
    }
  }

  // ---------------------------------------------------------------- the books

  ghost predicate Books(m: Memory, opt: Block, leaked: set<Block>) {
    Tame(m, opt) && Tracks(m, leaked)
  }

  lemma TameIsOpened(m: Memory, opt: Block)
    requires Tame(m, opt) && Ctx(opt) in m.cells
    ensures Opened(m, opt, m.cells[Ctx(opt)]) && m.cells[Ctx(opt)] != opt
    ensures forall s :: s in Known(m, opt) ==> Readable(m, s)
  {
    assert Stores(m, Ctx(opt)) && Stores(m, OPT);
  }

  lemma KnownIsReadable(m: Memory, opt: Block)
    requires Tame(m, opt)
    ensures forall s :: s in Known(m, opt) ==> Readable(m, s)
  {
    if Ctx(opt) in m.cells {
      TameIsOpened(m, opt);
    }
  }

  lemma BooksAfterStore(m: Memory, opt: Block, leaked: set<Block>, s: Slot, b: Option<Block>)
    requires Books(m, opt, leaked) && s in Known(m, opt) && s != OPT && s != Ctx(opt)
    requires b.Some? ==> Unused(m, b.value)
    ensures Books(Stored(m, s, b), opt, leaked + At(m, s))
  {
    KnownIsReadable(m, opt);
    StoringTracks(m, leaked, s, b);
    var w := Stored(m, s, b);
    hide Tidied, Owned, Unused;
    assert Known(w, opt) == Known(m, opt);
    forall r | Stores(w, r)
      ensures r in Known(w, opt) || (r.Field? && Leaked(w, r.block))
    {
      if r !in Known(m, opt) {
        NewBlockHasNoFields(m, s, b, r);
        assert Stores(m, r) && Leaked(m, r.block);
      }
    }
  }

  lemma NewBlockHasNoFields(m: Memory, s: Slot, b: Option<Block>, r: Slot)
    requires Stores(Stored(m, s, b), r) && (b.Some? ==> Unused(m, b.value)) && r != s
    ensures Stores(m, r)
  {
  }

  /** The old context, if there was one, is leaked with all that it holds. */
  lemma BooksAfterContext(m: Memory, opt: Block, leaked: set<Block>, b: Option<Block>)
    requires Books(m, opt, leaked) && (b.Some? ==> Unused(m, b.value))
    ensures Books(Stored(m, Ctx(opt), b), opt, leaked + At(m, Ctx(opt)))
    ensures b.Some? ==> forall s :: s in Members(b.value) ==> s !in Stored(m, Ctx(opt), b).cells
  {
    hide Owned;
    StoringTracks(m, leaked, Ctx(opt), b);
    var w := Stored(m, Ctx(opt), b);
    forall r | Stores(w, r)
      ensures r in Known(w, opt) || (r.Field? && Leaked(w, r.block))
    {
      SlotAfterContext(m, opt, leaked, b, r);
    }
  }

  lemma SlotAfterContext(m: Memory, opt: Block, leaked: set<Block>, b: Option<Block>, r: Slot)
    requires Tame(m, opt) && Tracks(m, leaked) && (b.Some? ==> Unused(m, b.value))
    requires Stores(Stored(m, Ctx(opt), b), r)
    ensures r in Known(Stored(m, Ctx(opt), b), opt) || (r.Field? && r.block in leaked + At(m, Ctx(opt)))
  {
    hide Owned, Leaked;
    if r != Ctx(opt) {
      NewBlockHasNoFields(m, Ctx(opt), b, r);
      if r !in Known(m, opt) {
        assert Leaked(m, r.block);
      } else if r !in {OPT, OUT, PIXELS} {
        assert r.block == m.cells[Ctx(opt)];
      }
    }
  }

  lemma BooksAfterAiming(m: Memory, opt: Block, leaked: set<Block>, b: Block)
    requires Books(m, opt, leaked) && b in leaked && NoFields(m, b)
    ensures Books(Aimed(m, OUT, b), opt, leaked - {b} + At(m, OUT))
  {
    AimingTracks(m, leaked, OUT, b);
    var w := Aimed(m, OUT, b);
    forall r | Stores(w, r)
      ensures r in Known(w, opt) || (r.Field? && Leaked(w, r.block))
    {
      if r !in Known(m, opt) {
        assert Stores(m, r) && Leaked(m, r.block) && r.block != b;
        assert r.block in leaked;
      }
    }
  }

  ghost predicate NoFields(m: Memory, b: Block) {
    forall s :: s in m.cells && s.Field? ==> s.block != b
  }

  lemma BooksAfterTidying(m: Memory, opt: Block, leaked: set<Block>, slots: set<Slot>, w: Memory)
    requires Books(m, opt, leaked) && Tidied(m, slots, w) && slots <= Known(m, opt) && OPT !in slots
    ensures Ctx(opt) in slots && Ctx(opt) in m.cells ==>
              Books(w, opt, leaked + AllAt(m, Members(m.cells[Ctx(opt)]) - slots))
    ensures Ctx(opt) !in slots ==> Books(w, opt, leaked)
  {
    KnownIsReadable(m, opt);
    var frees := Ctx(opt) in slots && Ctx(opt) in m.cells;
    var more := if frees then AllAt(m, Members(m.cells[Ctx(opt)]) - slots) else {};
    if frees || Ctx(opt) !in slots {
      forall s | Stores(m, s)
        ensures !Readable(w, s) && s !in slots <==> frees && s in Members(m.cells[Ctx(opt)]) - slots
      {
        FreedHaveOnlyMembers(m, opt, slots, w, s);
      }
      if frees {
        TameIsOpened(m, opt);
      }
      TidyingTracks(m, leaked, slots, w, more);
      TameAfterTidying(m, opt, leaked, slots, w, more);
    }
  }

  lemma MembersAreFields(c: Block)
    ensures forall s :: s in Members(c) ==> s.Field? && s.block == c
  {
  }

  /** Of the blocks that cleanup releases only the context has slots that can be read. */
  lemma FreedHaveOnlyMembers(m: Memory, opt: Block, slots: set<Slot>, w: Memory, s: Slot)
    requires Tame(m, opt) && Tidied(m, slots, w) && slots <= Known(m, opt) && OPT !in slots && Stores(m, s)
    ensures !Readable(w, s) ==>
              Ctx(opt) in slots && Ctx(opt) in m.cells && s in Members(m.cells[Ctx(opt)])
    ensures Ctx(opt) in slots && Ctx(opt) in m.cells && s in Members(m.cells[Ctx(opt)]) ==> !Readable(w, s)
  {
    hide Members;
    KnownIsReadable(m, opt);
    MembersAreFields(if Ctx(opt) in m.cells then m.cells[Ctx(opt)] else opt);
    if !Readable(w, s) {
      var r :| r in slots && r in m.cells && m.cells[r] == s.block;
      assert Stores(m, r) && !Leaked(m, s.block);
      assert s in Known(m, opt);
      assert Stores(m, OPT);
      assert s.block != opt;
      assert Stores(m, Ctx(opt));
    }
  }

  lemma TameAfterTidying(m: Memory, opt: Block, leaked: set<Block>, slots: set<Slot>, w: Memory, more: set<Block>)
    requires Books(m, opt, leaked) && Tidied(m, slots, w) && slots <= Known(m, opt) && OPT !in slots
    requires Owned(w) && Tracks(w, leaked + more) && (Ctx(opt) in slots ==> Ctx(opt) in m.cells)
    ensures Tame(w, opt)
  {
    KnownIsReadable(m, opt);
    assert Stores(m, OPT);
    assert forall r :: r in slots && r in m.cells ==> Stores(m, r);
    assert opt in w.live;
    forall s | Stores(w, s)
      ensures s in Known(w, opt) || (s.Field? && Leaked(w, s.block))
    {
      assert Stores(m, s);
      FreedHaveOnlyMembers(m, opt, slots, w, s);
      if s !in Known(m, opt) {
        assert s.block in leaked;
      }
    }
  }

  // ---------------------------------------------------------------- the chains of each call

  function CodingSlots(opt: Block, c: Block): set<Slot> {
    {Field(c, "packet"), Field(c, "context"), Field(c, "yuv_frame"), Field(c, "rgb_frame"), OUT, Ctx(opt)}
  }

  lemma CodingTidies(m: Memory, opt: Block, c: Block)
    requires Opened(m, opt, c)
    ensures Tidied(m, CodingSlots(opt, c), Packets.GivenUp(m, opt, c))
  {
    hide Cleaned, Opened, AllGuarded, Standard, EndsIn;
    CodingIsStandard(opt, c);
    StandardIsGuarded(m, opt, c, CodingChains(opt, c));
    CodingEnds(m, opt, c);
    OpenedIsOwned(m, opt, c);
    TidiesUp(m, CodingChains(opt, c), CodingSlots(opt, c));
  }

  lemma OpenedIsOwned(m: Memory, opt: Block, c: Block)
    requires Opened(m, opt, c)
    ensures Owned(m)
  {
  }

  lemma CodingEnds(m: Memory, opt: Block, c: Block)
    requires Opened(m, opt, c)
    ensures EndsIn(m, CodingChains(opt, c), CodingSlots(opt, c))
  {
    hide Opened, DescendantsFirst, Releases, ToMember, ToOpt, EndsIn, Owned;
    var chains, slots := CodingChains(opt, c), CodingSlots(opt, c);
    CodingIsOrdered(opt, c);
    MemberChain(m, opt, c, Packet, "packet");
    MemberChain(m, opt, c, Context, "context");
    MemberChain(m, opt, c, Frame, "yuv_frame");
    MemberChain(m, opt, c, Frame, "rgb_frame");
    OneLink(m, OUT);
    ContextChain(m, opt, c);
    assert chains[4] == [Link(Data, OUT)] && chains[5] == ToOpt(opt);
    CompleteEnds(m, chains, slots, [Field(c, "packet"), Field(c, "context"), Field(c, "yuv_frame"),
                                    Field(c, "rgb_frame"), OUT, Ctx(opt)]);
  }

  lemma OneLink(m: Memory, s: Slot)
    ensures var chain := [Link(Data, s)]; Last(chain) == s && (Releases(m, chain) <==> s in m.cells)
  {
    assert [Link(Data, s)][0] in [Link(Data, s)];
  }

  lemma ContextChain(m: Memory, opt: Block, c: Block)
    requires Opened(m, opt, c)
    ensures Last(ToOpt(opt)) == Ctx(opt) && Ctx(opt) in m.cells && Releases(m, ToOpt(opt))
    ensures forall kind, name :: ToMember(opt, c, kind, name) != []
  {
    MemberChain(m, opt, c, Packet, "packet");
  }

  /** The slots in which the chains end, one by one. */
  lemma CompleteEnds(m: Memory, chains: seq<Chain>, slots: set<Slot>, ends: seq<Slot>)
    requires DescendantsFirst(chains) && |ends| == |chains|
    requires (forall s :: s in ends ==> s in slots) && (forall s :: s in slots && s in m.cells ==> s in ends)
    requires forall t :: 0 <= t < |chains| ==>
               chains[t] != [] && Last(chains[t]) == ends[t] && (Releases(m, chains[t]) <==> ends[t] in m.cells)
    ensures EndsIn(m, chains, slots)
  {
    forall t: nat | t < |chains|
      ensures Fires(m, chains, t) <==> ends[t] in m.cells
    {
      FiresIffComplete(m, chains, t);
    }
    hide Fires, Releases, DescendantsFirst;
    forall s | s in slots && s in m.cells
      ensures exists t: nat :: t < |chains| && Fires(m, chains, t) && Last(chains[t]) == s
    {
      var t: nat :| t < |ends| && ends[t] == s;
      assert Fires(m, chains, t) && Last(chains[t]) == s;
    }
  }

  function FiniSlots(opt: Block, c: Block): set<Slot> {
    Members(c) + {Ctx(opt)}
  }

  function Finished(m: Memory, opt: Block, c: Block): Memory {
    Cleaned(m, FiniChains(opt, c), 6)
  }

  lemma FiniTidies(m: Memory, opt: Block, c: Block)
    requires Opened(m, opt, c)
    ensures Tidied(m, FiniSlots(opt, c), Finished(m, opt, c))
  {
    hide Cleaned, Opened, AllGuarded, Standard, EndsIn;
    FiniIsStandard(opt, c);
    StandardIsGuarded(m, opt, c, FiniChains(opt, c));
    FiniEnds(m, opt, c);
    OpenedIsOwned(m, opt, c);
    TidiesUp(m, FiniChains(opt, c), FiniSlots(opt, c));
  }

  lemma FiniEnds(m: Memory, opt: Block, c: Block)
    requires Opened(m, opt, c)
    ensures EndsIn(m, FiniChains(opt, c), FiniSlots(opt, c))
  {
    hide Opened, DescendantsFirst, Releases, ToMember, ToOpt, EndsIn, Owned;
    FiniIsOrdered(opt, c);
    ContextChain(m, opt, c);
    assert FiniChains(opt, c)[5] == ToOpt(opt);
    MemberChain(m, opt, c, Packet, "packet");
    MemberChain(m, opt, c, Context, "context");
    MemberChain(m, opt, c, Frame, "yuv_frame");
    MemberChain(m, opt, c, Frame, "rgb_frame");
    MemberChain(m, opt, c, Parser, "parser");
    CompleteEnds(m, FiniChains(opt, c), FiniSlots(opt, c),
                 [Field(c, "packet"), Field(c, "context"), Field(c, "yuv_frame"),
                  Field(c, "rgb_frame"), Field(c, "parser"), Ctx(opt)]);
  }

  function InnerEnds(c: Block): seq<Slot> {
    [Field(c, "context"), Field(c, "rgb_frame"), PIXELS, Field(c, "parser")]
  }

  function InnerSlots(c: Block): set<Slot> {
    {Field(c, "context"), Field(c, "rgb_frame"), PIXELS, Field(c, "parser")}
  }

  lemma InnerTidies(m: Memory, opt: Block, c: Block, k: nat)
    requires Opened(m, opt, c) && k <= 4 && forall i :: k <= i < 4 ==> InnerEnds(c)[i] !in m.cells
    ensures Tidied(m, InnerSlots(c), InnerUndone(m, opt, c, k))
  {
    hide Cleaned, Opened, AllGuarded, Standard, EndsIn;
    var chains := InnerChains(opt, c)[..k];
    InnerIsStandard(opt, c, k);
    StandardIsGuarded(m, opt, c, chains);
    InnerEndsIn(m, opt, c, k);
    OpenedIsOwned(m, opt, c);
    TidiesUp(m, chains, InnerSlots(c));
  }

  lemma InnerIsStandard(opt: Block, c: Block, k: nat)
    requires k <= 4
    ensures forall chain :: chain in InnerChains(opt, c)[..k] ==> Standard(opt, c, chain)
  {
  }

  lemma InnerEndsIn(m: Memory, opt: Block, c: Block, k: nat)
    requires Opened(m, opt, c) && k <= 4 && forall i :: k <= i < 4 ==> InnerEnds(c)[i] !in m.cells
    ensures EndsIn(m, InnerChains(opt, c)[..k], InnerSlots(c))
  {
    hide Opened, DescendantsFirst, Releases, ToMember, EndsIn, Owned;
    var chains, ends := InnerChains(opt, c)[..k], InnerEnds(c)[..k];
    InnerIsOrdered(opt, c, k);
    ContextChain(m, opt, c);
    MemberChain(m, opt, c, Context, "context");
    MemberChain(m, opt, c, Frame, "rgb_frame");
    MemberChain(m, opt, c, Parser, "parser");
    OneLink(m, PIXELS);
    forall s | s in InnerSlots(c) && s in m.cells
      ensures s in ends
    {
      var i: nat := if s == InnerEnds(c)[0] then 0 else if s == InnerEnds(c)[1] then 1
                    else if s == InnerEnds(c)[2] then 2 else 3;
      assert InnerEnds(c)[i] == s && i < k && ends[i] == s;
    }
    CompleteEnds(m, chains, InnerSlots(c), ends);
  }

  lemma InnerIsOrdered(opt: Block, c: Block, k: nat)
    requires k <= 4
    ensures DescendantsFirst(InnerChains(opt, c)[..k])
  {
  }

  lemma OuterTidies(m: Memory, opt: Block, c: Block, k: nat)
    requires Opened(m, opt, c) && 1 <= k <= 3
    ensures Tidied(m, {Ctx(opt)}, OuterUndone(m, opt, c, k))
  {
    hide Cleaned, Opened, AllGuarded, Standard, EndsIn;
    var chains := InitChains(opt, c)[..k];
    OuterIsStandard(opt, c, k);
    StandardIsGuarded(m, opt, c, chains);
    OuterEndsIn(m, opt, c, k);
    OpenedIsOwned(m, opt, c);
    TidiesUp(m, chains, {Ctx(opt)});
  }

  lemma OuterIsStandard(opt: Block, c: Block, k: nat)
    requires k <= 3
    ensures forall chain :: chain in InitChains(opt, c)[..k] ==> Standard(opt, c, chain)
  {
    assert InitChains(opt, c)[1] == [Link(Data, Ctx(opt)), Link(Packet, Field(c, "packet"))];
    assert InitChains(opt, c)[2] == [Link(Data, Ctx(opt)), Link(Frame, Field(c, "yuv_frame"))];
  }

  /** Only the first chain fires: the others begin with the pointer it clears. */
  lemma OuterEndsIn(m: Memory, opt: Block, c: Block, k: nat)
    requires Opened(m, opt, c) && 1 <= k <= 3
    ensures EndsIn(m, InitChains(opt, c)[..k], {Ctx(opt)})
  {
    var chains := InitChains(opt, c)[..k];
    MemberChain(m, opt, c, Packet, "packet");
    assert chains[0] == ToOpt(opt) && Fires(m, chains, 0);
    forall t: nat | 0 < t < k
      ensures !Fires(m, chains, t)
    {
      assert chains[t] == InitChains(opt, c)[t] && chains[t][0].slot == Last(chains[0]);
    }
  }

  lemma NoContextNothingUndone(m: Memory, opt: Block)
    requires Tame(m, opt) && Ctx(opt) !in m.cells
    ensures OuterUndone(m, opt, opt, 1) == m
  {
    var chain := ToOpt(opt);
    assert InitChains(opt, opt)[..1] == [chain];
    assert chain[1].slot == Ctx(opt) && chain[1] in chain;
    ReadsIs(m, chain, 2);
    assert Walked(m, chain, 1) == m && Walked(m, chain, 2) == m;
    assert Cleaned(m, [chain], 0) == m;
  }

  // ---------------------------------------------------------------- the books of each call

  function ContextOf(m: Memory, opt: Block): Block {
    if Ctx(opt) in m.cells then m.cells[Ctx(opt)] else opt
  }

  /** No slot but the output becomes non-null. */
  ghost predicate Shrinks(m: Memory, w: Memory) {
    forall s :: s in w.cells && s != OUT ==> s in m.cells
  }

  /** Storing in a slot that was null leaks nothing. */
  lemma BooksAfterFill(m: Memory, opt: Block, leaked: set<Block>, s: Slot, b: Option<Block>)
    requires Books(m, opt, leaked) && s in Known(m, opt) && s != OPT && s != Ctx(opt) && s !in m.cells
    requires b.Some? ==> Unused(m, b.value)
    ensures Books(Stored(m, s, b), opt, leaked)
  {
    BooksAfterStore(m, opt, leaked, s, b);
    assert leaked + At(m, s) == leaked;
  }

  /** A coding call that gives up leaks the parser, if there is one. */
  lemma BooksAfterGivingUp(m: Memory, opt: Block, leaked: set<Block>)
    requires Books(m, opt, leaked) && Ctx(opt) in m.cells
    ensures var c := m.cells[Ctx(opt)]; var w := Packets.GivenUp(m, opt, c);
            Books(w, opt, leaked + At(m, Field(c, "parser"))) && Ctx(opt) !in w.cells &&
            w.faults == m.faults && Shrinks(m, w)
  {
    var c := m.cells[Ctx(opt)];
    hide Tame, Tracks, Opened, Cleaned, Packets.GivenUp;
    TameIsOpened(m, opt);
    CodingTidies(m, opt, c);
    BooksAfterTidying(m, opt, leaked, CodingSlots(opt, c), Packets.GivenUp(m, opt, c));
    assert Members(c) - CodingSlots(opt, c) == {Field(c, "parser")};
    assert AllAt(m, {Field(c, "parser")}) == At(m, Field(c, "parser"));
  }

  function EncodeLeaks(m: Memory, opt: Block, leaked: set<Block>, converted: bool, b: Option<Block>,
                       first: Packets.Pass, flush: Packets.Pass): set<Block>
    requires Packets.Terminates(first.received) && Packets.Terminates(flush.received)
  {
    var c := ContextOf(m, opt);
    var frame, parser := At(m, Field(c, "yuv_frame")), At(m, Field(c, "parser"));
    if Ctx(opt) !in m.cells then leaked
    else if frame == {} || !converted then leaked + parser
    else if b == None || !Packets.Encodes(first) then leaked + At(m, OUT) + parser
    else if !Packets.Encodes(flush) then leaked + At(m, OUT) + frame + parser
    else leaked + At(m, OUT) + frame
  }

  lemma BooksAfterEncode(m: Memory, opt: Block, leaked: set<Block>, converted: bool, b: Option<Block>,
                         first: Packets.Pass, flush: Packets.Pass)
    requires Books(m, opt, leaked) && (b.Some? ==> Unused(m, b.value))
    requires Packets.Terminates(first.received) && Packets.Terminates(flush.received)
    ensures var w := Packets.EncodeLeaves(m, opt, ContextOf(m, opt), converted, b, first, flush);
            Books(w, opt, EncodeLeaks(m, opt, leaked, converted, b, first, flush)) && w.faults == m.faults &&
            Shrinks(m, w) &&
            (Ctx(opt) in w.cells <==>
              Ctx(opt) in m.cells && Field(ContextOf(m, opt), "yuv_frame") in m.cells && converted && b.Some? &&
              Packets.Encodes(first) && Packets.Encodes(flush))
  {
    hide Tame, Tracks, Cleaned, Packets.GivenUp, Unused;
    var c := ContextOf(m, opt);
    if Ctx(opt) in m.cells {
      if Field(c, "yuv_frame") !in m.cells || !converted {
        BooksAfterGivingUp(m, opt, leaked);
      } else {
        BooksAfterStore(m, opt, leaked, OUT, b);
        var m1 := Stored(m, OUT, b);
        if b == None || !Packets.Encodes(first) {
          BooksAfterGivingUp(m1, opt, leaked + At(m, OUT));
        } else {
          BooksAfterStore(m1, opt, leaked + At(m, OUT), Field(c, "yuv_frame"), None);
          if !Packets.Encodes(flush) {
            BooksAfterGivingUp(Stored(m1, Field(c, "yuv_frame"), None), opt,
                               leaked + At(m, OUT) + At(m, Field(c, "yuv_frame")));
          }
        }
      }
    }
  }

  datatype Decoded = Decoded(failed: bool, parsed: bool, flushed: bool, ret: int)

  function ResultOf(m: Memory, opt: Block, b: Option<Block>, d: Decoded): Packets.Decoding {
    if Ctx(opt) !in m.cells then Packets.NoContext
    else if b == None then Packets.NoMemory
    else if d.failed then Packets.ParseFailed
    else Packets.Decoded(d.ret)
  }

  /** Whether a frame was delivered by the time the call ended. */
  predicate Shown(d: Decoded) {
    d.parsed || (!d.failed && d.flushed)
  }

  function DecodeLeaks(m: Memory, opt: Block, leaked: set<Block>, b: Option<Block>, d: Decoded, pixels: Block): set<Block> {
    var c := ContextOf(m, opt);
    var packet, parser := At(m, Field(c, "packet")), At(m, Field(c, "parser"));
    if Ctx(opt) !in m.cells then leaked
    else if b == None then leaked + At(m, OUT) + parser
    else
      (if Shown(d) then leaked - {pixels} + {b.value} else leaked) + At(m, OUT) +
      (if d.failed then parser else if d.ret == -1 then packet + parser else packet)
  }

  function DecodeLeaves(m: Memory, opt: Block, b: Option<Block>, d: Decoded, pixels: Block): Memory {
    Packets.DecodeLeaves(m, opt, ContextOf(m, opt), b, ResultOf(m, opt, b, d), d.parsed, d.flushed, pixels)
  }

  lemma BooksAfterDecode(m: Memory, opt: Block, leaked: set<Block>, b: Option<Block>, d: Decoded, pixels: Block)
    requires Books(m, opt, leaked) && (b.Some? ==> Unused(m, b.value))
    requires d.parsed || d.flushed ==> pixels in leaked && NoFields(m, pixels)
    ensures var w := DecodeLeaves(m, opt, b, d, pixels);
            Books(w, opt, DecodeLeaks(m, opt, leaked, b, d, pixels)) && w.faults == m.faults &&
            (Ctx(opt) in w.cells <==> Ctx(opt) in m.cells && b.Some? && !d.failed && d.ret != -1) &&
            Shrinks(m, w) && (Ctx(opt) in w.cells ==> Field(ContextOf(m, opt), "packet") !in w.cells && ContextOf(w, opt) == ContextOf(m, opt))
  {
    hide Tame, Tracks, Cleaned, Packets.GivenUp, Unused, NoFields;
    if Ctx(opt) in m.cells {
      if b == None {
        BooksAfterStore(m, opt, leaked, OUT, b);
        BooksAfterGivingUp(Stored(m, OUT, b), opt, leaked + At(m, OUT));
      } else if d.failed {
        BooksAfterParseFailed(m, opt, leaked, b.value, d, pixels);
      } else {
        BooksAfterFlush(m, opt, leaked, b.value, d, pixels);
      }
    }
  }

  /** The output slot once the buffer `b` is there and frames may have been shown. */
  function Shows(m: Memory, b: Block, shown: bool, pixels: Block): Memory {
    Packets.AfterFrames(Stored(m, OUT, Some(b)), shown, pixels)
  }

  function ShowingLeaks(m: Memory, leaked: set<Block>, b: Block, shown: bool, pixels: Block): set<Block> {
    (if shown then leaked - {pixels} + {b} else leaked) + At(m, OUT)
  }

  lemma BooksAfterParseFailed(m: Memory, opt: Block, leaked: set<Block>, b: Block, d: Decoded, pixels: Block)
    requires Books(m, opt, leaked) && Unused(m, b) && Ctx(opt) in m.cells && d.failed
    requires d.parsed ==> pixels in leaked && NoFields(m, pixels)
    ensures var w := DecodeLeaves(m, opt, Some(b), d, pixels);
            Books(w, opt, DecodeLeaks(m, opt, leaked, Some(b), d, pixels)) && w.faults == m.faults &&
            (Ctx(opt) in w.cells <==> !d.failed && d.ret != -1) &&
            Shrinks(m, w) && (Ctx(opt) in w.cells ==> Field(ContextOf(m, opt), "packet") !in w.cells && ContextOf(w, opt) == ContextOf(m, opt))
  {
    hide Tame, Tracks, Cleaned, Packets.GivenUp, Unused, NoFields;
    BooksAfterShowing(m, opt, leaked, b, d.parsed, pixels);
    BooksAfterGivingUp(Shows(m, b, d.parsed, pixels), opt, ShowingLeaks(m, leaked, b, d.parsed, pixels));
  }

  lemma BooksAfterShowing(m: Memory, opt: Block, leaked: set<Block>, b: Block, shown: bool, pixels: Block)
    requires Books(m, opt, leaked) && Unused(m, b)
    requires shown ==> pixels in leaked && NoFields(m, pixels)
    ensures Books(Shows(m, b, shown, pixels), opt, ShowingLeaks(m, leaked, b, shown, pixels))
  {
    BooksAfterStore(m, opt, leaked, OUT, Some(b));
    assert shown ==> Leaked(m, pixels);
    assert OUT in m.cells ==> Stores(m, OUT);
    hide Tame, Tracks;
    if shown {
      BooksAfterAiming(Stored(m, OUT, Some(b)), opt, leaked + At(m, OUT), pixels);
      assert leaked + At(m, OUT) - {pixels} + {b} == leaked - {pixels} + {b} + At(m, OUT);
    }
  }

  /** Frames shown before the flush and by it leave the same memory. */
  lemma FlushMemory(m: Memory, opt: Block, b: Block, d: Decoded, pixels: Block)
    requires Ctx(opt) in m.cells && !d.failed
    ensures var c := m.cells[Ctx(opt)];
            var flushed := Stored(Shows(m, b, d.parsed || d.flushed, pixels), Field(c, "packet"), None);
            DecodeLeaves(m, opt, Some(b), d, pixels)
            == if d.ret == -1 then Packets.GivenUp(flushed, opt, c) else flushed
  {
    hide Cleaned, Packets.GivenUp;
    var c, m1 := m.cells[Ctx(opt)], Stored(m, OUT, Some(b));
    Packets.AimingLast(m1, c, pixels);
    Packets.AimingLast(Aimed(m1, OUT, pixels), c, pixels);
  }

  lemma BooksAfterFlush(m: Memory, opt: Block, leaked: set<Block>, b: Block, d: Decoded, pixels: Block)
    requires Books(m, opt, leaked) && Unused(m, b) && Ctx(opt) in m.cells && !d.failed
    requires d.parsed || d.flushed ==> pixels in leaked && NoFields(m, pixels)
    ensures var w := DecodeLeaves(m, opt, Some(b), d, pixels);
            Books(w, opt, DecodeLeaks(m, opt, leaked, Some(b), d, pixels)) && w.faults == m.faults &&
            (Ctx(opt) in w.cells <==> !d.failed && d.ret != -1) &&
            Shrinks(m, w) && (Ctx(opt) in w.cells ==> Field(ContextOf(m, opt), "packet") !in w.cells && ContextOf(w, opt) == ContextOf(m, opt))
  {
    hide Tame, Tracks, Cleaned, Packets.GivenUp, Unused, NoFields, DecodeLeaves;
    FlushMemory(m, opt, b, d, pixels);
    var c, shown := m.cells[Ctx(opt)], d.parsed || d.flushed;
    BooksAfterShowing(m, opt, leaked, b, shown, pixels);
    var m2, l2 := Shows(m, b, shown, pixels), ShowingLeaks(m, leaked, b, shown, pixels);
    BooksAfterStore(m2, opt, l2, Field(c, "packet"), None);
    if d.ret == -1 {
      BooksAfterGivingUp(Stored(m2, Field(c, "packet"), None), opt, l2 + At(m, Field(c, "packet")));
      assert l2 + At(m, Field(c, "packet")) + At(m, Field(c, "parser"))
          == l2 + (At(m, Field(c, "packet")) + At(m, Field(c, "parser")));
    }
  }

  lemma BooksAfterFini(m: Memory, opt: Block, leaked: set<Block>)
    requires Books(m, opt, leaked)
    ensures var w := Finished(m, opt, ContextOf(m, opt));
            Books(w, opt, leaked) && w.faults == m.faults && Ctx(opt) !in w.cells && Shrinks(m, w)
  {
    if Ctx(opt) in m.cells {
      var c := m.cells[Ctx(opt)];
      hide Tame, Tracks, Opened, Cleaned, Finished, AllAt, Members;
      TameIsOpened(m, opt);
      FiniTidies(m, opt, c);
      BooksAfterTidying(m, opt, leaked, FiniSlots(opt, c), Finished(m, opt, c));
      FiniMembers(m, opt, leaked, c);
    } else {
      NoContextNothingFreed(m, opt, opt, 6);
    }
  }

  lemma FiniMembers(m: Memory, opt: Block, leaked: set<Block>, c: Block)
    ensures FiniSlots(opt, c) <= Members(c) + {Ctx(opt)} && OPT !in FiniSlots(opt, c)
    ensures leaked + AllAt(m, Members(c) - FiniSlots(opt, c)) == leaked
  {
  }

  /** Releasing the output, as the caller may. */
  lemma BooksAfterRelease(m: Memory, opt: Block, leaked: set<Block>)
    requires Books(m, opt, leaked) && OUT in m.cells
    ensures Books(Released(m, OUT), opt, leaked) && Released(m, OUT).faults == m.faults
  {
    assert Stores(m, OUT);
    assert Tidied(m, {OUT}, Released(m, OUT));
    BooksAfterTidying(m, opt, leaked, {OUT}, Released(m, OUT));
  }

  // ---------------------------------------------------------------- the books of an initialisation

  function SetOf(b: Option<Block>): set<Block> {
    if b.Some? then {b.value} else {}
  }

  /** New blocks, no two the same. */
  ghost predicate New(m: Memory, blocks: seq<Option<Block>>) {
    (forall i :: 0 <= i < |blocks| && blocks[i].Some? ==> Unused(m, blocks[i].value)) &&
    (forall i, j :: 0 <= i < j < |blocks| && blocks[i].Some? ==> blocks[i] != blocks[j])
  }

  lemma NewAfterStore(m: Memory, s: Slot, blocks: seq<Option<Block>>)
    requires New(m, blocks) && blocks != [] && Readable(m, s)
    ensures New(Stored(m, s, blocks[0]), blocks[1..])
  {
    var w, rest := Stored(m, s, blocks[0]), blocks[1..];
    forall i | 0 <= i < |rest| && rest[i].Some?
      ensures Unused(w, rest[i].value)
    {
      assert rest[i] == blocks[i + 1] && Unused(m, rest[i].value);
    }
  }

  function BlocksOf(a: Action): seq<Option<Block>> {
    match a
    case Encoding(_, context, _) => [context]
    case Decoding(_, context, rgb, pixels, _, parser, _) => [context, rgb, pixels, parser]
    case Unknown => []
  }

  /** The context as a first part of the initialisation leaves it. */
  ghost predicate Started(m: Memory, opt: Block, leaked: set<Block>, c: Block) {
    Books(m, opt, leaked) && Ctx(opt) in m.cells && m.cells[Ctx(opt)] == c &&
    forall i :: 0 <= i < 4 ==> InnerEnds(c)[i] !in m.cells
  }

  /** What changes nothing but the inner slots of the context. */
  ghost predicate Inside(m: Memory, c: Block, w: Memory) {
    w.faults == m.faults && forall s :: s !in InnerSlots(c) ==> At(w, s) == At(m, s)
  }

  lemma BooksAfterInnerUndone(m: Memory, opt: Block, leaked: set<Block>, c: Block, k: nat)
    requires Books(m, opt, leaked) && Ctx(opt) in m.cells && m.cells[Ctx(opt)] == c
    requires k <= 4 && forall i :: k <= i < 4 ==> InnerEnds(c)[i] !in m.cells
    ensures var w := InnerUndone(m, opt, c, k); Started(w, opt, leaked, c) && Inside(m, c, w)
  {
    hide Tame, Tracks, Opened, Cleaned, InnerUndone;
    TameIsOpened(m, opt);
    InnerTidies(m, opt, c, k);
    BooksAfterTidying(m, opt, leaked, InnerSlots(c), InnerUndone(m, opt, c, k));
    assert forall i :: 0 <= i < 4 ==> InnerEnds(c)[i] in InnerSlots(c);
  }

  /** The context after `k` inner objects, beginning from `m0`. */
  ghost predicate Stage(m0: Memory, m: Memory, opt: Block, leaked: set<Block>, c: Block, k: nat) {
    k <= 4 && Books(m, opt, leaked) && Ctx(opt) in m.cells && m.cells[Ctx(opt)] == c && Inside(m0, c, m) &&
    forall i :: k <= i < 4 ==> InnerEnds(c)[i] !in m.cells
  }

  lemma FirstStage(m: Memory, opt: Block, leaked: set<Block>, c: Block)
    requires Started(m, opt, leaked, c)
    ensures Stage(m, m, opt, leaked, c, 0)
  {
  }

  /** One more object of the context. */
  lemma NextStage(m0: Memory, m: Memory, opt: Block, leaked: set<Block>, c: Block, k: nat, blocks: seq<Option<Block>>)
    requires Stage(m0, m, opt, leaked, c, k) && k < 4 && blocks != [] && New(m, blocks)
    ensures var w := Stored(m, InnerEnds(c)[k], blocks[0]);
            Stage(m0, w, opt, leaked, c, k + 1) && New(w, blocks[1..])
  {
    TameIsOpened(m, opt);
    var s := InnerEnds(c)[k];
    assert s in Known(m, opt) && s in InnerSlots(c);
    NewAfterStore(m, s, blocks);
    assert blocks[0].Some? ==> Unused(m, blocks[0].value);
    hide Tame, Tracks, Opened, New, Unused;
    BooksAfterFill(m, opt, leaked, s, blocks[0]);
  }

  lemma UndoneStage(m0: Memory, m: Memory, opt: Block, leaked: set<Block>, c: Block, k: nat)
    requires Stage(m0, m, opt, leaked, c, k)
    ensures var w := InnerUndone(m, opt, c, k); Started(w, opt, leaked, c) && Inside(m0, c, w)
  {
    BooksAfterInnerUndone(m, opt, leaked, c, k);
  }

  lemma StageMeans(m0: Memory, m: Memory, opt: Block, leaked: set<Block>, c: Block, k: nat)
    requires Stage(m0, m, opt, leaked, c, k)
    ensures Books(m, opt, leaked) && Ctx(opt) in m.cells && m.cells[Ctx(opt)] == c && Inside(m0, c, m)
    ensures k == 1 ==> Field(c, "rgb_frame") !in m.cells && PIXELS !in m.cells
  {
    assert InnerEnds(c)[1] == Field(c, "rgb_frame") && InnerEnds(c)[2] == PIXELS;
  }

  /** What a successful start of an encoder or a decoder leaves, and which pixels it leaks. */
  ghost predicate Ready(m: Memory, opt: Block, leaked: set<Block>, c: Block, a: Action) {
    PIXELS !in m.cells && Ctx(opt) in m.cells && m.cells[Ctx(opt)] == c &&
    match a
    case Decoding(_, _, _, pixels, _, _, _) =>
      pixels.Some? && Books(m, opt, leaked + {pixels.value}) && NoFields(m, pixels.value)
    case _ => Books(m, opt, leaked) && Field(c, "rgb_frame") !in m.cells
  }

  lemma BooksAfterEncoding(m: Memory, opt: Block, leaked: set<Block>, c: Block, a: Action)
    requires Started(m, opt, leaked, c) && New(m, BlocksOf(a)) && a.Encoding?
    ensures var w := ActionLeaves(m, opt, c, a);
            Inside(m, c, w) && if ActionOk(a) then Ready(w, opt, leaked, c, a) else Started(w, opt, leaked, c)
  {
    hide Books, New, InnerUndone, Stage, Inside, Started;
    StaysInside(m, c);
    if a.found {
      FirstStage(m, opt, leaked, c);
      NextStage(m, m, opt, leaked, c, 0, BlocksOf(a));
      var m1 := Stored(m, Field(c, "context"), a.context);
      StageMeans(m, m1, opt, leaked, c, 1);
      UndoneStage(m, m1, opt, leaked, c, 1);
    }
  }

  lemma BooksAfterDecoding(m: Memory, opt: Block, leaked: set<Block>, c: Block, a: Action)
    requires Started(m, opt, leaked, c) && New(m, BlocksOf(a)) && a.Decoding?
    ensures var w := ActionLeaves(m, opt, c, a);
            Inside(m, c, w) && if ActionOk(a) then Ready(w, opt, leaked, c, a) else Started(w, opt, leaked, c)
  {
    hide Books, New, InnerUndone, Stage, Inside, Started, Ready, NoFields;
    StaysInside(m, c);
    if a.found {
      var m1 := Stored(m, Field(c, "context"), a.context);
      var m2 := Stored(m1, Field(c, "rgb_frame"), a.rgb);
      var m3 := Stored(m2, PIXELS, a.pixels);
      var m4 := Stored(m3, Field(c, "parser"), a.parser);
      FourStages(m, opt, leaked, c, a);
      UndoneStage(m, m1, opt, leaked, c, 1);
      UndoneStage(m, m2, opt, leaked, c, 2);
      UndoneStage(m, m3, opt, leaked, c, 3);
      UndoneStage(m, m4, opt, leaked, c, 4);
      if ActionOk(a) {
        StartedIsLive(m, opt, leaked, c);
        PixelsHaveNoFields(m, opt, c, a);
        StageMeans(m, m4, opt, leaked, c, 4);
        BooksAfterPixels(m4, opt, leaked, c, a);
        InsideTwice(m, c, m4, Stored(m4, PIXELS, None));
      }
    }
  }

  lemma InsideTwice(m: Memory, c: Block, w: Memory, x: Memory)
    requires Inside(m, c, w) && Inside(w, c, x)
    ensures Inside(m, c, x)
  {
  }

  lemma FourStages(m: Memory, opt: Block, leaked: set<Block>, c: Block, a: Action)
    requires Started(m, opt, leaked, c) && New(m, BlocksOf(a)) && a.Decoding?
    ensures var m1 := Stored(m, Field(c, "context"), a.context);
            var m2 := Stored(m1, Field(c, "rgb_frame"), a.rgb);
            var m3 := Stored(m2, PIXELS, a.pixels);
            var m4 := Stored(m3, Field(c, "parser"), a.parser);
            Stage(m, m1, opt, leaked, c, 1) && Stage(m, m2, opt, leaked, c, 2) &&
            Stage(m, m3, opt, leaked, c, 3) && Stage(m, m4, opt, leaked, c, 4)
  {
    hide Books, New, Stage, Started;
    var blocks := [a.context, a.rgb, a.pixels, a.parser];
    assert blocks[1..] == [a.rgb, a.pixels, a.parser];
    assert [a.rgb, a.pixels, a.parser][1..] == [a.pixels, a.parser];
    assert [a.pixels, a.parser][1..] == [a.parser];
    var m1 := Stored(m, Field(c, "context"), a.context);
    var m2 := Stored(m1, Field(c, "rgb_frame"), a.rgb);
    var m3 := Stored(m2, PIXELS, a.pixels);
    FirstStage(m, opt, leaked, c);
    NextStage(m, m, opt, leaked, c, 0, blocks);
    NextStage(m, m1, opt, leaked, c, 1, [a.rgb, a.pixels, a.parser]);
    NextStage(m, m2, opt, leaked, c, 2, [a.pixels, a.parser]);
    NextStage(m, m3, opt, leaked, c, 3, [a.parser]);
  }

  lemma StartedIsLive(m: Memory, opt: Block, leaked: set<Block>, c: Block)
    requires Started(m, opt, leaked, c)
    ensures c in m.live && c != opt
  {
    TameIsOpened(m, opt);
  }

  /** The variable that held the pixels goes out of scope: from then on nothing owns them. */
  lemma BooksAfterPixels(m: Memory, opt: Block, leaked: set<Block>, c: Block, a: Action)
    requires Books(m, opt, leaked) && Ctx(opt) in m.cells && m.cells[Ctx(opt)] == c
    requires a.Decoding? && a.pixels.Some? && PIXELS in m.cells && m.cells[PIXELS] == a.pixels.value
    requires NoFields(m, a.pixels.value)
    ensures Ready(Stored(m, PIXELS, None), opt, leaked, c, a) && Inside(m, c, Stored(m, PIXELS, None))
  {
    hide Tame, Tracks;
    BooksAfterStore(m, opt, leaked, PIXELS, None);
  }

  /** Filling the members of a live context puts nothing into a block that is new. */
  lemma PixelsHaveNoFields(m: Memory, opt: Block, c: Block, a: Action)
    requires New(m, BlocksOf(a)) && c in m.live && a.Decoding?
    ensures a.pixels.Some? ==>
              NoFields(Stored(Stored(Stored(Stored(m, Field(c, "context"), a.context), Field(c, "rgb_frame"), a.rgb),
                                     PIXELS, a.pixels), Field(c, "parser"), a.parser), a.pixels.value)
  {
    if a.pixels.Some? {
      assert BlocksOf(a)[2] == a.pixels;
      assert Unused(m, a.pixels.value);
    }
  }

  lemma BooksAfterAction(m: Memory, opt: Block, leaked: set<Block>, c: Block, a: Action)
    requires Started(m, opt, leaked, c) && New(m, BlocksOf(a))
    ensures var w := ActionLeaves(m, opt, c, a);
            Inside(m, c, w) && if ActionOk(a) then Ready(w, opt, leaked, c, a) else Started(w, opt, leaked, c)
  {
    hide Started, Ready, New, Inside;
    match a
    case Encoding(_, _, _) => BooksAfterEncoding(m, opt, leaked, c, a);
    case Decoding(_, _, _, _, _, _, _) => BooksAfterDecoding(m, opt, leaked, c, a);
    case Unknown => StaysInside(m, c);
  }

  lemma StaysInside(m: Memory, c: Block)
    ensures Inside(m, c, m)
  {
  }

  /** An initialisation leaks the context it replaces; its own packet and frame if it fails;
      and the pixels if it sets up a decoder. */
  function InitLeaks(m: Memory, opt: Block, leaked: set<Block>, a: Answers): set<Block> {
    var before := leaked + At(m, Ctx(opt));
    if a.ctx == None || a.packet == None then before
    else if !InitOk(a) then before + SetOf(a.packet) + SetOf(a.yuv)
    else if a.action.Decoding? then before + SetOf(a.action.pixels)
    else before
  }

  /** A failed initialisation frees its context and leaks what that still holds. */
  lemma BooksAfterOuterUndone(m: Memory, opt: Block, leaked: set<Block>, c: Block, k: nat)
    requires Started(m, opt, leaked, c) && 1 <= k <= 3
    ensures var w := OuterUndone(m, opt, c, k);
            Books(w, opt, leaked + At(m, Field(c, "packet")) + At(m, Field(c, "yuv_frame"))) &&
            w.faults == m.faults && Ctx(opt) !in w.cells && PIXELS !in w.cells
  {
    hide Tame, Tracks, Opened, Cleaned, OuterUndone, AllAt, Members;
    TameIsOpened(m, opt);
    OuterTidies(m, opt, c, k);
    BooksAfterTidying(m, opt, leaked, {Ctx(opt)}, OuterUndone(m, opt, c, k));
    OuterMembers(m, opt, leaked, c);
  }

  lemma OuterMembers(m: Memory, opt: Block, leaked: set<Block>, c: Block)
    requires c != opt && forall i :: 0 <= i < 4 ==> InnerEnds(c)[i] !in m.cells
    ensures PIXELS !in m.cells
    ensures leaked + AllAt(m, Members(c) - {Ctx(opt)})
         == leaked + At(m, Field(c, "packet")) + At(m, Field(c, "yuv_frame"))
  {
    assert InnerEnds(c)[0] == Field(c, "context") && InnerEnds(c)[1] == Field(c, "rgb_frame") &&
           InnerEnds(c)[2] == PIXELS && InnerEnds(c)[3] == Field(c, "parser");
    assert AllAt(m, Members(c) - {Ctx(opt)}) == At(m, Field(c, "packet")) + At(m, Field(c, "yuv_frame"));
  }

  ghost predicate AllNew(m: Memory, a: Answers) {
    New(m, [a.ctx, a.packet, a.yuv] + BlocksOf(a.action))
  }

  /** The context with the packet and the frame that every initialisation begins with. */
  lemma BooksAfterStart(m: Memory, opt: Block, leaked: set<Block>, a: Answers)
    requires Books(m, opt, leaked) && PIXELS !in m.cells && AllNew(m, a) && a.ctx.Some?
    ensures var c, before := a.ctx.value, leaked + At(m, Ctx(opt));
            var m2 := Stored(Stored(m, Ctx(opt), a.ctx), Field(c, "packet"), a.packet);
            var m3 := Stored(m2, Field(c, "yuv_frame"), a.yuv);
            Started(m2, opt, before, c) && Started(m3, opt, before, c) && New(m3, BlocksOf(a.action)) &&
            At(m3, Field(c, "packet")) == At(m2, Field(c, "packet")) == SetOf(a.packet) &&
            At(m3, Field(c, "yuv_frame")) == SetOf(a.yuv) && At(m2, Field(c, "yuv_frame")) == {} &&
            m2.faults == m3.faults == m.faults
  {
    hide Books, New, Unused;
    NewAfterStart(m, opt, leaked, a);
    var c, before := a.ctx.value, leaked + At(m, Ctx(opt));
    BooksAfterContext(m, opt, leaked, a.ctx);
    var m1 := Stored(m, Ctx(opt), a.ctx);
    var m2 := Stored(m1, Field(c, "packet"), a.packet);
    BooksAfterFill(m1, opt, before, Field(c, "packet"), a.packet);
    BooksAfterFill(m2, opt, before, Field(c, "yuv_frame"), a.yuv);
  }

  lemma NewAfterStart(m: Memory, opt: Block, leaked: set<Block>, a: Answers)
    requires Books(m, opt, leaked) && AllNew(m, a) && a.ctx.Some?
    ensures var c := a.ctx.value;
            var m1 := Stored(m, Ctx(opt), a.ctx);
            var m2 := Stored(m1, Field(c, "packet"), a.packet);
            var m3 := Stored(m2, Field(c, "yuv_frame"), a.yuv);
            Unused(m, c) && (a.packet.Some? ==> Unused(m1, a.packet.value)) &&
            (a.yuv.Some? ==> Unused(m2, a.yuv.value)) && New(m3, BlocksOf(a.action))
  {
    var c, rest := a.ctx.value, BlocksOf(a.action);
    var m1 := Stored(m, Ctx(opt), a.ctx);
    var m2 := Stored(m1, Field(c, "packet"), a.packet);
    KnownIsReadable(m, opt);
    var blocks := [a.ctx, a.packet, a.yuv] + rest;
    assert blocks[1..] == [a.packet, a.yuv] + rest;
    assert ([a.packet, a.yuv] + rest)[1..] == [a.yuv] + rest && ([a.yuv] + rest)[1..] == rest;
    FirstIsUnused(m, blocks);
    hide New, Unused, Books;
    NewAfterStore(m, Ctx(opt), blocks);
    FirstIsUnused(m1, [a.packet, a.yuv] + rest);
    NewAfterStore(m1, Field(c, "packet"), [a.packet, a.yuv] + rest);
    FirstIsUnused(m2, [a.yuv] + rest);
    NewAfterStore(m2, Field(c, "yuv_frame"), [a.yuv] + rest);
  }

  lemma FirstIsUnused(m: Memory, blocks: seq<Option<Block>>)
    requires New(m, blocks) && blocks != []
    ensures blocks[0].Some? ==> Unused(m, blocks[0].value)
  {
  }

  lemma BooksAfterInit(m: Memory, opt: Block, leaked: set<Block>, a: Answers)
    requires Books(m, opt, leaked) && PIXELS !in m.cells && AllNew(m, a)
    ensures var w := InitLeaves(m, opt, a);
            Books(w, opt, InitLeaks(m, opt, leaked, a)) && w.faults == m.faults && PIXELS !in w.cells &&
            if InitOk(a) then Ready(w, opt, leaked + At(m, Ctx(opt)), a.ctx.value, a.action)
            else Ctx(opt) !in w.cells
  {
    hide Tame, Tracks, New, Started, OuterUndone, ActionLeaves, Inside;
    var before := leaked + At(m, Ctx(opt));
    if a.ctx == None {
      BooksAfterContext(m, opt, leaked, None);
      NoContextNothingUndone(Stored(m, Ctx(opt), None), opt);
    } else {
      var c := a.ctx.value;
      BooksAfterStart(m, opt, leaked, a);
      var m2 := Stored(Stored(m, Ctx(opt), a.ctx), Field(c, "packet"), a.packet);
      var m3 := Stored(m2, Field(c, "yuv_frame"), a.yuv);
      if a.packet == None {
        BooksAfterOuterUndone(m2, opt, before, c, 2);
        assert before + SetOf(a.packet) + {} == before;
      } else if a.yuv == None {
        BooksAfterOuterUndone(m3, opt, before, c, 3);
      } else {
        BooksAfterAction(m3, opt, before, c, a.action);
        var m4 := ActionLeaves(m3, opt, c, a.action);
        InsideKeeps(m3, c, m4);
        if !ActionOk(a.action) {
          BooksAfterOuterUndone(m4, opt, before, c, 3);
        }
      }
    }
  }

  lemma InsideKeeps(m: Memory, c: Block, w: Memory)
    requires Inside(m, c, w)
    ensures At(w, Field(c, "packet")) == At(m, Field(c, "packet"))
    ensures At(w, Field(c, "yuv_frame")) == At(m, Field(c, "yuv_frame"))
    ensures w.faults == m.faults
  {
  }

  lemma FailedInitHasNoContext(m: Memory, opt: Block, a: Answers)
    requires Tame(m, opt) && PIXELS !in m.cells && AllNew(m, a) && !InitOk(a)
    ensures Ctx(opt) !in InitLeaves(m, opt, a).cells
  {
    var leaked := set x | x in m.live && Leaked(m, x);
    BooksAfterInit(m, opt, leaked, a);
  }

  // ---------------------------------------------------------------- whole lives

  /** `pixels` is the buffer that the RGB frame of the current decoder converts into. */
  datatype World = World(m: Memory, pixels: Block)

  /** The calls of the library, with what they meet on the way, and what the caller may do with
      the output: drop the pointer, or free what it points to. */
  datatype Call =
    | Initialize(a: Answers)
    | Encode(converted: bool, b: Option<Block>, first: Packets.Pass, flush: Packets.Pass)
    | Decode(b: Option<Block>, d: Decoded)
    | Finish
    | Forget
    | Release

  ghost predicate Inv(w: World, opt: Block, leaked: set<Block>) {
    Books(w.m, opt, leaked) && PIXELS !in w.m.cells && (CanDeliver(w, opt) ==> w.pixels in leaked && NoFields(w.m, w.pixels))
  }

  /** The context has a packet to decode with and a frame to convert into. */
  predicate CanDeliver(w: World, opt: Block) {
    var c := ContextOf(w.m, opt);
    Ctx(opt) in w.m.cells && Field(c, "packet") in w.m.cells && Field(c, "rgb_frame") in w.m.cells
  }

  /** Allocations give new memory, a coding call that gets as far as using the packet has one,
      and frames are delivered only where there is something to convert into. */
  ghost predicate Enabled(w: World, opt: Block, call: Call) {
    var c, live := ContextOf(w.m, opt), Ctx(opt) in w.m.cells;
    match call
    case Initialize(a) => AllNew(w.m, a)
    case Encode(converted, b, first, flush) =>
      (b.Some? ==> Unused(w.m, b.value)) && Packets.Terminates(first.received) && Packets.Terminates(flush.received) &&
      (live && Field(c, "yuv_frame") in w.m.cells && converted && b.Some? ==> Field(c, "packet") in w.m.cells)
    case Decode(b, d) =>
      (b.Some? ==> Unused(w.m, b.value)) && (live && b.Some? ==> Field(c, "packet") in w.m.cells) &&
      (d.parsed || d.flushed ==> live && b.Some? && Field(c, "rgb_frame") in w.m.cells)
    case _ => true
  }

  ghost function Next(w: World, opt: Block, call: Call): World
    requires Enabled(w, opt, call)
  {
    var m := w.m;
    match call
    case Initialize(a) =>
      World(InitLeaves(m, opt, a), if InitOk(a) && a.action.Decoding? then a.action.pixels.value else w.pixels)
    case Encode(converted, b, first, flush) =>
      w.(m := Packets.EncodeLeaves(m, opt, ContextOf(m, opt), converted, b, first, flush))
    case Decode(b, d) => w.(m := DecodeLeaves(m, opt, b, d, w.pixels))
    case Finish => w.(m := Finished(m, opt, ContextOf(m, opt)))
    case Forget => w.(m := Stored(m, OUT, None))
    case Release => if OUT in m.cells then w.(m := Released(m, OUT)) else w
  }

  /** The account of one call. */
  ghost function Leaks(w: World, opt: Block, leaked: set<Block>, call: Call): set<Block>
    requires Enabled(w, opt, call)
  {
    match call
    case Initialize(a) => InitLeaks(w.m, opt, leaked, a)
    case Encode(converted, b, first, flush) => EncodeLeaks(w.m, opt, leaked, converted, b, first, flush)
    case Decode(b, d) => DecodeLeaks(w.m, opt, leaked, b, d, w.pixels)
    case Forget => leaked + At(w.m, OUT)
    case _ => leaked
  }

  /** Before the first call there is the options object, and nothing else. */
  lemma Beginning(opt: Block, pixels: Block)
    ensures Inv(World(Memory({opt}, map[OPT := opt], [], []), pixels), opt, {})
  {
    var m := Memory({opt}, map[OPT := opt], [], []);
    assert Stores(m, OPT);
  }

  /** Every call, however it ends, adds no fault and leaks what its account says. */
  lemma CallKeepsBooks(w: World, opt: Block, leaked: set<Block>, call: Call)
    requires Inv(w, opt, leaked) && Enabled(w, opt, call)
    ensures Inv(Next(w, opt, call), opt, Leaks(w, opt, leaked, call))
    ensures Next(w, opt, call).m.faults == w.m.faults
  {
    hide Books, InitLeaves, DecodeLeaves, Finished, Packets.EncodeLeaves, Released, Unused, AllNew;
    match call
    case Initialize(a) => BooksAfterInit(w.m, opt, leaked, a);
    case Encode(converted, b, first, flush) =>
      BooksAfterEncode(w.m, opt, leaked, converted, b, first, flush);
      EncodeKeepsContext(w.m, opt, leaked, converted, b, first, flush);
    case Decode(b, d) => BooksAfterDecode(w.m, opt, leaked, b, d, w.pixels);
    case Finish => BooksAfterFini(w.m, opt, leaked);
    case Forget => BooksAfterStore(w.m, opt, leaked, OUT, None);
    case Release =>
      if OUT in w.m.cells {
        BooksAfterRelease(w.m, opt, leaked);
        ReleasedShrinks(w.m);
      }
  }

  lemma ReleasedShrinks(m: Memory)
    requires OUT in m.cells
    ensures Released(m, OUT).cells == m.cells - {OUT}
  {
  }

  lemma EncodeKeepsContext(m: Memory, opt: Block, leaked: set<Block>, converted: bool, b: Option<Block>,
                           first: Packets.Pass, flush: Packets.Pass)
    requires Books(m, opt, leaked) && (b.Some? ==> Unused(m, b.value))
    requires Packets.Terminates(first.received) && Packets.Terminates(flush.received)
    ensures var w := Packets.EncodeLeaves(m, opt, ContextOf(m, opt), converted, b, first, flush);
            (Ctx(opt) in w.cells ==> Ctx(opt) in m.cells && ContextOf(w, opt) == ContextOf(m, opt)) &&
            leaked <= EncodeLeaks(m, opt, leaked, converted, b, first, flush)
  {
    hide Tame, Tracks, Cleaned, Packets.GivenUp, Unused;
    if Ctx(opt) in m.cells {
      var m1 := Stored(m, OUT, b);
      BooksAfterGivingUp(m, opt, leaked);
      BooksAfterStore(m, opt, leaked, OUT, b);
      BooksAfterGivingUp(m1, opt, leaked + At(m, OUT));
      var frame := Field(ContextOf(m, opt), "yuv_frame");
      BooksAfterStore(m1, opt, leaked + At(m, OUT), frame, None);
      BooksAfterGivingUp(Stored(m1, frame, None), opt, leaked + At(m, OUT) + At(m, frame));
    }
  }

  ghost predicate Runs(w: World, opt: Block, calls: seq<Call>)
    decreases |calls|
  {
    calls == [] || (Enabled(w, opt, calls[0]) && Runs(Next(w, opt, calls[0]), opt, calls[1..]))
  }

  ghost function Run(w: World, opt: Block, calls: seq<Call>): World
    requires Runs(w, opt, calls)
    decreases |calls|
  {
    if calls == [] then w else Run(Next(w, opt, calls[0]), opt, calls[1..])
  }

  /** The account of a whole run. */
  ghost function Account(w: World, opt: Block, leaked: set<Block>, calls: seq<Call>): set<Block>
    requires Runs(w, opt, calls)
    decreases |calls|
  {
    if calls == [] then leaked
    else Account(Next(w, opt, calls[0]), opt, Leaks(w, opt, leaked, calls[0]), calls[1..])
  }

  /** No sequence of calls, in any order and with any outcomes, reads freed memory or frees a
      block twice; and what is leaked at the end is exactly what the account of the calls
      says. */
  lemma {:induction false} LivesAreSafe(w: World, opt: Block, leaked: set<Block>, calls: seq<Call>)
    requires Inv(w, opt, leaked) && Runs(w, opt, calls)
    ensures var w' := Run(w, opt, calls);
            w'.m.faults == w.m.faults && Inv(w', opt, Account(w, opt, leaked, calls)) &&
            forall x :: Leaked(w'.m, x) <==> x in Account(w, opt, leaked, calls)
    decreases |calls|
  {
    if calls != [] {
      CallKeepsBooks(w, opt, leaked, calls[0]);
      hide Inv, Enabled, Next, Leaks;
      LivesAreSafe(Next(w, opt, calls[0]), opt, Leaks(w, opt, leaked, calls[0]), calls[1..]);
    }
  }

  /** An encoder that is set up and finished leaks nothing; a decoder leaks its pixels. */
  lemma OneLife(w: World, opt: Block, leaked: set<Block>, a: Answers)
    requires Inv(w, opt, leaked) && Ctx(opt) !in w.m.cells && AllNew(w.m, a) && InitOk(a)
    ensures var calls := [Initialize(a), Finish];
            Runs(w, opt, calls) &&
            Account(w, opt, leaked, calls) == leaked + (if a.action.Decoding? then SetOf(a.action.pixels) else {})
  {
    hide Books, InitLeaves, Finished, AllNew;
    var calls := [Initialize(a), Finish];
    assert calls[1..] == [Finish] && [Finish][1..] == [];
    var w1 := Next(w, opt, calls[0]);
    assert Runs(Next(w1, opt, Finish), opt, []);
    assert Runs(w1, opt, [Finish]);
    assert Account(w1, opt, Leaks(w, opt, leaked, calls[0]), [Finish]) == Leaks(w, opt, leaked, calls[0]);
  }

  /** The output buffer that a decode allocates is leaked if and only if a frame is delivered. */
  lemma BufferLeakedIffShown(w: World, opt: Block, leaked: set<Block>, b: Block, d: Decoded)
    requires Inv(w, opt, leaked) && Enabled(w, opt, Decode(Some(b), d)) && Ctx(opt) in w.m.cells
    ensures Leaked(Next(w, opt, Decode(Some(b), d)).m, b) <==> Shown(d)
  {
    CallKeepsBooks(w, opt, leaked, Decode(Some(b), d));
    NotYetThere(w.m, opt, leaked, b);
    hide DecodeLeaves, Tame, Unused;
    if Shown(d) {
      assert b != w.pixels;
    }
  }

  lemma NotYetThere(m: Memory, opt: Block, leaked: set<Block>, b: Block)
    requires Books(m, opt, leaked) && Unused(m, b)
    ensures b !in leaked && forall s :: s in Known(m, opt) ==> b !in At(m, s)
  {
    KnownIsReadable(m, opt);
    assert b in leaked ==> Leaked(m, b);
    forall s | s in Known(m, opt) && s in m.cells
      ensures m.cells[s] != b
    {
      assert Stores(m, s);
    }
  }
}
