/** Releasing the FFmpeg objects: `cleanup` walks lists of guard chains.  A chain names the
    addresses of pointer variables, outermost first; the last pointer is released when
    every pointer on the chain is non-null, and is then set to null.

    Memory is a set of live blocks and the non-null pointers stored in slots.  A slot is
    either a variable of a caller or a field inside a block, so it can be read only while
    that block is live.  Reads and releases that would go wrong are recorded as faults,
    which lets the theorems say when there are none. */
module Cleanup {

  import opened Bytes

  type Block = nat

  datatype Slot = Variable(name: string) | Field(block: Block, name: string)

  datatype Kind = Nothing | Packet | Context | Frame | Parser | Data

  datatype Link = Link(kind: Kind, slot: Slot)

  type Chain = seq<Link>

  datatype Fault = ReadOfFreed(slot: Slot) | DoubleFree(block: Block)

  datatype Memory = Memory(
    live: set<Block>,
    cells: map<Slot, Block>,   // the slots that are not null
    freed: seq<Block>,         // in the order of release
    faults: seq<Fault>)

  predicate Readable(m: Memory, s: Slot) {
    s.Field? ==> s.block in m.live
  }

  /** Reading one slot. */
  function Touched(m: Memory, s: Slot): Memory {
    if Readable(m, s) then m else m.(faults := m.faults + [ReadOfFreed(s)])
  }

  /** Reading the first `k` slots of a chain. */
  function Walked(m: Memory, chain: Chain, k: nat): Memory
    requires k <= |chain|
  {
    if k == 0 then m else Touched(Walked(m, chain, k - 1), chain[k - 1].slot)
  }

  predicate NonNull(m: Memory, chain: Chain) {
    forall link :: link in chain ==> link.slot in m.cells
  }

  /** How many slots the walk reads: up to and including the first null one. */
  function Reads(m: Memory, chain: Chain, from: nat := 0): (n: nat)
    requires from <= |chain|
    ensures from <= n <= |chain| && (from < |chain| ==> from < n)
    ensures forall k :: from <= k < n - 1 ==> chain[k].slot in m.cells
    ensures n > from && n < |chain| ==> chain[n - 1].slot !in m.cells
    decreases |chain| - from
  {
    if from == |chain| then from
    else if chain[from].slot !in m.cells then from + 1
    else Reads(m, chain, from + 1)
  }

  function Last(chain: Chain): Slot
    requires chain != []
  {
    chain[|chain| - 1].slot
  }

  predicate Releases(m: Memory, chain: Chain) {
    chain != [] && NonNull(m, chain) && chain[|chain| - 1].kind != Nothing
  }

  /** Releasing the block in slot `s` and setting `s` to null. */
  function Released(m: Memory, s: Slot): Memory
    requires s in m.cells
  {
    var b := m.cells[s];
    Memory(m.live - {b}, m.cells - {s}, m.freed + [b],
           if b in m.live then m.faults else m.faults + [DoubleFree(b)])
  }

  /** Overwriting slot `s` with a null pointer, or with a pointer to a new block. */
  function Stored(m: Memory, s: Slot, b: Option<Block>): Memory {
    match b
    case None => m.(cells := m.cells - {s})
    case Some(b) => m.(live := m.live + {b}, cells := m.cells[s := b])
  }

  /** Making slot `s` point to a block that is there already. */
  function Aimed(m: Memory, s: Slot, b: Block): Memory {
    m.(cells := m.cells[s := b])
  }

  function CleanedOne(m: Memory, chain: Chain): Memory {
    var walked := Walked(m, chain, Reads(m, chain));
    WalkKeeps(m, chain, Reads(m, chain));
    if Releases(m, chain) then Released(walked, Last(chain)) else walked
  }

  /** The memory after the first `n` chains. */
  function Cleaned(m: Memory, chains: seq<Chain>, n: nat): Memory
    requires n <= |chains|
  {
    if n == 0 then m else CleanedOne(Cleaned(m, chains, n - 1), chains[n - 1])
  }

  lemma {:induction false} WalkKeeps(m: Memory, chain: Chain, k: nat)
    requires k <= |chain|
    ensures var w := Walked(m, chain, k);
            w.live == m.live && w.cells == m.cells && w.freed == m.freed
  {
    if k > 0 {
      WalkKeeps(m, chain, k - 1);
    }
  }

  class Heap {
    var live: set<Block>
    var cells: map<Slot, Block>
    var freed: seq<Block>
    var faults: seq<Fault>

    function View(): Memory
      reads this
    {
      Memory(live, cells, freed, faults)
    }

    method IsNull(s: Slot) returns (isNull: bool)
      modifies this`faults
      ensures View() == Touched(old(View()), s)
      ensures isNull <==> s !in cells
    {
      if s.Field? && s.block !in live {
        faults := faults + [ReadOfFreed(s)];
      }
      isNull := s !in cells;
    }

    method Release(s: Slot)
      requires s in cells
      modifies this
      ensures View() == Released(old(View()), s)
    {
      var b := cells[s];
      if b !in live {
        faults := faults + [DoubleFree(b)];
      }
      live := live - {b};
      freed := freed + [b];
      cells := cells - {s};
    }

    method Cleanup(chains: seq<Chain>)
      modifies this
      ensures View() == Cleaned(old(View()), chains, |chains|)
    {
      for t := 0 to |chains|
        invariant View() == Cleaned(old(View()), chains, t)
      {
        ghost var m := View();
        var i := chains[t];
        var flag, check := true, false;
        var j := Link(Nothing, Variable(""));
        var k := 0;
        while k < |i| && flag
          invariant k <= |i|
          invariant View() == Walked(m, i, k)
          invariant cells == m.cells
          invariant check <==> k > 0
          invariant k > 0 ==> j == i[k - 1]
          invariant forall l :: 0 <= l < k - 1 ==> i[l].slot in m.cells
          invariant k > 0 ==> (flag <==> i[k - 1].slot in m.cells)
          invariant k == 0 ==> flag
        {
          check := true;
          j := i[k];
          var isNull := IsNull(j.slot);
          flag := flag && !isNull;
          k := k + 1;
        }
        ReadsIs(m, i, k);
        WalkKeeps(m, i, k);
        if flag && check && j.kind != Nothing {
          Release(j.slot);
        }
      }
    }

    /** Stores a null pointer, or a pointer to a new block; what the slot held is not freed. */
    method Store(s: Slot, b: Option<Block>)
      modifies this`live, this`cells
      ensures View() == Stored(old(View()), s, b)
    {
      match b {
        case None => cells := cells - {s};
        case Some(new_) =>
          live := live + {new_};
          cells := cells[s := new_];
      }
    }

    method Aim(s: Slot, b: Block)
      modifies this`cells
      ensures View() == Aimed(old(View()), s, b)
    {
      cells := cells[s := b];
    }

    /** The scope guard around every entry point: cleanup runs only on the error result. */
    method Finally(ret: int, chains: seq<Chain>)
      modifies this
      ensures View() == if ret == -1 then Cleaned(old(View()), chains, |chains|) else old(View())
    {
      if ret == -1 {
        Cleanup(chains);
      }
    }
  }

  lemma ReadsIs(m: Memory, chain: Chain, k: nat)
    requires k <= |chain|
    requires forall l :: 0 <= l < k - 1 ==> chain[l].slot in m.cells
    requires k == |chain| || (k > 0 && chain[k - 1].slot !in m.cells)
    ensures Reads(m, chain) == k
  {
    var n := Reads(m, chain);
  }

  // ---------------------------------------------------------------- which chains fire

  /** Chain `t` releases its block exactly when every pointer on it was non-null to begin
      with and no earlier chain that released has since cleared one of them. */
  ghost predicate Fires(m: Memory, chains: seq<Chain>, t: nat)
    requires t < |chains|
    decreases t
  {
    Releases(m, chains[t]) &&
    forall i: nat | i < t :: Fires(m, chains, i) ==> !Names(chains[t], Last(chains[i]))
  }

  predicate Names(chain: Chain, s: Slot) {
    exists k :: 0 <= k < |chain| && chain[k].slot == s
  }

  ghost function FreedBy(m: Memory, chains: seq<Chain>, n: nat): seq<Block>
    requires n <= |chains|
  {
    if n == 0 then []
    else FreedBy(m, chains, n - 1) +
         (if Fires(m, chains, n - 1) then [m.cells[Last(chains[n - 1])]] else [])
  }

  ghost predicate Cleared(m: Memory, chains: seq<Chain>, n: nat, s: Slot)
    requires n <= |chains|
  {
    exists i: nat :: i < n && Fires(m, chains, i) && Last(chains[i]) == s
  }

  /** `w` is `m` with the firing chains' slots null, their blocks gone, and the rest kept. */
  ghost predicate Exactly(m: Memory, chains: seq<Chain>, n: nat, w: Memory)
    requires n <= |chains|
  {
    w.freed == m.freed + FreedBy(m, chains, n) &&
    (forall b :: b in w.live <==> b in m.live && b !in FreedBy(m, chains, n)) &&
    (forall s :: s in w.cells <==> s in m.cells && !Cleared(m, chains, n, s)) &&
    (forall s :: s in w.cells ==> w.cells[s] == m.cells[s])
  }

  lemma {:induction false} CleanupIsExact(m: Memory, chains: seq<Chain>, n: nat)
    requires n <= |chains|
    ensures Exactly(m, chains, n, Cleaned(m, chains, n))
  {
    hide CleanedOne;
    if n > 0 {
      CleanupIsExact(m, chains, n - 1);
      ExactlyStep(m, chains, n - 1, Cleaned(m, chains, n - 1));
    }
  }

  lemma ExactlyStep(m: Memory, chains: seq<Chain>, t: nat, w: Memory)
    requires t < |chains| && Exactly(m, chains, t, w)
    ensures Exactly(m, chains, t + 1, CleanedOne(w, chains[t]))
  {
    hide Fires, Walked, Reads;
    var chain := chains[t];
    WalkKeeps(w, chain, Reads(w, chain));
    FiresWhenReleased(m, chains, t, w);
    forall s
      ensures Cleared(m, chains, t + 1, s) <==>
              Cleared(m, chains, t, s) || (Fires(m, chains, t) && Last(chain) == s)
    {
    }
    if Releases(w, chain) {
      assert chain[|chain| - 1] in chain;
    }
  }

  lemma FiresWhenReleased(m: Memory, chains: seq<Chain>, t: nat, w: Memory)
    requires t < |chains|
    requires forall s :: s in w.cells <==> s in m.cells && !Cleared(m, chains, t, s)
    ensures Releases(w, chains[t]) <==> Fires(m, chains, t)
  {
    var chain := chains[t];
    if Releases(w, chain) {
      assert forall k :: 0 <= k < |chain| ==> chain[k] in chain;
      forall i: nat | i < t && Fires(m, chains, i)
        ensures !Names(chain, Last(chains[i]))
      {
        assert Cleared(m, chains, t, Last(chains[i]));
      }
    }
    if Fires(m, chains, t) {
      forall link | link in chain
        ensures link.slot in w.cells
      {
        var k :| 0 <= k < |chain| && chain[k] == link;
        assert !Cleared(m, chains, t, link.slot);
      }
    }
  }

  // ---------------------------------------------------------------- safety

  predicate Stores(m: Memory, s: Slot) {
    s in m.cells && Readable(m, s)
  }

  /** Every pointer that can be read is the only one to a live block.  Slots inside blocks that
      were released may still hold anything. */
  ghost predicate Owned(m: Memory) {
    (forall s :: Stores(m, s) ==> m.cells[s] in m.live) &&
    (forall s, r :: Stores(m, s) && Stores(m, r) && m.cells[s] == m.cells[r] ==> s == r)
  }

  /** No chain ends in a pointer to `b`. */
  ghost predicate Spared(m: Memory, chains: seq<Chain>, b: Block) {
    b in m.live &&
    forall chain :: chain in chains && chain != [] && Last(chain) in m.cells ==> m.cells[Last(chain)] != b
  }

  /** Ancestors are named before descendants: a field is listed only after the pointer to
      its block, or after a null pointer, or in a block that no chain releases. */
  ghost predicate Guarded(m: Memory, chains: seq<Chain>, chain: Chain) {
    forall k :: 0 <= k < |chain| && chain[k].slot.Field? ==>
      Spared(m, chains, chain[k].slot.block) ||
      exists j :: 0 <= j < k &&
        (chain[j].slot !in m.cells || m.cells[chain[j].slot] == chain[k].slot.block)
  }

  ghost predicate AllGuarded(m: Memory, chains: seq<Chain>) {
    forall chain :: chain in chains ==> Guarded(m, chains, chain)
  }

  /** What is left of memory `m` part-way through: whatever was freed lost its pointer. */
  ghost predicate Partly(m: Memory, chains: seq<Chain>, w: Memory) {
    w.faults == m.faults &&
    (forall s :: s in w.cells ==> s in m.cells && w.cells[s] == m.cells[s]) &&
    w.live <= m.live &&
    (forall b :: b in m.live && Spared(m, chains, b) ==> b in w.live) &&
    (forall s :: s in w.cells && Readable(m, s) ==> w.cells[s] in w.live)
  }

  /** No use after free and no double free: with single ownership and guarded chains,
      cleanup adds no fault. */
  lemma {:induction false} NoFaults(m: Memory, chains: seq<Chain>, n: nat)
    requires Owned(m) && AllGuarded(m, chains) && n <= |chains|
    ensures Partly(m, chains, Cleaned(m, chains, n))
    ensures Cleaned(m, chains, n).faults == m.faults
  {
    if n > 0 {
      NoFaults(m, chains, n - 1);
      var w, chain := Cleaned(m, chains, n - 1), chains[n - 1];
      assert chain in chains;
      WalkIsSafe(m, chains, w, chain, Reads(w, chain));
      WalkKeeps(w, chain, Reads(w, chain));
      if Releases(w, chain) {
        assert chain[|chain| - 1] in chain;
        assert Last(chain) in m.cells && m.cells[Last(chain)] == w.cells[Last(chain)];
      }
    }
  }

  lemma {:induction false} WalkIsSafe(m: Memory, chains: seq<Chain>, w: Memory, chain: Chain, k: nat)
    requires Owned(m) && Guarded(m, chains, chain) && Partly(m, chains, w)
    requires k <= |chain| && forall l :: 0 <= l < k - 1 ==> chain[l].slot in w.cells
    ensures Walked(w, chain, k).faults == w.faults
    ensures forall l :: 0 <= l < k ==> Readable(w, chain[l].slot)
  {
    if k > 0 {
      WalkIsSafe(m, chains, w, chain, k - 1);
      WalkKeeps(w, chain, k - 1);
    }
  }

  // ---------------------------------------------------------------- completeness

  /** No chain clears a pointer that a later chain still needs. */
  ghost predicate DescendantsFirst(chains: seq<Chain>) {
    forall i, t :: 0 <= i < t < |chains| && chains[i] != [] ==> !Names(chains[t], Last(chains[i]))
  }

  lemma CompleteIsReadable(m: Memory, chains: seq<Chain>, chain: Chain)
    requires Owned(m) && Guarded(m, chains, chain) && NonNull(m, chain)
    ensures forall l :: 0 <= l < |chain| ==> Stores(m, chain[l].slot)
  {
    assert forall l :: 0 <= l < |chain| ==> chain[l] in chain;
    WalkIsSafe(m, chains, m, chain, |chain|);
  }

  /** With descendants first, every chain that is complete at the start releases its block,
      and a block goes before the block that holds the pointer to it. */
  lemma DescendantsFirstFreesAll(m: Memory, chains: seq<Chain>)
    requires Owned(m) && AllGuarded(m, chains) && DescendantsFirst(chains)
    ensures forall t: nat | t < |chains| :: Fires(m, chains, t) <==> Releases(m, chains[t])
    ensures forall i: nat, t: nat | i < t < |chains| && Fires(m, chains, i) && Fires(m, chains, t) ::
              Last(chains[t]).Field? ==> Last(chains[t]).block != m.cells[Last(chains[i])]
  {
    forall i: nat, t: nat | i < t < |chains| && Fires(m, chains, i) && Fires(m, chains, t)
      ensures Last(chains[t]).Field? ==> Last(chains[t]).block != m.cells[Last(chains[i])]
    {
      var parent, chain := chains[i], chains[t];
      assert parent in chains && chain in chains && parent[|parent| - 1] in parent;
      CompleteIsReadable(m, chains, parent);
      CompleteIsReadable(m, chains, chain);
      assert !Spared(m, chains, m.cells[Last(parent)]);
      assert forall j :: 0 <= j < |chain| ==> chain[j].slot != Last(parent);
      assert forall j :: 0 <= j < |chain| ==> m.cells[chain[j].slot] != m.cells[Last(parent)];
    }
  }

  // ---------------------------------------------------------------- the entry points

  /** The options object `opt`, reached through one variable, and its codec context `ctx`. */
  ghost predicate Opened(m: Memory, opt: Block, ctx: Block) {
    Owned(m) &&
    Variable("opt") in m.cells && m.cells[Variable("opt")] == opt &&
    opt in m.live && ctx in m.live &&
    Field(opt, "ctx") in m.cells && m.cells[Field(opt, "ctx")] == ctx
  }

  function ToOpt(opt: Block): Chain {
    [Link(Data, Variable("opt")), Link(Data, Field(opt, "ctx"))]
  }

  function ToMember(opt: Block, ctx: Block, kind: Kind, name: string): Chain {
    ToOpt(opt) + [Link(kind, Field(ctx, name))]
  }

  /** The chains every run-time entry point starts from. */
  function ToCleanup(opt: Block, ctx: Block): (chains: seq<Chain>)
    ensures |chains| == 4
  {
    [ToMember(opt, ctx, Packet, "packet"), ToMember(opt, ctx, Context, "context"),
     ToMember(opt, ctx, Frame, "yuv_frame"), ToMember(opt, ctx, Frame, "rgb_frame")]
  }

  function FiniChains(opt: Block, ctx: Block): (chains: seq<Chain>)
    ensures |chains| == 6
  {
    ToCleanup(opt, ctx) + [ToMember(opt, ctx, Parser, "parser"), ToOpt(opt)]
  }

  /** The chains of a failed encode or decode: the output buffer and the context. */
  function CodingChains(opt: Block, ctx: Block): (chains: seq<Chain>)
    ensures |chains| == 6
  {
    ToCleanup(opt, ctx) + [[Link(Data, Variable("data_out"))], ToOpt(opt)]
  }

  /** The chains of a failed initialisation, in the order it builds them. */
  function InitChains(opt: Block, ctx: Block): (chains: seq<Chain>)
    ensures |chains| == 3
  {
    [ToOpt(opt),
     [Link(Data, Field(opt, "ctx")), Link(Packet, Field(ctx, "packet"))],
     [Link(Data, Field(opt, "ctx")), Link(Frame, Field(ctx, "yuv_frame"))]]
  }

  function Held(m: Memory, s: Slot): seq<Block> {
    if s in m.cells then [m.cells[s]] else []
  }

  /** The packet, codec context and frames, in the order of their chains. */
  function HeldMembers(m: Memory, ctx: Block): seq<Block> {
    Held(m, Field(ctx, "packet")) + Held(m, Field(ctx, "context")) +
    Held(m, Field(ctx, "yuv_frame")) + Held(m, Field(ctx, "rgb_frame"))
  }

  lemma OnlyHeldOnce(m: Memory, ctx: Block, s: Slot)
    requires Owned(m) && ctx in m.live && Stores(m, s)
    requires s !in {Field(ctx, "packet"), Field(ctx, "context"), Field(ctx, "yuv_frame"), Field(ctx, "rgb_frame")}
    ensures m.cells[s] !in HeldMembers(m, ctx)
  {
  }

  /** A live block that nothing readable points to any more. */
  ghost predicate Leaked(w: Memory, b: Block) {
    b in w.live && forall s :: Stores(w, s) ==> w.cells[s] != b
  }

  /** The blocks of the complete chains among the first `n`, in order. */
  ghost function CompleteBlocks(m: Memory, chains: seq<Chain>, n: nat): seq<Block>
    requires n <= |chains|
  {
    if n == 0 then []
    else CompleteBlocks(m, chains, n - 1) +
         (if Releases(m, chains[n - 1]) then [m.cells[Last(chains[n - 1])]] else [])
  }

  lemma {:induction false} DescendantsFirstIsComplete(m: Memory, chains: seq<Chain>, n: nat)
    requires DescendantsFirst(chains) && n <= |chains|
    ensures FreedBy(m, chains, n) == CompleteBlocks(m, chains, n)
  {
    if n > 0 {
      DescendantsFirstIsComplete(m, chains, n - 1);
      FiresIffComplete(m, chains, n - 1);
    }
  }

  lemma FiresIffComplete(m: Memory, chains: seq<Chain>, t: nat)
    requires DescendantsFirst(chains) && t < |chains|
    ensures Fires(m, chains, t) <==> Releases(m, chains[t])
  {
  }

  lemma MemberChain(m: Memory, opt: Block, ctx: Block, kind: Kind, name: string)
    requires Opened(m, opt, ctx) && kind != Nothing
    ensures Releases(m, ToMember(opt, ctx, kind, name)) <==> Field(ctx, name) in m.cells
    ensures Last(ToMember(opt, ctx, kind, name)) == Field(ctx, name)
    ensures Releases(m, ToOpt(opt))
  {
    var chain := ToMember(opt, ctx, kind, name);
    assert chain == [Link(Data, Variable("opt")), Link(Data, Field(opt, "ctx")), Link(kind, Field(ctx, name))];
    assert chain[2] in chain;
  }

  /** The chains the entry points build: from the options to the context or one member. */
  ghost predicate Standard(opt: Block, ctx: Block, chain: Chain) {
    chain == ToOpt(opt) || chain == [Link(Data, Variable("data_out"))] ||
    chain == [Link(Data, Variable("frame_buffer_out"))] ||
    (exists kind, name :: chain == ToMember(opt, ctx, kind, name)) ||
    (exists kind, name :: chain == [Link(Data, Field(opt, "ctx")), Link(kind, Field(ctx, name))])
  }

  lemma StandardIsGuarded(m: Memory, opt: Block, ctx: Block, chains: seq<Chain>)
    requires Opened(m, opt, ctx) && forall chain :: chain in chains ==> Standard(opt, ctx, chain)
    ensures AllGuarded(m, chains)
  {
    OptIsSpared(m, opt, ctx, chains);
    forall chain: Chain | chain in chains
      ensures Guarded(m, chains, chain)
    {
      if chain == ToOpt(opt) {
      } else if chain == [Link(Data, Variable("data_out"))] {
      } else if chain == [Link(Data, Variable("frame_buffer_out"))] {
      } else {
        assert m.cells[chain[|chain| - 2].slot] == ctx;
      }
    }
  }

  /** Finishing releases each object the context holds, then the context, and nothing else;
      no memory is touched after it is freed. */
  lemma FiniFreesTheContextLast(m: Memory, opt: Block, ctx: Block)
    requires Opened(m, opt, ctx)
    ensures var w := Cleaned(m, FiniChains(opt, ctx), 6);
            w.faults == m.faults &&
            w.freed == m.freed + (HeldMembers(m, ctx) + Held(m, Field(ctx, "parser")) + [ctx]) &&
            Field(opt, "ctx") !in w.cells && opt in w.live
  {
    hide Cleaned, FreedBy, CompleteBlocks, AllGuarded, HeldMembers, Standard, DescendantsFirst;
    var chains := FiniChains(opt, ctx);
    FiniIsStandard(opt, ctx);
    StandardIsGuarded(m, opt, ctx, chains);
    FiniIsOrdered(opt, ctx);
    NoFaults(m, chains, 6);
    CleanupIsExact(m, chains, 6);
    DescendantsFirstIsComplete(m, chains, 6);
    FiniBlocks(m, opt, ctx);
    FiresIffComplete(m, chains, 5);
    MemberChain(m, opt, ctx, Parser, "parser");
    assert Cleared(m, chains, 6, Field(opt, "ctx"));
    OptIsSpared(m, opt, ctx, chains);
  }

  lemma OptIsSpared(m: Memory, opt: Block, ctx: Block, chains: seq<Chain>)
    requires Opened(m, opt, ctx) && forall chain :: chain in chains ==> Standard(opt, ctx, chain)
    ensures Spared(m, chains, opt)
  {
    forall chain: Chain | chain in chains
      ensures Last(chain) != Variable("opt") && Readable(m, Last(chain))
    {
    }
  }

  lemma FiniIsOrdered(opt: Block, ctx: Block)
    ensures DescendantsFirst(FiniChains(opt, ctx))
  {
  }

  /** A failed initialisation releases the context first, so the later chains stop at the
      null pointer: whatever the context held is leaked, though nothing is misused. */
  lemma InitFailureLeaks(m: Memory, opt: Block, ctx: Block, name: string)
    requires Opened(m, opt, ctx) && Field(ctx, name) in m.cells
    ensures var w := Cleaned(m, InitChains(opt, ctx), 3);
            w.faults == m.faults && w.freed == m.freed + [ctx] && Leaked(w, m.cells[Field(ctx, name)])
  {
    var chains := InitChains(opt, ctx);
    assert chains[1] == [Link(Data, Field(opt, "ctx")), Link(Packet, Field(ctx, "packet"))];
    StandardIsGuarded(m, opt, ctx, chains);
    NoFaults(m, chains, 3);
    CleanupIsExact(m, chains, 3);
    MemberChain(m, opt, ctx, Data, name);
    assert Fires(m, chains, 0);
    assert chains[1][0].slot == Last(chains[0]) && chains[2][0].slot == Last(chains[0]);
    assert FreedBy(m, chains, 1) == [ctx];
    assert FreedBy(m, chains, 2) == [ctx];
    MemberLeaks(m, opt, ctx, name, chains, 3, Cleaned(m, chains, 3));
  }

  /** A failed encode or decode releases the frames, the output buffer and the context, but
      its chains name no parser: a decoder's parser is leaked. */
  lemma CodingFailureLeaksTheParser(m: Memory, opt: Block, ctx: Block)
    requires Opened(m, opt, ctx) && Field(ctx, "parser") in m.cells
    ensures var w := Cleaned(m, CodingChains(opt, ctx), 6);
            w.faults == m.faults &&
            w.freed == m.freed + (HeldMembers(m, ctx) + Held(m, Variable("data_out")) + [ctx]) &&
            Leaked(w, m.cells[Field(ctx, "parser")])
  {
    hide Cleaned, FreedBy, CompleteBlocks, DescendantsFirst, Fires, HeldMembers, AllGuarded, Standard;
    var chains := CodingChains(opt, ctx);
    CodingIsStandard(opt, ctx);
    StandardIsGuarded(m, opt, ctx, chains);
    CodingIsOrdered(opt, ctx);
    NoFaults(m, chains, 6);
    CleanupIsExact(m, chains, 6);
    DescendantsFirstIsComplete(m, chains, 6);
    CodingBlocks(m, opt, ctx);
    OnlyHeldOnce(m, ctx, Field(ctx, "parser"));
    MemberLeaks(m, opt, ctx, "parser", chains, 6, Cleaned(m, chains, 6));
  }

  lemma MemberLeaks(m: Memory, opt: Block, ctx: Block, name: string, chains: seq<Chain>, n: nat, w: Memory)
    requires Opened(m, opt, ctx) && Field(ctx, name) in m.cells
    requires n <= |chains| && Exactly(m, chains, n, w)
    requires ctx in FreedBy(m, chains, n) && m.cells[Field(ctx, name)] !in FreedBy(m, chains, n)
    ensures Leaked(w, m.cells[Field(ctx, name)])
  {
  }

  lemma CodingIsOrdered(opt: Block, ctx: Block)
    ensures DescendantsFirst(CodingChains(opt, ctx))
  {
  }

  /** Without a context the chains stop before reading any field of it. */
  lemma NoContextNothingFreed(m: Memory, opt: Block, ctx: Block, n: nat)
    requires Owned(m) && n <= 6
    requires Variable("opt") in m.cells && m.cells[Variable("opt")] == opt && Field(opt, "ctx") !in m.cells
    ensures Cleaned(m, FiniChains(opt, ctx), n) == m
  {
    if n > 0 {
      NoContextNothingFreed(m, opt, ctx, n - 1);
      var chain := FiniChains(opt, ctx)[n - 1];
      assert chain[0].slot == Variable("opt") && chain[1].slot == Field(opt, "ctx");
      assert chain[1] in chain;
      ReadsIs(m, chain, 2);
      assert Walked(m, chain, 1) == m;
    }
  }

  lemma FourMembers(m: Memory, opt: Block, ctx: Block, chains: seq<Chain>)
    requires Opened(m, opt, ctx) && |chains| >= 4 && chains[..4] == ToCleanup(opt, ctx)
    ensures CompleteBlocks(m, chains, 4) ==
            HeldMembers(m, ctx)
  {
    MemberChain(m, opt, ctx, Packet, "packet");
    MemberChain(m, opt, ctx, Context, "context");
    MemberChain(m, opt, ctx, Frame, "yuv_frame");
    MemberChain(m, opt, ctx, Frame, "rgb_frame");
    var four := ToCleanup(opt, ctx);
    assert chains[0] == four[0] && chains[1] == four[1] && chains[2] == four[2] && chains[3] == four[3];
    hide Releases, ToMember, ToOpt;
    assert CompleteBlocks(m, chains, 1) == Held(m, Field(ctx, "packet"));
    assert CompleteBlocks(m, chains, 2) == CompleteBlocks(m, chains, 1) + Held(m, Field(ctx, "context"));
    assert CompleteBlocks(m, chains, 3) == CompleteBlocks(m, chains, 2) + Held(m, Field(ctx, "yuv_frame"));
  }

  lemma FiniBlocks(m: Memory, opt: Block, ctx: Block)
    requires Opened(m, opt, ctx)
    ensures CompleteBlocks(m, FiniChains(opt, ctx), 6) ==
            HeldMembers(m, ctx) + Held(m, Field(ctx, "parser")) + [ctx]
  {
    var chains := FiniChains(opt, ctx);
    FourMembers(m, opt, ctx, chains);
    MemberChain(m, opt, ctx, Parser, "parser");
    hide Releases, ToMember, ToOpt;
    assert CompleteBlocks(m, chains, 5) == CompleteBlocks(m, chains, 4) + Held(m, Field(ctx, "parser"));
  }

  lemma CodingBlocks(m: Memory, opt: Block, ctx: Block)
    requires Opened(m, opt, ctx)
    ensures CompleteBlocks(m, CodingChains(opt, ctx), 6) ==
            HeldMembers(m, ctx) + Held(m, Variable("data_out")) + [ctx]
  {
    var chains := CodingChains(opt, ctx);
    FourMembers(m, opt, ctx, chains);
    MemberChain(m, opt, ctx, Parser, "parser");
    var out := [Link(Data, Variable("data_out"))];
    assert out[0] in out;
    assert Releases(m, out) <==> Variable("data_out") in m.cells;
    hide Releases, ToMember, ToOpt;
    assert CompleteBlocks(m, chains, 5) == CompleteBlocks(m, chains, 4) + Held(m, Variable("data_out"));
  }

  // ---------------------------------------------------------------- the exact outcome

  /** `w` is `m` with the slots in `slots` null and what they pointed to released. */
  ghost predicate Tidied(m: Memory, slots: set<Slot>, w: Memory) {
    w.faults == m.faults &&
    (forall s :: s in w.cells <==> s in m.cells && s !in slots) &&
    (forall s :: s in w.cells ==> w.cells[s] == m.cells[s]) &&
    (forall b :: b in w.live <==> b in m.live && forall s :: s in slots && s in m.cells ==> m.cells[s] != b)
  }

  /** Every chain that fires ends in one of `slots`, and every non-null one of them ends one. */
  ghost predicate EndsIn(m: Memory, chains: seq<Chain>, slots: set<Slot>) {
    (forall t: nat | t < |chains| && Fires(m, chains, t) :: Last(chains[t]) in slots) &&
    (forall s :: s in slots && s in m.cells ==>
      exists t: nat :: t < |chains| && Fires(m, chains, t) && Last(chains[t]) == s)
  }

  lemma {:induction false} FreedByIs(m: Memory, chains: seq<Chain>, n: nat, b: Block)
    requires n <= |chains|
    ensures b in FreedBy(m, chains, n) <==>
            exists t: nat :: t < n && Fires(m, chains, t) && m.cells[Last(chains[t])] == b
  {
    hide Fires;
    if n > 0 {
      FreedByIs(m, chains, n - 1, b);
    }
  }

  /** Cleanup releases what the chains that fire name, and clears the pointers to it; nothing
      else changes, and nothing is misused. */
  lemma TidiesUp(m: Memory, chains: seq<Chain>, slots: set<Slot>)
    requires Owned(m) && AllGuarded(m, chains) && EndsIn(m, chains, slots)
    ensures Tidied(m, slots, Cleaned(m, chains, |chains|))
  {
    hide Cleaned, AllGuarded, Owned;
    var n := |chains|;
    NoFaults(m, chains, n);
    CleanupIsExact(m, chains, n);
    hide Fires, FreedBy;
    forall b
      ensures b in FreedBy(m, chains, n) <==> exists s :: s in slots && s in m.cells && m.cells[s] == b
    {
      FreedByIs(m, chains, n, b);
    }
    forall s
      ensures s in m.cells ==> (Cleared(m, chains, n, s) <==> s in slots)
    {
    }
  }

  // ---------------------------------------------------------------- overwritten members

  /** Memory that has never been handed out: no block there, and nothing left of an old one. */
  ghost predicate Unused(m: Memory, b: Block) {
    b !in m.live && forall s :: s in m.cells && s.Field? ==> s.block != b
  }

  /** Overwriting a member with null hides its object: finishing then frees everything else
      the context holds, and that object is leaked. */
  lemma OverwrittenMemberLeaks(m: Memory, opt: Block, ctx: Block, name: string)
    requires Opened(m, opt, ctx) && Field(ctx, name) in m.cells
    ensures var rest := Stored(m, Field(ctx, name), None);
            var w := Cleaned(rest, FiniChains(opt, ctx), 6);
            Opened(rest, opt, ctx) && w.faults == m.faults &&
            w.freed == m.freed + (HeldMembers(rest, ctx) + Held(rest, Field(ctx, "parser")) + [ctx]) &&
            Leaked(w, m.cells[Field(ctx, name)])
  {
    hide Cleaned, HeldMembers, FiniChains, AllGuarded;
    var rest, chains := Stored(m, Field(ctx, name), None), FiniChains(opt, ctx);
    assert forall s :: Stores(rest, s) ==> Stores(m, s) && s != Field(ctx, name);
    FiniIsStandard(opt, ctx);
    StandardIsGuarded(rest, opt, ctx, chains);
    NoFaults(rest, chains, 6);
    FiniFreesTheContextLast(rest, opt, ctx);
    assert Spared(rest, chains, m.cells[Field(ctx, name)]);
  }

  lemma FiniIsStandard(opt: Block, ctx: Block)
    ensures forall chain :: chain in FiniChains(opt, ctx) ==> Standard(opt, ctx, chain)
  {
  }

  lemma CodingIsStandard(opt: Block, ctx: Block)
    ensures forall chain :: chain in CodingChains(opt, ctx) ==> Standard(opt, ctx, chain)
  {
  }

  /** A new block in a variable of the caller changes nothing for the context. */
  lemma StillOpened(m: Memory, opt: Block, ctx: Block, b: Block)
    requires Opened(m, opt, ctx) && Unused(m, b)
    ensures Opened(Stored(m, Variable("data_out"), Some(b)), opt, ctx)
  {
    var w := Stored(m, Variable("data_out"), Some(b));
    assert forall s :: Stores(w, s) && s != Variable("data_out") ==> Stores(m, s);
  }

  /** Nor does a pointer to a block that nobody owns. */
  lemma StillOpenedAiming(m: Memory, opt: Block, ctx: Block, b: Block)
    requires Opened(m, opt, ctx) && Leaked(m, b)
    ensures Opened(Aimed(m, Variable("data_out"), b), opt, ctx)
  {
    var w := Aimed(m, Variable("data_out"), b);
    assert forall s :: Stores(w, s) && s != Variable("data_out") ==> Stores(m, s);
  }

  lemma StillLeaked(m: Memory, b: Block, x: Block)
    requires Leaked(m, x) && Unused(m, b)
    ensures Leaked(Stored(m, Variable("data_out"), Some(b)), x)
  {
    var w := Stored(m, Variable("data_out"), Some(b));
    assert forall s :: Stores(w, s) && s != Variable("data_out") ==> Stores(m, s);
  }
}
