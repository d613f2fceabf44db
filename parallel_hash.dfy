/** The ParallelHash128 engine of src/parallel_hash.rs (section 6 of NIST SP
    800-185), as the Rust code behaves.

    The hasher's fields are an outer cSHAKE128 context, a block counter, the block
    size and at most one buffered partial leaf. `Engine` is the value of those
    fields; `Updated`, `Flushed` and `Finalized` say what `update` and `finalize`
    do to it; the class `ParallelHash` holds the same fields and its methods are
    proved to change them exactly as those functions say. The lemmas state the
    block accounting (independent of how the message is split across calls), the
    order in which leaf digests reach the outer context, what `finalize` absorbs,
    and where the code departs from the standard: a leaf completed from a buffered
    partial block is counted but its digest is never absorbed, so the outer
    context does depend on how the message is split. */
module ParallelHashing {
  import opened Utils
  import opened CShake

  /** The ASCII bytes of "ParallelHash", the function name of the outer context. */
  const FunctionName: seq<Byte> := [0x50, 0x61, 0x72, 0x61, 0x6C, 0x6C, 0x65, 0x6C, 0x48, 0x61, 0x73, 0x68]

  /** Every leaf digest is 32 bytes, whatever output length `finalize` is asked for. */
  const LeafWidth: nat := 32

  /** `IncompleteState`: the open leaf context of a partial block and how many
      bytes it holds. */
  datatype IncompleteState = IncompleteState(state: Context, absorbed: nat)

  /** The fields of a `ParallelHash`. */
  datatype Engine = Engine(state: Context, blocks: nat, blockSize: nat, hasPartialBlock: Option<IncompleteState>)

  // ---------------------------------------------------------------------------
  // Leaf digests (the closure at src/parallel_hash.rs:72-80)

  /** A leaf context: cSHAKE128 with empty function name and customization. */
  function LeafContext(): Context
  {
    Create([], [])
  }

  function LeafDigest(xof: Xof, chunk: seq<Byte>): (d: seq<Byte>)
    ensures |d| == LeafWidth
  {
    xof(Absorb(LeafContext(), chunk), LeafWidth)
  }

  /** The leaf digests of the complete `blockSize` chunks of `data`, in chunk
      order; a trailing chunk shorter than `blockSize` contributes nothing. */
  function LeafDigests(xof: Xof, data: seq<Byte>, blockSize: nat): (r: seq<Byte>)
    requires blockSize > 0
    ensures |r| == LeafWidth * (|data| / blockSize)
    decreases |data|
  {
    if |data| < blockSize then
      DivModUnique(|data|, blockSize, 0, |data|);
      []
    else
      DivStep(|data|, blockSize);
      LeafDigest(xof, data[..blockSize]) + LeafDigests(xof, data[blockSize..], blockSize)
  }

  function Flatten(chunks: seq<seq<Byte>>): seq<Byte>
  {
    if chunks == [] then [] else chunks[0] + Flatten(chunks[1..])
  }

  function ConcatLeafDigests(xof: Xof, chunks: seq<seq<Byte>>): seq<Byte>
  {
    if chunks == [] then [] else LeafDigest(xof, chunks[0]) + ConcatLeafDigests(xof, chunks[1..])
  }

  // ---------------------------------------------------------------------------
  // The engine as a value

  /** What the code relies on between calls: a positive block size, and a held
      partial leaf is a fresh leaf context that has absorbed exactly `absorbed`
      bytes, with `0 < absorbed < blockSize`. */
  predicate WellFormed(e: Engine)
  {
    && e.blockSize > 0
    && (e.hasPartialBlock.Some? ==>
          var p := e.hasPartialBlock.value;
          && 0 < p.absorbed < e.blockSize
          && p.state.functionName == [] && p.state.customization == []
          && |p.state.absorbed| == p.absorbed)
  }

  /** `new_with_custom_string(customString, blockSize)`. */
  function Initial(customString: seq<Byte>, blockSize: nat): Engine
    requires blockSize < U64_LIMIT
  {
    Engine(Absorb(Create(FunctionName, customString), LeftEncoding(blockSize)), 0, blockSize, None)
  }

  /** Lines 69-97 of `update`: the full-block loop and the trailing partial block,
      applied to the input left once no partial block is held. */
  function AbsorbFullBlocks(xof: Xof, e: Engine, rest: seq<Byte>): (r: Engine)
    requires e.blockSize > 0 && e.hasPartialBlock.None?
    ensures WellFormed(r)
    ensures r.blockSize == e.blockSize && r.blocks >= e.blocks
    ensures r.state.functionName == e.state.functionName
    ensures r.state.customization == e.state.customization
    ensures e.state.absorbed <= r.state.absorbed
  {
    ChunkSplit(|rest|, e.blockSize);
    var n := |rest| / e.blockSize;
    var inputEnd := rest[n * e.blockSize..];
    e.(state := Absorb(e.state, LeafDigests(xof, rest, e.blockSize)),
       blocks := e.blocks + n,
       hasPartialBlock :=
         if |inputEnd| == 0 then None
         else Some(IncompleteState(Absorb(LeafContext(), inputEnd), |inputEnd|)))
  }

  /** `update(input)`. When the input completes a buffered partial block, the block
      is counted but its digest is not absorbed into the outer context. */
  function Updated(xof: Xof, e: Engine, input: seq<Byte>): (r: Engine)
    requires WellFormed(e)
    ensures WellFormed(r)
    ensures r.blockSize == e.blockSize && r.blocks >= e.blocks
    ensures r.state.functionName == e.state.functionName
    ensures r.state.customization == e.state.customization
    ensures e.state.absorbed <= r.state.absorbed
  {
    match e.hasPartialBlock
    case Some(partial) =>
      var toAbsorb := e.blockSize - partial.absorbed;
      if |input| >= toAbsorb then
        AbsorbFullBlocks(xof, e.(blocks := e.blocks + 1, hasPartialBlock := None), input[toAbsorb..])
      else
        e.(hasPartialBlock := Some(IncompleteState(Absorb(partial.state, input), partial.absorbed + |input|)))
    case None =>
      AbsorbFullBlocks(xof, e, input)
  }

  /** A sequence of `update` calls. */
  function Fed(xof: Xof, e: Engine, inputs: seq<seq<Byte>>): (r: Engine)
    requires WellFormed(e)
    ensures WellFormed(r)
    ensures r.blockSize == e.blockSize && r.blocks >= e.blocks
    ensures r.state.functionName == e.state.functionName
    ensures r.state.customization == e.state.customization
    ensures e.state.absorbed <= r.state.absorbed
    decreases |inputs|
  {
    if inputs == [] then e else Fed(xof, Updated(xof, e, inputs[0]), inputs[1..])
  }

  /** Lines 102-109 of `finalize`: a held partial leaf is squeezed, its digest
      absorbed and the block counted. */
  function Flushed(xof: Xof, e: Engine): (r: Engine)
    requires WellFormed(e)
    ensures r.hasPartialBlock.None? && r.blockSize == e.blockSize
    ensures r.blocks == e.blocks + (if e.hasPartialBlock.Some? then 1 else 0)
    ensures r.state.functionName == e.state.functionName
    ensures r.state.customization == e.state.customization
    ensures e.state.absorbed <= r.state.absorbed
  {
    match e.hasPartialBlock
    case None => e
    case Some(partial) =>
      e.(state := Absorb(e.state, xof(partial.state, LeafWidth)),
         blocks := e.blocks + 1,
         hasPartialBlock := None)
  }

  /** The outer context just before `finalize` squeezes it. */
  function FinalContext(xof: Xof, e: Engine, outputLen: nat): Context
    requires WellFormed(e) && e.blocks + 1 < U64_LIMIT && 8 * outputLen < U64_LIMIT
  {
    var f := Flushed(xof, e);
    Absorb(Absorb(f.state, RightEncoding(f.blocks)), RightEncoding(8 * outputLen))
  }

  /** The bytes `finalize` writes into an output buffer of `outputLen` bytes. */
  function Finalized(xof: Xof, e: Engine, outputLen: nat): (out: seq<Byte>)
    requires WellFormed(e) && e.blocks + 1 < U64_LIMIT && 8 * outputLen < U64_LIMIT
    ensures |out| == outputLen
  {
    xof(FinalContext(xof, e, outputLen), outputLen)
  }

  /** The engine has consumed `msg`: it has counted every complete block of it,
      and it holds a partial leaf exactly when a tail shorter than a block is
      left, that leaf having absorbed exactly that tail. */
  ghost predicate Accounts(e: Engine, msg: seq<Byte>)
  {
    && WellFormed(e)
    && var tail := |msg| % e.blockSize;
    && e.blocks == |msg| / e.blockSize
    && (e.hasPartialBlock.Some? <==> tail != 0)
    && (e.hasPartialBlock.Some? ==>
          e.hasPartialBlock.value == IncompleteState(Absorb(LeafContext(), msg[|msg| - tail..]), tail))
  }

  // ---------------------------------------------------------------------------
  // Arithmetic helpers

  lemma DivModUnique(n: int, b: int, q: int, r: int)
    requires 0 < b && 0 <= r < b && n == q * b + r
    ensures n / b == q && n % b == r
  {
    var q0, r0 := n / b, n % b;
    assert n == q0 * b + r0;
    if q > q0 {
      MulAtLeast(q - q0, b);
    } else if q < q0 {
      MulAtLeast(q0 - q, b);
    }
  }

  /** The complete chunks of `len` bytes fill a prefix, and what is left is
      shorter than a chunk. */
  lemma ChunkSplit(len: nat, bs: nat)
    requires bs > 0
    ensures 0 <= (len / bs) * bs <= len && len - (len / bs) * bs == len % bs < bs
  {
    assert len == (len / bs) * bs + len % bs;
  }

  lemma MulAtLeast(x: int, b: int)
    requires x >= 1 && b > 0
    ensures x * b >= b
  {
  }

  lemma DivStep(n: int, b: int)
    requires 0 < b <= n
    ensures (n - b) / b == n / b - 1 && (n - b) % b == n % b
  {
    DivModUnique(n, b, (n - b) / b + 1, (n - b) % b);
  }

  // ---------------------------------------------------------------------------
  // Leaf digests reach the outer context one per chunk, in chunk order

  /** The leaf digests of complete chunks followed by a shorter tail are the
      chunks' own digests, in order, and the tail contributes none. */
  lemma {:induction false} LeafDigestsInOrder(xof: Xof, chunks: seq<seq<Byte>>, tail: seq<Byte>, blockSize: nat)
    requires blockSize > 0 && |tail| < blockSize
    requires forall i :: 0 <= i < |chunks| ==> |chunks[i]| == blockSize
    ensures LeafDigests(xof, Flatten(chunks) + tail, blockSize) == ConcatLeafDigests(xof, chunks)
  {
    if chunks != [] {
      LeafDigestsInOrder(xof, chunks[1..], tail, blockSize);
      var data := Flatten(chunks) + tail;
      assert data == chunks[0] + (Flatten(chunks[1..]) + tail);
      assert data[..blockSize] == chunks[0];
      assert data[blockSize..] == Flatten(chunks[1..]) + tail;
    }
  }

  /** A tail shorter than a block after whole blocks adds no leaf digest. */
  lemma {:induction false} LeafDigestsIgnoreTail(xof: Xof, blocks: seq<Byte>, tail: seq<Byte>, blockSize: nat)
    requires blockSize > 0 && |blocks| % blockSize == 0 && |tail| < blockSize
    ensures LeafDigests(xof, blocks + tail, blockSize) == LeafDigests(xof, blocks, blockSize)
    decreases |blocks|
  {
    if |blocks| == 0 {
      assert blocks + tail == tail;
    } else {
      if |blocks| < blockSize {
        DivModUnique(|blocks|, blockSize, 0, |blocks|);
      }
      DivStep(|blocks|, blockSize);
      LeafDigestsIgnoreTail(xof, blocks[blockSize..], tail, blockSize);
      assert (blocks + tail)[..blockSize] == blocks[..blockSize];
      assert (blocks + tail)[blockSize..] == blocks[blockSize..] + tail;
    }
  }

  // ---------------------------------------------------------------------------
  // Block accounting

  lemma InitialAccounts(customString: seq<Byte>, blockSize: nat)
    requires 0 < blockSize < U64_LIMIT
    ensures Accounts(Initial(customString, blockSize), [])
  {
    DivModUnique(0, blockSize, 0, 0);
  }

  /** `update` keeps the accounts: after consuming `input` as well, the engine has
      counted every complete block of the longer message and buffers its tail. */
  lemma UpdatedAccounts(xof: Xof, e: Engine, msg: seq<Byte>, input: seq<Byte>)
    requires Accounts(e, msg)
    ensures Accounts(Updated(xof, e, input), msg + input)
  {
    if e.hasPartialBlock.None? {
      FullBlocksAccounts(xof, e, msg, input);
    } else if |input| >= e.blockSize - e.hasPartialBlock.value.absorbed {
      var toAbsorb := e.blockSize - e.hasPartialBlock.value.absorbed;
      var m := msg + input[..toAbsorb];
      var q := |msg| / e.blockSize;
      assert |msg| == q * e.blockSize + |msg| % e.blockSize;
      assert |m| == (q + 1) * e.blockSize;
      DivModUnique(|m|, e.blockSize, q + 1, 0);
      FullBlocksAccounts(xof, e.(blocks := e.blocks + 1, hasPartialBlock := None), m, input[toAbsorb..]);
      assert m + input[toAbsorb..] == msg + input;
    } else {
      PartialGrowsAccounts(xof, e, msg, input);
    }
  }

  /** Without a held partial block, `update` counts the complete blocks of the
      input and buffers its tail. */
  lemma FullBlocksAccounts(xof: Xof, e: Engine, msg: seq<Byte>, rest: seq<Byte>)
    requires Accounts(e, msg) && e.hasPartialBlock.None?
    ensures Accounts(AbsorbFullBlocks(xof, e, rest), msg + rest)
  {
    var bs := e.blockSize;
    var m := msg + rest;
    var q := |msg| / bs;
    assert |msg| == q * bs;
    var n, k := |rest| / bs, |rest| % bs;
    assert |rest| == n * bs + k;
    assert (q + n) * bs == q * bs + n * bs;
    DivModUnique(|m|, bs, q + n, k);
    var r := AbsorbFullBlocks(xof, e, rest);
    var inputEnd := rest[n * bs..];
    assert |inputEnd| == k;
    assert r.blocks == |m| / bs;
    assert r.hasPartialBlock == if k == 0 then None else Some(IncompleteState(Absorb(LeafContext(), inputEnd), k));
    assert m[|m| - k..] == inputEnd;
  }

  /** Input too short to complete the held partial block is absorbed into it. */
  lemma PartialGrowsAccounts(xof: Xof, e: Engine, msg: seq<Byte>, input: seq<Byte>)
    requires Accounts(e, msg) && e.hasPartialBlock.Some?
    requires |input| < e.blockSize - e.hasPartialBlock.value.absorbed
    ensures Accounts(Updated(xof, e, input), msg + input)
  {
    var bs := e.blockSize;
    var m := msg + input;
    var q, t := |msg| / bs, |msg| % bs;
    assert |msg| == q * bs + t;
    DivModUnique(|m|, bs, q, t + |input|);
    AbsorbTwice(LeafContext(), msg[|msg| - t..], input);
    assert m[|m| - (t + |input|)..] == msg[|msg| - t..] + input;
  }

  lemma {:induction false} FedAccounts(xof: Xof, e: Engine, msg: seq<Byte>, inputs: seq<seq<Byte>>)
    requires Accounts(e, msg)
    ensures Accounts(Fed(xof, e, inputs), msg + Flatten(inputs))
    decreases |inputs|
  {
    if inputs == [] {
      assert msg + Flatten(inputs) == msg;
    } else {
      UpdatedAccounts(xof, e, msg, inputs[0]);
      FedAccounts(xof, Updated(xof, e, inputs[0]), msg + inputs[0], inputs[1..]);
      assert msg + inputs[0] + Flatten(inputs[1..]) == msg + Flatten(inputs);
    }
  }

  /** After any sequence of updates delivering `T` bytes in all: `blocks` is
      `T / blockSize`; a partial block is held exactly when `T % blockSize != 0`,
      and then it holds the last `T % blockSize` bytes of the message. */
  lemma BlockAccounting(xof: Xof, customString: seq<Byte>, blockSize: nat, inputs: seq<seq<Byte>>)
    requires 0 < blockSize < U64_LIMIT
    ensures var e, msg := Fed(xof, Initial(customString, blockSize), inputs), Flatten(inputs);
      var tail := |msg| % blockSize;
      && e.blocks == |msg| / blockSize
      && (e.hasPartialBlock.Some? <==> tail != 0)
      && (e.hasPartialBlock.Some? ==>
            && e.hasPartialBlock.value.absorbed == tail
            && e.hasPartialBlock.value.state == Absorb(LeafContext(), msg[|msg| - tail..]))
  {
    FedAccounts(xof, Initial(customString, blockSize), [], inputs);
    assert [] + Flatten(inputs) == Flatten(inputs);
  }

  /** The block counter and the buffered partial leaf do not depend on how the
      message was split across `update` calls. */
  lemma SplitIndependentAccounting(xof: Xof, customString: seq<Byte>, blockSize: nat,
                                   inputs1: seq<seq<Byte>>, inputs2: seq<seq<Byte>>)
    requires 0 < blockSize < U64_LIMIT
    requires Flatten(inputs1) == Flatten(inputs2)
    ensures var e1, e2 := Fed(xof, Initial(customString, blockSize), inputs1),
                          Fed(xof, Initial(customString, blockSize), inputs2);
      e1.blocks == e2.blocks && e1.hasPartialBlock == e2.hasPartialBlock
  {
    BlockAccounting(xof, customString, blockSize, inputs1);
    BlockAccounting(xof, customString, blockSize, inputs2);
  }

  /** `update` with an empty input changes nothing. */
  lemma EmptyUpdate(xof: Xof, e: Engine)
    requires WellFormed(e)
    ensures Updated(xof, e, []) == e
  {
    assert e.state.absorbed + [] == e.state.absorbed;
    if e.hasPartialBlock.Some? {
      var p := e.hasPartialBlock.value;
      assert p.state.absorbed + [] == p.state.absorbed;
    }
  }

  /** What the full-block loop leaves: the digests of the complete chunks
      absorbed, one block counted per chunk, and a partial leaf exactly when a
      tail remains. */
  lemma FullBlocksShape(xof: Xof, e: Engine, rest: seq<Byte>)
    requires e.blockSize > 0 && e.hasPartialBlock.None?
    ensures var r := AbsorbFullBlocks(xof, e, rest);
      && r.state == Absorb(e.state, LeafDigests(xof, rest, e.blockSize))
      && r.blocks == e.blocks + |rest| / e.blockSize
      && (r.hasPartialBlock.None? <==> |rest| % e.blockSize == 0)
  {
    var bs, n := e.blockSize, |rest| / e.blockSize;
    ChunkSplit(|rest|, bs);
    var inputEnd := rest[n * bs..];
    assert AbsorbFullBlocks(xof, e, rest).hasPartialBlock.None? <==> |inputEnd| == 0;
  }

  /** The departure at src/parallel_hash.rs:55-58: input that completes a
      buffered partial block counts that block and drops the partial leaf, but
      its digest is never absorbed. The outer context gains only the digests of
      the complete chunks after it, and stays as it was when the input completes
      the block exactly. */
  lemma CompletedLeafDropped(xof: Xof, e: Engine, input: seq<Byte>)
    requires WellFormed(e) && e.hasPartialBlock.Some?
    requires |input| >= e.blockSize - e.hasPartialBlock.value.absorbed
    ensures var r, rest := Updated(xof, e, input), input[e.blockSize - e.hasPartialBlock.value.absorbed..];
      && r.state == Absorb(e.state, LeafDigests(xof, rest, e.blockSize))
      && r.blocks == e.blocks + 1 + |rest| / e.blockSize
      && (r.hasPartialBlock.None? <==> |rest| % e.blockSize == 0)
      && (rest == [] ==> r.state == e.state)
  {
    var rest := input[e.blockSize - e.hasPartialBlock.value.absorbed..];
    var e' := e.(blocks := e.blocks + 1, hasPartialBlock := None);
    assert Updated(xof, e, input) == AbsorbFullBlocks(xof, e', rest);
    FullBlocksShape(xof, e', rest);
    if rest == [] {
      assert e.state.absorbed + [] == e.state.absorbed;
    }
  }

  /** The ASCII bytes of "msg to hash". */
  const ScenarioMessage: seq<Byte> := [0x6D, 0x73, 0x67, 0x20, 0x74, 0x6F, 0x20, 0x68, 0x61, 0x73, 0x68]

  /** An update whose input, after completing any held partial block, holds no
      complete chunk leaves the outer context as it was. */
  lemma NoFullChunkKeepsState(xof: Xof, e: Engine, input: seq<Byte>)
    requires WellFormed(e)
    requires |input| < e.blockSize + (if e.hasPartialBlock.Some? then e.blockSize - e.hasPartialBlock.value.absorbed else 0)
    ensures Updated(xof, e, input).state == e.state
  {
    assert e.state.absorbed + [] == e.state.absorbed;
  }

  /** Call boundaries matter: with block size 5 and empty customization, "msg to
      hash" delivered in one call has both complete leaves absorbed into the
      outer context, while the same bytes delivered as 3, 2, 1, 4 and 1 bytes
      leave the outer context as it was created. The counters and the buffered
      tail agree, so the two `finalize` calls squeeze different contexts. */
  lemma SplitChangesOuterContext(xof: Xof)
    ensures var init := Initial([], 5);
      var m := ScenarioMessage;
      var whole := Fed(xof, init, [m]);
      var pieces := Fed(xof, init, [m[..3], m[3..5], m[5..6], m[6..10], m[10..]]);
      && whole.blocks == pieces.blocks == 2
      && whole.hasPartialBlock == pieces.hasPartialBlock
      && whole.state == Absorb(init.state, LeafDigest(xof, m[..5]) + LeafDigest(xof, m[5..10]))
      && pieces.state == init.state
      && whole.state != pieces.state
      && FinalContext(xof, whole, 32) != FinalContext(xof, pieces, 32)
  {
    var init := Initial([], 5);
    var m := ScenarioMessage;
    var inputs := [m[..3], m[3..5], m[5..6], m[6..10], m[10..]];
    assert Flatten([m]) == m;
    ScenarioFlatten();
    BlockAccounting(xof, [], 5, [m]);
    SplitIndependentAccounting(xof, [], 5, [m], inputs);
    ScenarioWhole(xof);
    ScenarioPieces(xof);
    var whole := Fed(xof, init, [m]);
    assert |whole.state.absorbed| == |init.state.absorbed| + 2 * LeafWidth;
    var pieced := Fed(xof, init, inputs);
    FinalContextSpelled(xof, whole, 32);
    FinalContextSpelled(xof, pieced, 32);
    assert |Flushed(xof, whole).state.absorbed| == |Flushed(xof, pieced).state.absorbed| + 2 * LeafWidth;
  }

  lemma ScenarioFlatten()
    ensures var m := ScenarioMessage;
      Flatten([m[..3], m[3..5], m[5..6], m[6..10], m[10..]]) == m
  {
    var m := ScenarioMessage;
    var inputs := [m[..3], m[3..5], m[5..6], m[6..10], m[10..]];
    assert Flatten(inputs[4..]) == m[10..];
    assert Flatten(inputs[3..]) == m[6..10] + m[10..] == m[6..];
    assert Flatten(inputs[2..]) == m[5..6] + m[6..] == m[5..];
    assert Flatten(inputs[1..]) == m[3..5] + m[5..] == m[3..];
    assert Flatten(inputs) == m[..3] + m[3..] == m;
  }

  /** One call: two complete chunks reach the outer context, in order. */
  lemma ScenarioWhole(xof: Xof)
    ensures var init, m := Initial([], 5), ScenarioMessage;
      Fed(xof, init, [m]).state == Absorb(init.state, LeafDigest(xof, m[..5]) + LeafDigest(xof, m[5..10]))
  {
    var init, m := Initial([], 5), ScenarioMessage;
    var chunks := [m[..5], m[5..10]];
    LeafDigestsInOrder(xof, chunks, m[10..], 5);
    assert chunks[1..] == [m[5..10]];
    assert Flatten(chunks[1..]) == m[5..10];
    assert Flatten(chunks) + m[10..] == m;
    assert Fed(xof, init, [m]) == Fed(xof, Updated(xof, init, m), []);
  }

  /** Five calls: no call sees a complete chunk after completing the held block. */
  lemma ScenarioPieces(xof: Xof)
    ensures var init, m := Initial([], 5), ScenarioMessage;
      Fed(xof, init, [m[..3], m[3..5], m[5..6], m[6..10], m[10..]]).state == init.state
  {
    var init, m := Initial([], 5), ScenarioMessage;
    var inputs := [m[..3], m[3..5], m[5..6], m[6..10], m[10..]];
    InitialAccounts([], 5);
    var e1 := Updated(xof, init, inputs[0]);
    UpdatedAccounts(xof, init, [], inputs[0]);
    NoFullChunkKeepsState(xof, init, inputs[0]);
    var e2 := Updated(xof, e1, inputs[1]);
    UpdatedAccounts(xof, e1, m[..3], inputs[1]);
    NoFullChunkKeepsState(xof, e1, inputs[1]);
    var e3 := Updated(xof, e2, inputs[2]);
    UpdatedAccounts(xof, e2, m[..3] + m[3..5], inputs[2]);
    NoFullChunkKeepsState(xof, e2, inputs[2]);
    var e4 := Updated(xof, e3, inputs[3]);
    UpdatedAccounts(xof, e3, m[..3] + m[3..5] + m[5..6], inputs[3]);
    NoFullChunkKeepsState(xof, e3, inputs[3]);
    var e5 := Updated(xof, e4, inputs[4]);
    NoFullChunkKeepsState(xof, e4, inputs[4]);
    assert Fed(xof, init, inputs) == Fed(xof, e1, inputs[1..]);
    assert Fed(xof, e1, inputs[1..]) == Fed(xof, e2, inputs[2..]);
    assert Fed(xof, e2, inputs[2..]) == Fed(xof, e3, inputs[3..]);
    assert Fed(xof, e3, inputs[3..]) == Fed(xof, e4, inputs[4..]);
    assert Fed(xof, e4, inputs[4..]) == Fed(xof, e5, []);
  }

  // ---------------------------------------------------------------------------
  // Finalization

  /** What `finalize` absorbs after the updates that delivered `msg`: the digest
      of the buffered tail (if any), then `right_encode` of the number of blocks,
      `ceil(|msg| / blockSize)`, then `right_encode` of the output length in bits. */
  lemma FinalizeAbsorbs(xof: Xof, e: Engine, msg: seq<Byte>, outputLen: nat)
    requires Accounts(e, msg) && e.blocks + 1 < U64_LIMIT && 8 * outputLen < U64_LIMIT
    ensures var bs, tail := e.blockSize, |msg| % e.blockSize;
      var f, c := Flushed(xof, e), FinalContext(xof, e, outputLen);
      && f.blocks == (|msg| + bs - 1) / bs
      && c.functionName == e.state.functionName
      && c.customization == e.state.customization
      && c.absorbed == e.state.absorbed
                     + (if tail == 0 then [] else LeafDigest(xof, msg[|msg| - tail..]))
                     + RightEncoding(f.blocks) + RightEncoding(8 * outputLen)
  {
    var bs, q, tail := e.blockSize, |msg| / e.blockSize, |msg| % e.blockSize;
    assert |msg| == q * bs + tail;
    if tail == 0 {
      DivModUnique(|msg| + bs - 1, bs, q, bs - 1);
    } else {
      assert (q + 1) * bs == q * bs + bs;
      DivModUnique(|msg| + bs - 1, bs, q + 1, tail - 1);
    }
  }

  /** Proof helper: the outer context `finalize` squeezes, spelled out field by
      field. */
  lemma FinalContextSpelled(xof: Xof, e: Engine, outputLen: nat)
    requires WellFormed(e) && e.blocks + 1 < U64_LIMIT && 8 * outputLen < U64_LIMIT
    ensures var f, c := Flushed(xof, e), FinalContext(xof, e, outputLen);
      && c.functionName == e.state.functionName
      && c.customization == e.state.customization
      && c.absorbed == f.state.absorbed + RightEncoding(f.blocks) + RightEncoding(8 * outputLen)
  {
  }

  /** With no update at all, the digest depends only on the customization, the
      block size and the output length; the block count is encoded as the single
      byte 0, because `right_encode(0)` writes no data byte. */
  lemma EmptyMessageDigest(xof: Xof, customString: seq<Byte>, blockSize: nat, outputLen: nat)
    requires 0 < blockSize < U64_LIMIT && 8 * outputLen < U64_LIMIT
    ensures Finalized(xof, Initial(customString, blockSize), outputLen)
         == xof(Context(FunctionName, customString, LeftEncoding(blockSize) + [0x00] + RightEncoding(8 * outputLen)),
                outputLen)
  {
    var e := Initial(customString, blockSize);
    var c := FinalContext(xof, e, outputLen);
    var lenc, oenc := LeftEncoding(blockSize), RightEncoding(8 * outputLen);
    FinalContextSpelled(xof, e, outputLen);
    var blocks := Flushed(xof, e).blocks;
    assert RightEncoding(blocks) == [0x00];
    assert c.absorbed == [] + lenc + [0x00] + oenc;
    assert c == Context(FunctionName, customString, lenc + [0x00] + oenc);
  }

  /** Whatever the updates, the context `finalize` squeezes keeps the domain the
      hasher was created with: its function name, its customization, and
      `left_encode(blockSize)` in front of everything absorbed after it. */
  lemma FinalContextDomain(xof: Xof, customString: seq<Byte>, blockSize: nat,
                           inputs: seq<seq<Byte>>, outputLen: nat)
    requires 0 < blockSize < U64_LIMIT && 8 * outputLen < U64_LIMIT
    requires Fed(xof, Initial(customString, blockSize), inputs).blocks + 1 < U64_LIMIT
    ensures var c := FinalContext(xof, Fed(xof, Initial(customString, blockSize), inputs), outputLen);
      && c.functionName == FunctionName && c.customization == customString
      && LeftEncoding(blockSize) <= c.absorbed
      && LeftDecode(c.absorbed) == Some((blockSize, |LeftEncoding(blockSize)|))
  {
    var e0 := Initial(customString, blockSize);
    var e := Fed(xof, e0, inputs);
    var f := Flushed(xof, e);
    var c := FinalContext(xof, e, outputLen);
    FinalContextSpelled(xof, e, outputLen);
    var l := LeftEncoding(blockSize);
    assert e0.state.absorbed == [] + l == l;
    PrefixTransitive(l, e.state.absorbed, f.state.absorbed);
    PrefixTransitive(l, f.state.absorbed, c.absorbed);
    LeftDecodePrefix(blockSize, c.absorbed);
  }

  lemma PrefixTransitive(a: seq<Byte>, b: seq<Byte>, c: seq<Byte>)
    requires a <= b && b <= c
    ensures a <= c
  {
    assert c[..|a|] == b[..|a|];
  }

  /** Domain separation: hashing the same updates with a different customization
      string or a different block size squeezes a different outer context. */
  lemma DomainSeparated(xof: Xof, customString1: seq<Byte>, blockSize1: nat,
                        customString2: seq<Byte>, blockSize2: nat,
                        inputs: seq<seq<Byte>>, outputLen: nat)
    requires 0 < blockSize1 < U64_LIMIT && 0 < blockSize2 < U64_LIMIT && 8 * outputLen < U64_LIMIT
    requires customString1 != customString2 || blockSize1 != blockSize2
    requires Fed(xof, Initial(customString1, blockSize1), inputs).blocks + 1 < U64_LIMIT
    requires Fed(xof, Initial(customString2, blockSize2), inputs).blocks + 1 < U64_LIMIT
    ensures FinalContext(xof, Fed(xof, Initial(customString1, blockSize1), inputs), outputLen)
         != FinalContext(xof, Fed(xof, Initial(customString2, blockSize2), inputs), outputLen)
  {
    var c1 := FinalContext(xof, Fed(xof, Initial(customString1, blockSize1), inputs), outputLen);
    var c2 := FinalContext(xof, Fed(xof, Initial(customString2, blockSize2), inputs), outputLen);
    FinalContextDomain(xof, customString1, blockSize1, inputs, outputLen);
    FinalContextDomain(xof, customString2, blockSize2, inputs, outputLen);
  }

  /** A message of exactly `k` blocks delivered in one call leaves no partial
      block, and `finalize` encodes exactly `k` blocks. */
  lemma ExactBlocksCounted(xof: Xof, customString: seq<Byte>, blockSize: nat, msg: seq<Byte>, k: nat)
    requires 0 < blockSize < U64_LIMIT && |msg| == k * blockSize
    ensures var e := Fed(xof, Initial(customString, blockSize), [msg]);
      e.hasPartialBlock.None? && Flushed(xof, e).blocks == k
  {
    assert Flatten([msg]) == msg;
    BlockAccounting(xof, customString, blockSize, [msg]);
    DivModUnique(|msg|, blockSize, k, 0);
  }

  // ---------------------------------------------------------------------------
  // The hasher, with its fields updated in place

  /** `new_with_custom_string`'s outer context: function name "ParallelHash", the
      caller's customization, then `left_encode(block_size)` written through a
      9-byte buffer (src/parallel_hash.rs:33-35). */
  method OuterContext(customString: seq<Byte>, blockSize: U64) returns (state: Context)
    ensures state.functionName == FunctionName && state.customization == customString
    ensures state.absorbed == LeftEncoding(blockSize)
  {
    state := Create(FunctionName, customString);
    var encBlockSize := new Byte[9];
    var i := LeftEncode(blockSize, encBlockSize);
    state := Absorb(state, encBlockSize[i..]);
  }

  class ParallelHash {
    /** The squeeze of the cSHAKE128 primitive this hasher is built over. */
    const xof: Xof
    var state: Context
    var blocks: nat
    const blockSize: nat
    var hasPartialBlock: Option<IncompleteState>
    /** Every byte delivered to `Update` so far. */
    ghost var message: seq<Byte>
    /** Set by `Finalize`, which consumes the hasher. */
    ghost var spent: bool

    function Snapshot(): Engine
      reads this
    {
      Engine(state, blocks, blockSize, hasPartialBlock)
    }

    ghost predicate Valid()
      reads this
    {
      && !spent
      && blockSize < U64_LIMIT
      && Accounts(Snapshot(), message)
      && state.functionName == FunctionName
      && LeftEncoding(blockSize) <= state.absorbed
    }

    /** `ParallelHash::new(block_size)`: the same hasher as
        `new_with_custom_string(&[], block_size)`. */
    constructor (blockSize: nat, xof: Xof)
      requires 0 < blockSize < U64_LIMIT
      ensures Valid() && message == [] && this.xof == xof
      ensures Snapshot() == Initial([], blockSize)
    {
      var s := OuterContext([], blockSize);
      this.xof := xof;
      state := s;
      this.blockSize := blockSize;
      blocks := 0;
      hasPartialBlock := None;
      message := [];
      spent := false;
      new;
      InitialAccounts([], blockSize);
    }

    /** `ParallelHash::new_with_custom_string(custom_string, block_size)`. */
    constructor WithCustomString(customString: seq<Byte>, blockSize: nat, xof: Xof)
      requires 0 < blockSize < U64_LIMIT
      ensures Valid() && message == [] && this.xof == xof
      ensures Snapshot() == Initial(customString, blockSize)
    {
      var s := OuterContext(customString, blockSize);
      this.xof := xof;
      state := s;
      this.blockSize := blockSize;
      blocks := 0;
      hasPartialBlock := None;
      message := [];
      spent := false;
      new;
      InitialAccounts(customString, blockSize);
    }

    /** `Hasher::update`. */
    method Update(input: seq<Byte>)
      requires Valid()
      modifies this
      ensures Valid()
      ensures message == old(message) + input
      ensures Snapshot() == Updated(xof, old(Snapshot()), input)
    {
      ghost var e0 := Snapshot();
      UpdatedAccounts(xof, e0, message, input);
      var rest := input;
      var taken := hasPartialBlock;
      hasPartialBlock := None;
      if taken.Some? {
        var partial := taken.value;
        var toAbsorb := blockSize - partial.absorbed;
        if |rest| >= toAbsorb {
          var leaf := Absorb(partial.state, rest[..toAbsorb]);
          rest := rest[toAbsorb..];
          // the leaf digest is read here and then dropped
          var tempOut := xof(leaf, LeafWidth);
          blocks := blocks + 1;
        } else {
          hasPartialBlock := Some(IncompleteState(Absorb(partial.state, rest), partial.absorbed + |rest|));
          message := message + input;
          return;
        }
      }
      AbsorbInputBlocks(rest);
      message := message + input;
      assert Snapshot() == Updated(xof, e0, input);
      PrefixTransitive(LeftEncoding(blockSize), e0.state.absorbed, state.absorbed);
    }

    /** Lines 69-97 of `update`: one leaf digest per complete chunk of `rest` is
        absorbed into the outer context, in chunk order, each counted as a block;
        a shorter tail opens a new partial leaf. */
    method AbsorbInputBlocks(rest: seq<Byte>)
      requires blockSize > 0 && hasPartialBlock.None?
      modifies this`state, this`blocks, this`hasPartialBlock
      ensures Snapshot() == AbsorbFullBlocks(xof, old(Snapshot()), rest)
    {
      var n := |rest| / blockSize;
      var inputBlocksCnt := n * blockSize;
      var inputBlocks := rest[..inputBlocksCnt];
      var inputEnd := rest[inputBlocksCnt..];
      assert rest == inputBlocks + inputEnd;
      DivModUnique(inputBlocksCnt, blockSize, n, 0);
      LeafDigestsIgnoreTail(xof, inputBlocks, inputEnd, blockSize);

      ghost var state0, blocks0 := state, blocks;
      var todo := inputBlocks;
      while |todo| > 0
        invariant |todo| % blockSize == 0
        invariant blocks + |todo| / blockSize == blocks0 + n
        invariant Absorb(state, LeafDigests(xof, todo, blockSize)) == Absorb(state0, LeafDigests(xof, inputBlocks, blockSize))
        invariant hasPartialBlock.None?
        decreases |todo|
      {
        if |todo| < blockSize {
          DivModUnique(|todo|, blockSize, 0, |todo|);
        }
        DivStep(|todo|, blockSize);
        var part := LeafDigest(xof, todo[..blockSize]);
        AbsorbTwice(state, part, LeafDigests(xof, todo[blockSize..], blockSize));
        state := Absorb(state, part);
        blocks := blocks + 1;
        todo := todo[blockSize..];
      }
      assert state.absorbed + [] == state.absorbed;

      if |inputEnd| != 0 {
        // the assert! at src/parallel_hash.rs:90 holds
        assert hasPartialBlock.None?;
        hasPartialBlock := Some(IncompleteState(Absorb(LeafContext(), inputEnd), |inputEnd|));
      }
    }

    /** Lines 102-109 of `finalize`: a held partial leaf is squeezed, its digest
        absorbed into the outer context and the block counted. */
    method FlushPartialBlock()
      requires WellFormed(Snapshot())
      modifies this`state, this`blocks, this`hasPartialBlock
      ensures Snapshot() == Flushed(xof, old(Snapshot()))
    {
      var taken := hasPartialBlock;
      hasPartialBlock := None;
      if taken.Some? {
        var tempOut := xof(taken.value.state, LeafWidth);
        state := Absorb(state, tempOut);
        blocks := blocks + 1;
      }
    }

    /** Lines 111-114 of `finalize`: `right_encode` of the block count, then of
        the output length in bits, each made in its own 9-byte buffer. */
    method AbsorbLengths(outputLen: nat)
      requires blocks < U64_LIMIT && 8 * outputLen < U64_LIMIT
      modifies this`state
      ensures state == Absorb(Absorb(old(state), RightEncoding(blocks)), RightEncoding(8 * outputLen))
    {
      var blockEnc := new Byte[9];
      var outlenEnc := new Byte[9];
      var i := RightEncode(blocks, blockEnc);
      state := Absorb(state, blockEnc[i..]);
      var j := RightEncode(outputLen * 8, outlenEnc);
      state := Absorb(state, outlenEnc[j..]);
    }

    /** `Hasher::finalize`, writing the digest into `output`; the hasher is spent. */
    method Finalize(output: array<Byte>)
      requires Valid()
      requires blocks + 1 < U64_LIMIT && 8 * output.Length < U64_LIMIT
      modifies this, output
      ensures spent
      ensures output[..] == Finalized(xof, old(Snapshot()), output.Length)
    {
      ghost var e0 := Snapshot();
      FlushPartialBlock();
      AbsorbLengths(output.Length);
      assert state == FinalContext(xof, e0, output.Length);
      var squeezed := xof(state, output.Length);
      for k := 0 to output.Length
        invariant output[..k] == squeezed[..k]
      {
        output[k] := squeezed[k];
      }
      spent := true;
    }
  }
}
