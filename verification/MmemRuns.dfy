/** What a client of utils/src/mmem.c sees over a whole run. */
module MmemRuns {
  import opened Common
  import opened LinkedList
  import opened MmemSpec

  /** Write is the client storing a byte through MMEM_PTR. */
  datatype Op<T> = Alloc(h: T, size: nat) | Free(h: T) | Write(h: T, at: nat, byte: bv8)

  /** A handle in use is not allocated again, only handles in use are freed, and a client
      writes only inside its block. */
  predicate Legal<T(==)>(s: State<T>, op: Op<T>)
    requires |s.handles| == |s.blocks|
  {
    match op
    case Alloc(h, size) => h !in s.handles
    case Free(h) => h in s.handles
    case Write(h, at, byte) => h in s.handles && at < s.blocks[IndexOf(s.handles, h)].size
  }

  lemma BlockFits<T>(s: State<T>, i: nat)
    requires Valid(s) && i < |s.handles|
    ensures s.blocks[i].ptr + s.blocks[i].size <= Top(s) <= |s.memory|
  {
    TiledBounds(s.blocks, 0, Top(s));
  }

  ghost function Step<T>(s: State<T>, op: Op<T>): State<T>
    requires Valid(s) && Legal(s, op)
  {
    match op
    case Alloc(h, size) => MmemSpec.Alloc(s, h, size).0
    case Free(h) =>
      FreeIsPossible(s, IndexOf(s.handles, h));
      Freed(s, IndexOf(s.handles, h))
    case Write(h, at, byte) =>
      var k := IndexOf(s.handles, h);
      BlockFits(s, k);
      s.(memory := s.memory[s.blocks[k].ptr + at := byte])
  }

  /** What the client reads through its handle. */
  ghost function Bytes<T>(s: State<T>, h: T): seq<bv8>
    requires Valid(s) && h in s.handles
  {
    BlockFits(s, IndexOf(s.handles, h));
    Content(s, IndexOf(s.handles, h))
  }

  lemma IndexIs<T>(q: seq<T>, i: nat)
    requires Distinct(q) && i < |q|
    ensures IndexOf(q, q[i]) == i
  {}

  lemma StepIsValid<T>(s: State<T>, op: Op<T>)
    requires Valid(s) && Legal(s, op)
    ensures Valid(Step(s, op))
  {
    hide Tiled, Freed, Allocated, Distinct;
    match op
    case Alloc(h, size) =>
      if size <= s.avail {
        AllocKeepsIff(s, h, size);
      }
    case Free(h) => FreeKeeps(s, IndexOf(s.handles, h));
    case Write(h, at, byte) =>
      BlockFits(s, IndexOf(s.handles, h));
      assert Top(Step(s, op)) == Top(s);
  }

  /** An allocation gets its memory exactly when the blocks leave room for it. */
  lemma AllocSucceedsIff<T>(s: State<T>, h: T, size: nat)
    requires Valid(s) && h !in s.handles
    ensures MmemSpec.Alloc(s, h, size).1 <==> Used(s.blocks) + size <= |s.memory|
    ensures MmemSpec.Alloc(s, h, size).1 ==>
      var t := Step(s, Alloc(h, size));
      Valid(t) && h in t.handles && |Bytes(t, h)| == size && t.handles == s.handles + [h]
  {
    NothingIsLost(s);
    if size <= s.avail {
      StepIsValid(s, Alloc(h, size));
      WithoutAbsent(s.handles, h);
      var t := Step(s, Alloc(h, size));
      assert t.handles[|s.handles|] == h;
      IndexIs(t.handles, |s.handles|);
    }
  }

  lemma AllocKeepsBytes<T>(s: State<T>, h: T, size: nat, x: T)
    requires Valid(s) && h !in s.handles && x in s.handles
    ensures var t := Step(s, Alloc(h, size)); Valid(t) && x in t.handles && Bytes(t, x) == Bytes(s, x)
  {
    hide Tiled;
    StepIsValid(s, Alloc(h, size));
    if size <= s.avail {
      WithoutAbsent(s.handles, h);
      var t, i := Step(s, Alloc(h, size)), IndexOf(s.handles, x);
      assert t.handles[i] == x && t.blocks[i] == s.blocks[i];
      IndexIs(t.handles, i);
    }
  }

  lemma FreeKeepsBytes<T>(s: State<T>, h: T, x: T)
    requires Valid(s) && h in s.handles && x in s.handles && x != h
    ensures var t := Step(s, Free(h)); Valid(t) && x in t.handles && Bytes(t, x) == Bytes(s, x)
  {
    hide Tiled, Freed, Content;
    StepIsValid(s, Free(h));
    var t, k, i := Step(s, Free(h)), IndexOf(s.handles, h), IndexOf(s.handles, x);
    FreeKeepsContents(s, k, i);
    IndexIs(t.handles, if i < k then i else i - 1);
  }

  lemma WriteBytes<T>(s: State<T>, h: T, at: nat, byte: bv8, x: T)
    requires Valid(s) && Legal(s, Write(h, at, byte)) && x in s.handles
    ensures var t := Step(s, Write(h, at, byte));
      && Valid(t) && x in t.handles && at < |Bytes(s, h)|
      && Bytes(t, x) == if x == h then Bytes(s, h)[at := byte] else Bytes(s, x)
  {
    hide Tiled;
    StepIsValid(s, Write(h, at, byte));
    var k, i := IndexOf(s.handles, h), IndexOf(s.handles, x);
    BlockFits(s, k);
    BlockFits(s, i);
    if i != k {
      BlocksAround(s.blocks, k, i, Top(s));
    }
  }

  ghost predicate LegalRun<T>(s: State<T>, ops: seq<Op<T>>)
    requires Valid(s)
    decreases |ops|
  {
    ops == [] || (Legal(s, ops[0]) && (StepIsValid(s, ops[0]); LegalRun(Step(s, ops[0]), ops[1..])))
  }

  ghost function Run<T>(s: State<T>, ops: seq<Op<T>>): State<T>
    requires Valid(s) && LegalRun(s, ops)
    decreases |ops|
  {
    if ops == [] then s else
      StepIsValid(s, ops[0]);
      Run(Step(s, ops[0]), ops[1..])
  }

  /** What a run makes of one client's bytes: only its own writes change them. */
  function Written<T(==)>(bytes: seq<bv8>, h: T, ops: seq<Op<T>>): seq<bv8>
    decreases |ops|
  {
    if ops == [] then bytes
    else
      var op := ops[0];
      Written(if op.Write? && op.h == h && op.at < |bytes| then bytes[op.at := op.byte] else bytes, h, ops[1..])
  }

  lemma StepKeepsBytes<T>(s: State<T>, op: Op<T>, x: T)
    requires Valid(s) && Legal(s, op) && x in s.handles && op != Free(x)
    ensures Valid(Step(s, op)) && x in Step(s, op).handles
    ensures Bytes(Step(s, op), x) == Written(Bytes(s, x), x, [op])
  {
    hide Valid, Step, Bytes;
    assert [op][1..] == [];
    match op
    case Alloc(h, size) => AllocKeepsBytes(s, h, size, x);
    case Free(h) => FreeKeepsBytes(s, h, x);
    case Write(h, at, byte) => WriteBytes(s, h, at, byte, x);
  }

  /** After every run of allocations, frees and writes the blocks are packed without gap or
      overlap, nothing is lost, and a handle that the run does not free reads what its own
      writes have put there. */
  lemma {:induction false} RunKeepsBytes<T>(s: State<T>, ops: seq<Op<T>>, x: T)
    requires Valid(s) && LegalRun(s, ops)
    ensures var t := Run(s, ops);
      && Valid(t) && Used(t.blocks) + t.avail == |s.memory|
      && (x in s.handles && Free(x) !in ops ==>
            x in t.handles && Bytes(t, x) == Written(Bytes(s, x), x, ops))
    decreases |ops|
  {
    hide Step, Bytes;
    if ops == [] {
      NothingIsLost(s);
    } else {
      StepIsValid(s, ops[0]);
      StepKeepsSize(s, ops[0]);
      RunKeepsBytes(Step(s, ops[0]), ops[1..], x);
      if x in s.handles && Free(x) !in ops {
        StepKeepsBytes(s, ops[0], x);
        assert [ops[0]][1..] == [];
        assert Written(Bytes(s, x), x, ops) == Written(Written(Bytes(s, x), x, [ops[0]]), x, ops[1..]);
      }
    }
  }

  lemma StepKeepsSize<T>(s: State<T>, op: Op<T>)
    requires Valid(s) && Legal(s, op)
    ensures |Step(s, op).memory| == |s.memory|
  {
    match op
    case Alloc(h, size) =>
    case Free(h) => FreeIsPossible(s, IndexOf(s.handles, h));
    case Write(h, at, byte) => BlockFits(s, IndexOf(s.handles, h));
  }
}
