/** What reading simulator memory in 24-byte chunks returns (src/target/msim_target.rs). */
module MemoryReads {
  import opened Wrappers
  import opened Machine
  import opened Frame
  import opened Target

  function MemoryBytes(memory: nat -> uint8, a: nat, n: nat): (bs: seq<uint8>)
    ensures |bs| == n
  {
    seq(n, i requires 0 <= i < n => memory(a + i))
  }

  predicate AnswersRead(r: RawResponse, a: Address, memory: nat -> uint8) {
    ArgBytes(Args(r.arg0, r.arg1, r.arg2)) == MemoryBytes(memory, a, STEP)
  }

  // The exchange answers a read of this space with the three words at its address.
  predicate Honest(e: Exchange, space: Space, memory: nat -> uint8) {
    Accepted(e.reply) ==>
      match (space, e.request)
      case (PhysicalSpace, ReadPhysMemory(a)) => AnswersRead(e.reply.value, a, memory)
      case (VirtualSpace(cpu), ReadVirtMemory(c, a)) => c == cpu ==> AnswersRead(e.reply.value, a, memory)
      case _ => true
  }

  predicate AllHonest(trace: seq<Exchange>, n: nat, space: Space, memory: nat -> uint8) {
    forall i :: n <= i < |trace| ==> Honest(trace[i], space, memory)
  }

  lemma {:induction false} ReadFromExtends(t: Target, space: Space, pos: nat, end: Address)
    ensures t.trace <= ReadFrom(t, space, pos, end).0.trace
    decreases end - pos
  {
    if pos < end {
      ReadFromExtends(AfterSend(t, ReadRequest(space, pos)), space, pos + STEP, end);
    }
  }

  function RoundUp(n: nat): nat {
    (n + STEP - 1) / STEP * STEP
  }

  lemma RoundUpStep(n: nat)
    requires 0 < n
    ensures RoundUp(n) == STEP + RoundUp(if n < STEP then 0 else n - STEP) && n <= RoundUp(n)
  {
  }

  lemma BytesConcat(memory: nat -> uint8, a: nat, n: nat, m: nat)
    ensures MemoryBytes(memory, a, n) + MemoryBytes(memory, a + n, m) == MemoryBytes(memory, a, n + m)
  {
  }

  // A successful read is its first chunk and the rest of the read.
  lemma FirstChunk(t: Target, space: Space, pos: nat, end: Address)
    requires pos < end && ReadFrom(t, space, pos, end).1.Ok?
    ensures var u := AfterSend(t, ReadRequest(space, pos));
            var (v, rest) := ReadFrom(u, space, pos + STEP, end);
            var reply := NextReply(t);
            rest.Ok? && Accepted(reply) && u.trace <= v.trace && ReadFrom(t, space, pos, end) ==
            (v, Ok(ArgBytes(Args(reply.value.arg0, reply.value.arg1, reply.value.arg2)) + rest.value))
  {
    ReadFromExtends(AfterSend(t, ReadRequest(space, pos)), space, pos + STEP, end);
    hide ArgBytes;
  }

  function Left(pos: nat, end: nat): nat {
    if pos < end then end - pos else 0
  }

  lemma {:induction false} ReadFromLength(t: Target, space: Space, pos: nat, end: Address)
    requires ReadFrom(t, space, pos, end).1.Ok?
    ensures |ReadFrom(t, space, pos, end).1.value| == RoundUp(Left(pos, end))
    decreases end - pos
  {
    if pos < end {
      FirstChunk(t, space, pos, end);
      RoundUpStep(end - pos);
      hide ReadFrom, RoundUp, ArgBytes;
      ReadFromLength(AfterSend(t, ReadRequest(space, pos)), space, pos + STEP, end);
    }
  }

  lemma HonestChunk(t: Target, u: Target, v: Target, space: Space, a: Address, memory: nat -> uint8)
    requires u == AfterSend(t, ReadRequest(space, a)) && u.trace <= v.trace
    requires Accepted(NextReply(t)) && AllHonest(v.trace, |t.trace|, space, memory)
    ensures AnswersRead(NextReply(t).value, a, memory)
  {
    hide AnswersRead;
    assert v.trace[|t.trace|] == Exchange(ReadRequest(space, a), NextReply(t));
  }

  // Whole chunks are read, starting at `pos`, until `end` is covered.
  lemma {:induction false} ReadFromReadsMemory(t: Target, space: Space, pos: nat, end: Address, memory: nat -> uint8)
    requires ReadFrom(t, space, pos, end).1.Ok?
    requires AllHonest(ReadFrom(t, space, pos, end).0.trace, |t.trace|, space, memory)
    ensures ReadFrom(t, space, pos, end).1.value == MemoryBytes(memory, pos, RoundUp(Left(pos, end)))
    decreases end - pos
  {
    if pos < end {
      FirstChunk(t, space, pos, end);
      RoundUpStep(end - pos);
      var u := AfterSend(t, ReadRequest(space, pos));
      var v := ReadFrom(u, space, pos + STEP, end).0;
      hide ReadFrom, RoundUp, ArgBytes, MemoryBytes;
      HonestChunk(t, u, v, space, pos, memory);
      hide Honest;
      ReadFromReadsMemory(u, space, pos + STEP, end, memory);
      BytesConcat(memory, pos, STEP, RoundUp(Left(pos + STEP, end)));
    }
  }

  lemma ReadExtent(a: Address, length: nat)
    requires length < TWO_TO_63
    ensures Left(a, WrapU64(a + length)) == (if a + length < TWO_TO_64 then length else 0)
    ensures Left(a, WrapU64(a + length)) <= RoundUp(Left(a, WrapU64(a + length)))
    ensures RoundUp(0) == 0
  {
    if a + length >= TWO_TO_64 {
      assert WrapU64(a + length) == a + length - TWO_TO_64;
    }
  }

  // With an honest simulator a read gives exactly the requested bytes, unless the range
  // reaches the end of the address space: then the wrapped end makes it give nothing.
  lemma ReadsRequestedBytes(t: Target, space: Space, a: Address, length: nat, memory: nat -> uint8)
    requires length < TWO_TO_63 && ReadMemory(t, space, a, length).1.Ok?
    requires AllHonest(ReadMemory(t, space, a, length).0.trace, |t.trace|, space, memory)
    ensures ReadMemory(t, space, a, length).1.value ==
            (if a + length < TWO_TO_64 then MemoryBytes(memory, a, length) else [])
  {
    var end := WrapU64(a + length);
    ReadFromReadsMemory(t, space, a, end, memory);
    ReadExtent(a, length);
    BytesConcat(memory, a, Left(a, end), RoundUp(Left(a, end)) - Left(a, end));
    hide ReadFrom, RoundUp, WrapU64;
  }

  // The reply has the requested length exactly when the range ends below the top.
  lemma ReadLengthIff(t: Target, space: Space, a: Address, length: nat)
    requires length < TWO_TO_63 && ReadMemory(t, space, a, length).1.Ok?
    ensures |ReadMemory(t, space, a, length).1.value| == length <==> a + length < TWO_TO_64
  {
    ReadExtent(a, length);
    ReadFromLength(t, space, a, WrapU64(a + length));
    hide ReadFrom, RoundUp, WrapU64;
  }
}
