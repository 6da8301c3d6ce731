/** The 32-bit casts of the offsets of MLOAD, MSTORE and MSTORE8: up to which
    wealth they make no difference, and what they do beyond it. */
module EvmCast {
  import opened Bytes
  import opened Evm
  import opened EvmGas

  /** The wealth with which an instruction can first pay for an offset that 32
      bits cannot name: the memory up to it, and its own fee of 3. */
  const CAST_BUDGET := 0x2000_1808_0006

  predicate IsCast(op: Byte) { op == MLOAD || op == MSTORE || op == MSTORE8 }

  /** With all 256 bits of the offset, and with the low 32. */
  function Exactly(e: Env): Env { e.(cut := false) }
  function Cutting(e: Env): Env { e.(cut := true) }

  lemma EdgePrice()
    ensures GasForMem(CAST_LIMIT + 32) + 3 == CAST_BUDGET
  {
  }

  /** Short of that nothing behind 32 bits is paid for. */
  lemma BehindTheEdge(s: State, need: nat)
    requires Wealth(s) < CAST_BUDGET && need > CAST_LIMIT
    ensures Pay(s, 3, need) == Failed(OutOfGas)
  {
    var grown := Grown(|s.mem|, need);
    assert grown >= CAST_LIMIT + 32;
    GasForMemMonotone(|s.mem|, grown);
    GasForMemMonotone(CAST_LIMIT + 32, grown);
    EdgePrice();
    hide GasForMem;
  }

  // Nothing else depends on the cast.

  lemma SameValue(e: Env, code: Bytes, op: Byte, s: State)
    requires IsValue(op) && Args(op) <= |s.stack|
    ensures Evaluate(Cutting(e), code, op, s) == Evaluate(Exactly(e), code, op, s)
  {
    hide Pay;
    assert ValueFee(Cutting(e), op, s.stack) == ValueFee(Exactly(e), op, s.stack);
    forall p: State | p.stack == s.stack
      ensures Value(Cutting(e), code, op, p) == Value(Exactly(e), code, op, p)
    {
    }
  }

  lemma SameMessage(e: Env, op: Byte, a: seq<Word>, given: nat, input: Bytes)
    requires IsCall(op) && Args(op) <= |a|
    ensures CallMessage(Cutting(e), op, a, given, input) == CallMessage(Exactly(e), op, a, given, input)
  {
  }

  lemma SameCallFrom(e: Env, op: Byte, p: State)
    requires IsCall(op) && Args(op) <= |p.stack| && CallNeed(op, p.stack) <= |p.mem|
    ensures CallFrom(Cutting(e), op, p) == CallFrom(Exactly(e), op, p)
  {
    var given := CallGas(e, p.stack[0], p.gas);
    assert CallGas(Cutting(e), p.stack[0], p.gas) == CallGas(Exactly(e), p.stack[0], p.gas) == given;
    SameMessage(e, op, p.stack, given, CallInput(op, p.stack, p.mem));
    hide CallMessage, CallGas, CallInput, CallRanges, CallNeed, Args;
  }

  lemma SameCall(e: Env, op: Byte, s: State)
    requires IsCall(op) && Args(op) <= |s.stack|
    ensures Call(Cutting(e), op, s) == Call(Exactly(e), op, s)
  {
    var fee, need := CallFee(e, op, s.stack, s.history), CallNeed(op, s.stack);
    assert CallFee(Cutting(e), op, s.stack, s.history) == CallFee(Exactly(e), op, s.stack, s.history) == fee;
    var paid := Pay(s, fee, need);
    if paid.Running? { SameCallFrom(e, op, paid.state); }
    hide Pay, CallFee, CallFrom, CallNeed, Args;
  }

  lemma SameWorld(e: Env, code: Bytes, op: Byte, s: State)
    requires Available(e.rev, op) && Args(op) <= |s.stack|
    ensures IsCopy(op) ==> Copy(Cutting(e), code, op, s) == Copy(Exactly(e), code, op, s)
    ensures IsLog(op) ==> Log(Cutting(e), op, s) == Log(Exactly(e), op, s)
    ensures op == SSTORE ==> SetStorage(Cutting(e), s) == SetStorage(Exactly(e), s)
    ensures op == CREATE ==> Create(Cutting(e), s) == Create(Exactly(e), s)
    ensures op == SUICIDE ==> SelfDestruct(Cutting(e), s) == SelfDestruct(Exactly(e), s)
  {
    hide Pay, CopyFrom;
  }

  lemma LoadUncut(e: Env, s: State)
    requires Wealth(s) < CAST_BUDGET && 1 <= |s.stack|
    ensures Load(Cutting(e), s) == Load(Exactly(e), s)
  {
    if s.stack[0] as nat + 32 > CAST_LIMIT { BehindTheEdge(s, s.stack[0] as nat + 32); }
    hide Pay, GasForMem;
  }

  lemma StoreUncut(e: Env, s: State, data: Bytes)
    requires Wealth(s) < CAST_BUDGET && 2 <= |s.stack| && data != []
    ensures Store(Cutting(e), s, data) == Store(Exactly(e), s, data)
  {
    if s.stack[0] as nat + |data| > CAST_LIMIT { BehindTheEdge(s, s.stack[0] as nat + |data|); }
    hide Pay, GasForMem;
  }

  lemma ExecuteUncut(e: Env, code: Bytes, op: Byte, s: State)
    requires Wealth(s) < CAST_BUDGET
    requires Available(e.rev, op) && op == ByteAt(code, s.pc) && Args(op) <= |s.stack|
    ensures Execute(Cutting(e), code, op, s) == Execute(Exactly(e), code, op, s)
  {
    hide Pay, GasForMem, Evaluate, Call, Copy, Log, SetStorage, Create, SelfDestruct, Load, Store;
    hide Push, Dup, Swap, Drop, Branch, Hash, Leave;
    if op == MLOAD { LoadUncut(e, s); }
    else if op == MSTORE { StoreUncut(e, s, WordBytes(s.stack[1])); }
    else if op == MSTORE8 { StoreUncut(e, s, [(s.stack[1] % 256) as Byte]); }
    else if IsValue(op) { SameValue(e, code, op, s); }
    else if IsCall(op) { SameCall(e, op, s); }
    else { SameWorld(e, code, op, s); }
  }

  /** Short of CAST_BUDGET the two make the same steps. */
  lemma StepUncut(e: Env, code: Bytes, s: State)
    requires Wealth(s) < CAST_BUDGET
    ensures Step(Cutting(e), code, s) == Step(Exactly(e), code, s)
  {
    hide Execute, GasForMem;
    var op := ByteAt(code, s.pc);
    if Available(e.rev, op) && Args(op) <= |s.stack| { ExecuteUncut(e, code, op, s); }
  }

  /** And so the same runs. */
  lemma {:induction false} RunUncut(e: Env, code: Bytes, s: State)
    requires e.Honest() && Wealth(s) < CAST_BUDGET
    ensures Run(Cutting(e), code, s) == Run(Exactly(e), code, s)
    decreases s.gas
  {
    StepUncut(e, code, s);
    StepSpends(Exactly(e), code, s);
    hide GasForMem, Step;
    var r := Step(Exactly(e), code, s);
    if r.Running? { RunUncut(e, code, r.state); }
  }

  // Beyond it.

  const WIDE: Word := 0x1_0000_0000
  /** The size of a memory that reaches just behind 32 bits. */
  const EDGE: nat := 0x1_0000_0020

  /** From nothing, memory up to the edge costs CAST_BUDGET. */
  lemma PayToTheEdge(s: State, need: nat)
    requires |s.mem| <= 32 && CAST_LIMIT < need <= EDGE && Wealth(s) >= CAST_BUDGET
    ensures Pay(s, 3, need) == Running(s.(gas := Wealth(s) - CAST_BUDGET, mem := s.mem + Zeros(EDGE - |s.mem|)))
  {
    assert Grown(|s.mem|, need) == EDGE;
    EdgePrice();
    hide GasForMem;
  }

  lemma WordOfZeros()
    ensures WordOf(Zeros(32)) == 0
  {
    LeadingZeros(32, []);
    assert Zeros(32) + [] == Zeros(32);
  }

  /** MLOAD of one word of memory, asked for what lies behind it. */
  lemma LoadDiffers(e: Env, s: State)
    requires s.stack == [WIDE] && s.mem == WordBytes(1) && Wealth(s) >= CAST_BUDGET
    ensures Load(Cutting(e), s).Running? && Load(Cutting(e), s).state.stack == [1]
    ensures Load(Exactly(e), s).Running? && Load(Exactly(e), s).state.stack == [0]
  {
    PayToTheEdge(s, CAST_LIMIT + 32);
    WordRoundTrip(1);
    WordOfZeros();
    hide GasForMem, Pay, WordOf, WordBytes;
    var mem := s.mem + Zeros(EDGE - 32);
    assert mem[..32] == s.mem && mem[CAST_LIMIT..CAST_LIMIT + 32] == Zeros(32);
  }

  /** MSTORE and MSTORE8 to fresh memory: at its start, or where they should. */
  lemma StoreDiffers(e: Env, s: State, data: Bytes)
    requires |s.stack| >= 2 && s.stack[0] == WIDE && s.mem == [] && Wealth(s) >= CAST_BUDGET
    requires 0 < |data| <= 32
    ensures var left := s.(pc := s.pc + 1, gas := Wealth(s) - CAST_BUDGET, stack := s.stack[2..]);
      && Store(Cutting(e), s, data) == Running(left.(mem := data + Zeros(EDGE - |data|)))
      && Store(Exactly(e), s, data)
         == Running(left.(mem := Zeros(CAST_LIMIT) + data + Zeros(EDGE - CAST_LIMIT - |data|)))
  {
    PayToTheEdge(s, CAST_LIMIT + |data|);
    hide GasForMem, Pay;
    assert s.mem + Zeros(EDGE) == Zeros(EDGE);
    assert Write(Zeros(EDGE), 0, data) == data + Zeros(EDGE - |data|);
    assert Write(Zeros(EDGE), CAST_LIMIT, data) == Zeros(CAST_LIMIT) + data + Zeros(EDGE - CAST_LIMIT - |data|);
  }

  function Stored(op: Byte, w: Word): Bytes { if op == MSTORE then WordBytes(w) else [(w % 256) as Byte] }

  /** What a step is at these three instructions. */
  lemma CastStep(e: Env, code: Bytes, s: State, op: Byte)
    requires IsCast(op) && ByteAt(code, s.pc) == op && Args(op) <= |s.stack| < STACK_LIMIT
    ensures Step(e, code, s) == if op == MLOAD then Load(e, s) else Store(e, s, Stored(op, s.stack[1]))
  {
    hide Load, Store, WordBytes;
  }

  /** The instruction does what it should from every state of that wealth,
      whatever the code around it. */
  ghost predicate Harmless(e: Env, op: Byte, w: nat) {
    forall code: Bytes, s: State | ByteAt(code, s.pc) == op && Wealth(s) == w ::
      Step(Cutting(e), code, s) == Step(Exactly(e), code, s)
  }

  /** A state of wealth w from which the instruction goes wrong. */
  function Witness(op: Byte, w: nat): (s: State)
    requires w >= 3
    ensures Wealth(s) == w
  {
    if op == MLOAD then State(0, [WIDE], WordBytes(1), w - 3, [], []) else State(0, [WIDE, 1], [], w, [], [])
  }

  lemma WitnessDiffers(e: Env, op: Byte, w: nat)
    requires IsCast(op) && w >= CAST_BUDGET
    ensures Place(Cutting(e), WIDE) == 0 && Place(Exactly(e), WIDE) == CAST_LIMIT
    ensures Step(Cutting(e), [op], Witness(op, w)) != Step(Exactly(e), [op], Witness(op, w))
  {
    var s := Witness(op, w);
    CastStep(Cutting(e), [op], s, op);
    CastStep(Exactly(e), [op], s, op);
    hide Step, Load, Store, WordBytes, Stored;
    if op == MLOAD { LoadDiffers(e, s); } else { StoreApart(e, s, op); }
  }

  lemma StoreApart(e: Env, s: State, op: Byte)
    requires op == MSTORE || op == MSTORE8
    requires s.stack == [WIDE, 1] && s.mem == [] && Wealth(s) >= CAST_BUDGET
    ensures Store(Cutting(e), s, Stored(op, 1)) != Store(Exactly(e), s, Stored(op, 1))
  {
    var data := Stored(op, 1);
    StoreDiffers(e, s, data);
    NotZeros(data);
    hide Store, Stored, WordBytes;
    var n := EDGE - CAST_LIMIT - |data|;
    FirstBytes(data, [], EDGE - |data|);
    FirstBytes(Zeros(CAST_LIMIT), data, n);
    assert Zeros(CAST_LIMIT)[..|data|] == Zeros(|data|);
  }

  lemma FirstBytes(a: Bytes, b: Bytes, n: nat)
    ensures forall k | 0 <= k <= |a| :: (a + b + Zeros(n))[..k] == a[..k]
    ensures b == [] ==> a + b + Zeros(n) == a + Zeros(n)
  {
  }

  lemma NotZeros(data: Bytes)
    requires data == Stored(MSTORE, 1) || data == Stored(MSTORE8, 1)
    ensures data != Zeros(|data|)
  {
    WordRoundTrip(1);
    WordOfZeros();
  }

  /** MLOAD, MSTORE and MSTORE8 are each right from all states of a wealth
      exactly when it is below CAST_BUDGET. */
  lemma CastsLoseNothing(e: Env, op: Byte, w: nat)
    requires IsCast(op)
    ensures Harmless(e, op, w) <==> w < CAST_BUDGET
  {
    if w < CAST_BUDGET {
      forall code: Bytes, s: State | ByteAt(code, s.pc) == op && Wealth(s) == w
        ensures Step(Cutting(e), code, s) == Step(Exactly(e), code, s)
      {
        StepUncut(e, code, s);
      }
    } else {
      WitnessDiffers(e, op, w);
      hide Step;
      assert ByteAt([op], Witness(op, w).pc) == op;
    }
  }

  // Runs.

  /** All runs from states of that wealth end alike. */
  ghost predicate RunsAlike(e: Env, w: nat)
    requires e.Honest()
  {
    forall code: Bytes, s: State | Wealth(s) == w :: Run(Cutting(e), code, s) == Run(Exactly(e), code, s)
  }

  /** MSTORE8 behind the edge, then RETURN of the first byte of memory. */
  lemma StoreThenReturn(e: Env, code: Bytes, s: State)
    requires e.Honest() && Wealth(s) >= CAST_BUDGET && s.mem == []
    requires s.stack == [WIDE, 1, 0, 1] && ByteAt(code, s.pc) == MSTORE8 && ByteAt(code, s.pc + 1) == RETURN
    ensures Run(Cutting(e), code, s) == Ended([1], Wealth(s) - CAST_BUDGET, s.history)
    ensures Run(Exactly(e), code, s) == Ended([0], Wealth(s) - CAST_BUDGET, s.history)
  {
    hide Step, Store, Run;
    StoreDiffers(e, s, [1]);
    CastStep(Cutting(e), code, s, MSTORE8);
    CastStep(Exactly(e), code, s, MSTORE8);
    StoreFirst(Cutting(e), code, s);
    StoreFirst(Exactly(e), code, s);
    FirstBytes([1], [], EDGE - 1);
    FirstBytes(Zeros(CAST_LIMIT), [1], EDGE - CAST_LIMIT - 1);
    assert Zeros(CAST_LIMIT)[..1] == [0];
  }

  /** A step to a RETURN of the first byte. */
  lemma StoreFirst(e: Env, code: Bytes, s: State)
    requires e.Honest() && Step(e, code, s).Running?
    requires var t := Step(e, code, s).state;
      |t.mem| == EDGE && t.stack == [0, 1] && ByteAt(code, t.pc) == RETURN
    ensures var t := Step(e, code, s).state; Run(e, code, s) == Ended(t.mem[..1], t.gas, t.history)
  {
    ReturnFirst(e, code, Step(e, code, s).state);
    hide Step;
  }

  lemma ReturnFirst(e: Env, code: Bytes, t: State)
    requires e.Honest() && |t.mem| == EDGE && t.stack == [0, 1] && ByteAt(code, t.pc) == RETURN
    ensures Run(e, code, t) == Ended(t.mem[..1], t.gas, t.history)
  {
    assert Grown(EDGE, 1) == EDGE;
    assert t.mem + Zeros(0) == t.mem;
    assert Leave(RETURN, t) == Ended(t.mem[..1], t.gas, t.history);
    hide Pay, GasForMem;
    assert Step(e, code, t) == Leave(RETURN, t);
  }

  /** Runs end alike from all states of a wealth exactly when it is below
      CAST_BUDGET. */
  lemma RunsAlikeBelow(e: Env, w: nat)
    requires e.Honest()
    ensures RunsAlike(e, w) <==> w < CAST_BUDGET
  {
    if w < CAST_BUDGET {
      forall code: Bytes, s: State | Wealth(s) == w
        ensures Run(Cutting(e), code, s) == Run(Exactly(e), code, s)
      {
        RunUncut(e, code, s);
      }
    } else {
      var code, s := [MSTORE8, RETURN], State(0, [WIDE, 1, 0, 1], [], w, [], []);
      assert Wealth(s) == w;
      StoreThenReturn(e, code, s);
    }
  }

  /** A program that goes wrong on a new machine. */
  const PROGRAM: Bytes := [PUSH1, 1, PUSH1, 0, PUSH1, 1, PUSH1 + 4, 1, 0, 0, 0, 0, MSTORE8, RETURN]

  lemma PushStep(e: Env, code: Bytes, s: State, n: nat, v: Word)
    requires e.Honest() && IsPush(ByteAt(code, s.pc)) && n == PushSize(ByteAt(code, s.pc)) && v == PushValue(code, s.pc)
    requires s.gas >= 3 && |s.stack| < STACK_LIMIT
    ensures Run(e, code, s) == Run(e, code, s.(pc := s.pc + 1 + n, stack := [v] + s.stack, gas := s.gas - 3))
  {
    assert s.mem + Zeros(0) == s.mem;
    assert Push(code, s) == Running(s.(pc := s.pc + 1 + n, stack := [v] + s.stack, gas := s.gas - 3));
    hide Pay, GasForMem, PushValue;
    assert Step(e, code, s) == Push(code, s);
  }

  lemma Quoted(code: Bytes, p: nat, b: Bytes)
    requires p + |b| <= |code| && code[p..p + |b|] == b
    ensures Padded(code, p, |b|) == b
  {
    var w := Padded(code, p, |b|);
    forall i: nat | i < |b|
      ensures w[i] == b[i]
    {
      assert w[i] == ByteAt(code, p + i);
      assert code[p..p + |b|][i] == code[p + i];
    }
  }

  lemma WideBytes()
    ensures FromBigEndian([1, 0, 0, 0, 0]) == CAST_LIMIT
  {
    OneByte(1);
    assert [1 as Byte, 0, 0, 0, 0][..4] == [1, 0, 0, 0] && [1 as Byte, 0, 0, 0][..3] == [1, 0, 0];
    assert [1 as Byte, 0, 0][..2] == [1, 0] && [1 as Byte, 0][..1] == [1];
    assert FromBigEndian([1, 0]) == 256 && FromBigEndian([1, 0, 0]) == 0x1_0000;
    assert FromBigEndian([1, 0, 0, 0]) == 0x100_0000;
  }

  lemma OneByte(b: Byte)
    ensures FromBigEndian([b]) == b as nat
  {
    assert [b][..0] == [];
    assert FromBigEndian([]) == 0;
  }

  lemma PushedAt(code: Bytes, p: nat, b: Bytes, v: Word)
    requires p + 1 + |b| <= |code| && PushSize(code[p]) == |b| && code[p + 1..p + 1 + |b|] == b
    requires FromBigEndian(b) == v as nat
    ensures PushValue(code, p) == v
  {
    hide FromBigEndian, Padded;
    Quoted(code, p + 1, b);
  }

  lemma Pushed()
    ensures PushValue(PROGRAM, 0) == 1 && PushValue(PROGRAM, 2) == 0 && PushValue(PROGRAM, 4) == 1
    ensures PushValue(PROGRAM, 6) == WIDE
  {
    hide FromBigEndian, PushValue;
    OneByte(0);
    OneByte(1);
    WideBytes();
    PushedAt(PROGRAM, 0, [1], 1);
    PushedAt(PROGRAM, 2, [0], 0);
    PushedAt(PROGRAM, 4, [1], 1);
    PushedAt(PROGRAM, 6, [1, 0, 0, 0, 0], WIDE);
  }

  /** With the gas of its four pushes on top of CAST_BUDGET it returns the byte
      that it stored elsewhere. */
  lemma ProgramDiffers(e: Env, gas: nat)
    requires e.Honest() && gas >= CAST_BUDGET + 12
    ensures Run(Cutting(e), PROGRAM, State(0, [], [], gas, [], [])) == Ended([1], gas - 12 - CAST_BUDGET, [])
    ensures Run(Exactly(e), PROGRAM, State(0, [], [], gas, [], [])) == Ended([0], gas - 12 - CAST_BUDGET, [])
  {
    var last := State(12, [WIDE, 1, 0, 1], [], gas - 12, [], []);
    StoreThenReturn(e, PROGRAM, last);
    hide Run;
    PushedAll(Cutting(e), gas);
    PushedAll(Exactly(e), gas);
  }

  lemma PushedAll(e: Env, gas: nat)
    requires e.Honest() && gas >= 12
    ensures Run(e, PROGRAM, State(0, [], [], gas, [], []))
         == Run(e, PROGRAM, State(12, [WIDE, 1, 0, 1], [], gas - 12, [], []))
  {
    Pushed();
    hide PushValue, Run;
    assert [0 as Word] + [1] == [0, 1] && [1 as Word] + [0, 1] == [1, 0, 1] && [WIDE] + [1, 0, 1] == [WIDE, 1, 0, 1];
    assert [1 as Word] + [] == [1];
    PushStep(e, PROGRAM, State(0, [], [], gas, [], []), 1, 1);
    PushStep(e, PROGRAM, State(2, [1], [], gas - 3, [], []), 1, 0);
    PushStep(e, PROGRAM, State(4, [0, 1], [], gas - 6, [], []), 1, 1);
    PushStep(e, PROGRAM, State(6, [1, 0, 1], [], gas - 9, [], []), 5, WIDE);
  }
}
