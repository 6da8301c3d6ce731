/** The interpreter (libevm/VM.h, VM.cpp, VMCalls.cpp, VMOpt.cpp): the code it
    rewrites, its stack array and pointers, its 64-bit counters.  Counters are
    a bounded type, so that verifying this file shows that no sum wraps and no
    subtraction goes below zero. */
module Vm {
  import opened Bytes
  import opened Evm
  import opened EvmGas
  import opened EvmCast
  import opened VmCode

  newtype uint64 = n: int | 0 <= n < 0x1_0000_0000_0000_0000

  const MAX63 := 0x7fff_ffff_ffff_ffff

  /** Code sizes for which the padded code can be addressed. */
  const CODE_LIMIT := 0x7fff_ffff_ffff_0000

  /** How a case leaves the interpreter loop: not at all, with m_bounce
      cleared, or by one of the thrown exceptions. */
  datatype Signal = Go | Stop(output: Bytes) | Revert(output: Bytes) | Throw(error: Error) {
    predicate IsFailure() { !Go? }
    function PropagateFailure(): Signal requires !Go? { this }
  }

  /** The interpreter did what the step of the user's code says. */
  ghost predicate Agrees(sig: Signal, s: State, r: Status) {
    match sig
    case Go => r == Running(s)
    case Stop(output) => r == Ended(output, s.gas, s.history)
    case Revert(output) => r == Reverted(output, s.gas)
    case Throw(error) => r == Failed(error)
  }

  // Arithmetic the cases rely on.

  lemma PayNothing(s: State, fee: nat)
    ensures Pay(s, fee, 0) == if s.gas < fee then Failed(OutOfGas) else Running(s.(gas := s.gas - fee))
  {
    assert s.mem + Zeros(0) == s.mem;
  }

  /** What 63 bits cannot hold is never paid for. */
  lemma OutOfReach(s: State, fee: nat, need: nat)
    requires Wealth(s) <= MAX63
    ensures need > MAX63 || fee > MAX63 ==> Pay(s, fee, need) == Failed(OutOfGas)
  {
    var grown := Grown(|s.mem|, need);
    GasForMemMonotone(|s.mem|, grown);
    if need > MAX63 { MemBounded(grown); }
    hide GasForMem;
  }

  /** More memory than 63 bits of gas can buy. */
  const MEM_LIMIT := 0x400_0000_0000

  lemma MemBounded(n: nat)
    ensures GasForMem(n) <= MAX63 ==> n < MEM_LIMIT
  {
    assert GasForMem(MEM_LIMIT) > MAX63;
    if n >= MEM_LIMIT { GasForMemMonotone(MEM_LIMIT, n); }
  }

  lemma ShiftIn(v: nat, b: Byte)
    ensures Wrap(Wrap(v) as int * 256 + b as int) == Wrap(v * 256 + b as int)
  {
    var q := v / WORD_LIMIT;
    assert v == q * WORD_LIMIT + Wrap(v) as int;
    ModShift(Wrap(v) as int * 256 + b as int, 256 * q);
  }

  lemma ModShift(x: nat, k: nat)
    ensures Wrap(x + k * WORD_LIMIT) == Wrap(x)
  {
    var a, b := x / WORD_LIMIT, (x + k * WORD_LIMIT) / WORD_LIMIT;
    assert (b - a - k) * WORD_LIMIT == Wrap(x) as int - Wrap(x + k * WORD_LIMIT) as int;
  }

  lemma MulWraps(x: nat, y: nat)
    ensures Wrap(Wrap(x) as int * Wrap(y) as int) == Wrap(x * y)
  {
    var a, b := x / WORD_LIMIT, y / WORD_LIMIT;
    var u, v := Wrap(x) as nat, Wrap(y) as nat;
    assert x == a * WORD_LIMIT + u && y == b * WORD_LIMIT + v;
    assert x * y == u * v + (a * y + u * b) * WORD_LIMIT by {
      assert x * y == a * WORD_LIMIT * y + u * y;
      assert u * y == u * b * WORD_LIMIT + u * v;
    }
    ModShift(u * v, a * y + u * b);
  }

  lemma {:induction false} PowerSquares(b: nat, k: nat)
    ensures Power(b * b, k) == Power(b, 2 * k)
  {
    if k > 0 {
      PowerSquares(b, k - 1);
      assert Power(b, 2 * k) == b * (b * Power(b, 2 * k - 2));
    }
  }

  lemma FeeBounded(e: Env, op: Byte, a: seq<Word>)
    requires Args(op) <= |a|
    ensures ValueFee(e, op, a) <= 1610
  {
    if op == EXP { WordBytesFit(a[1]); }
  }

  lemma EvaluateMeans(e: Env, code: Bytes, op: Byte, s: State)
    requires IsValue(op) && Args(op) <= |s.stack|
    ensures var fee := ValueFee(e, op, s.stack);
      Evaluate(e, code, op, s) ==
      if s.gas < fee then Failed(OutOfGas)
      else
        var p := s.(gas := s.gas - fee);
        Running(p.(pc := s.pc + 1, stack := [Value(e, code, op, p)] + s.stack[Args(op)..]))
  {
    PayNothing(s, ValueFee(e, op, s.stack));
  }

  lemma NoWord()
    ensures WordOf(Zeros(32)) == 0
  {
    LeadingZeros(32, []);
    assert Zeros(32) + [] == Zeros(32);
    hide FromBigEndian;
    assert FromBigEndian([]) == 0;
  }

  /** exp256: square and multiply, everything modulo 2^256. */
  method Exp256(base: Word, exponent: Word) returns (result: Word)
    ensures result == Wrap(Power(base as int, exponent as nat))
  {
    result := 1;
    var b, e := base, exponent;
    ghost var R: nat, B: nat := 1, base as nat;
    while e != 0
      invariant result == Wrap(R) && b == Wrap(B)
      invariant R * Power(B, e as nat) == Power(base as nat, exponent as nat)
    {
      PowerSquares(B, (e / 2) as nat);
      if e % 2 == 1 {
        assert Power(B, e as nat) == B * Power(B, e as nat - 1);
        assert R * (B * Power(B, e as nat - 1)) == (R * B) * Power(B, e as nat - 1);
        MulWraps(R, B);
        result := Wrap(result as int * b as int);
        R := R * B;
      }
      MulWraps(B, B);
      b := Wrap(b as int * b as int);
      B := B * B;
      e := e / 2;
    }
  }

  /** toInt63: values beyond 63 bits count as out of gas. */
  method ToInt63(v: nat) returns (sig: Signal, w: uint64)
    ensures sig == if v > MAX63 then Throw(OutOfGas) else Go
    ensures sig.Go? ==> w as nat == v
  {
    if v > MAX63 { return Throw(OutOfGas), 0; }
    return Go, v as uint64;
  }

  method MemNeed63(offset: Word, size: Word) returns (sig: Signal, w: uint64)
    ensures sig == if MemNeed(offset as nat, size as nat) > MAX63 then Throw(OutOfGas) else Go
    ensures sig.Go? ==> w as nat == MemNeed(offset as nat, size as nat)
  {
    sig, w := ToInt63(if size != 0 then offset as nat + size as nat else 0);
  }

  method GasForMem63(size: nat) returns (sig: Signal, w: uint64)
    ensures sig == if GasForMem(size) > MAX63 then Throw(OutOfGas) else Go
    ensures sig.Go? ==> w as nat == GasForMem(size)
  {
    var s := size / 32;
    sig, w := ToInt63(3 * s + s * s / 512);
  }

  /** How many of size bytes starting at an index are inside the data. */
  function InData(data: Bytes, from: nat, size: nat): (n: nat)
    ensures n <= size && (n > 0 ==> from + n <= |data|)
  {
    if from + size > |data| then (if |data| < from then 0 else |data| - from) else size
  }

  /** A padded copy is a stretch of the data followed by zeros. */
  lemma PaddedParts(data: Bytes, from: nat, size: nat, n: nat)
    requires n == InData(data, from, size)
    ensures n > 0 ==> Padded(data, from, size)[..n] == data[from..from + n]
    ensures Padded(data, from, size)[n..] == Zeros(size - n)
  {
    var w := Padded(data, from, size);
    assert forall i | 0 <= i < size :: w[i] == ByteAt(data, from + i);
    if n > 0 {
      forall i | 0 <= i < n
        ensures w[..n][i] == data[from..from + n][i]
      {
        assert w[i] == ByteAt(data, from + i);
      }
      assert w[..n] == data[from..from + n];
    }
    forall i | 0 <= i < size - n
      ensures w[n..][i] == 0
    {
      assert w[n + i] == ByteAt(data, from + n + i);
    }
    assert w[n..] == Zeros(size - n);
  }

  lemma WriteParts(mem: Bytes, offset: nat, w: Bytes, n: nat)
    requires n <= |w| && (w != [] ==> offset + |w| <= |mem|)
    ensures Write(Write(mem, offset, w[..n]), offset + n, w[n..]) == Write(mem, offset, w)
  {
    assert w == w[..n] + w[n..];
  }

  /** A cast to size_t. */
  function ToSize(w: Word): nat { w as nat % SIZE_LIMIT }

  lemma ToSizeFits(a: Word, b: Word, c: Word)
    ensures a as nat < SIZE_LIMIT ==> ToSize(a) == a as nat
    ensures b as nat < SIZE_LIMIT ==> ToSize(b) == b as nat
    ensures c as nat < SIZE_LIMIT ==> ToSize(c) == c as nat
  {
  }

  /** memcpy of n bytes of data, then memset of the rest of size bytes. */
  function Overwrite(mem: Bytes, data: Bytes, to: nat, from: nat, size: nat, n: nat): Bytes
    requires n <= size && (size > 0 ==> to + size <= |mem|) && (n > 0 ==> from + n <= |data|)
  {
    var head := if n > 0 then Write(mem, to, data[from..from + n]) else mem;
    if size > n then Write(head, to + n, Zeros(size - n)) else head
  }

  /** copyDataToMemory's bounds: the index is compared before it is cast, and
      casts only lose bits of numbers that are not used. */
  method CopyBounds(data: Bytes, to: Word, from: Word, size: Word)
    returns (offset: nat, index: nat, n: nat, sizeToBeCopied: nat)
    requires |data| < SIZE_LIMIT && size as nat <= MAX63 && (size > 0 ==> to as nat <= MAX63)
    ensures n == size as nat && sizeToBeCopied == InData(data, from as nat, n)
    ensures n > 0 ==> offset == to as nat
    ensures sizeToBeCopied > 0 ==> index == from as nat
  {
    ToSizeFits(to, from, size);
    hide ToSize;
    offset, index, n := ToSize(to), ToSize(from), ToSize(size);
    sizeToBeCopied := if from as nat + n > |data| then (if |data| < from as nat then 0 else |data| - index) else n;
  }

  /** Copying the bytes that exist and clearing the rest writes the padded
      data. */
  lemma CopiedInParts(mem: Bytes, data: Bytes, to: nat, from: nat, size: nat, n: nat)
    requires size > 0 ==> to + size <= |mem|
    requires n == InData(data, from, size)
    ensures Overwrite(mem, data, to, from, size, n) == Write(mem, to, Padded(data, from, size))
  {
    PaddedParts(data, from, size, n);
    WriteParts(mem, to, Padded(data, from, size), n);
  }

  lemma CopyFromMeans(s: State, fee: nat, data: Bytes, to: Word, from: Word, size: Word, rest: seq<Word>)
    ensures var paid := Pay(s, fee + 3 * Words(size as nat), MemNeed(to as nat, size as nat));
      && (paid.Running? && size > 0 ==> to as nat + size as nat <= |paid.state.mem|)
      && CopyFrom(s, fee, data, to, from, size, rest) ==
         if paid.Running? then
           Running(paid.state.(pc := s.pc + 1, stack := rest,
                   mem := Write(paid.state.mem, to as nat, Padded(data, from as nat, size as nat))))
         else paid
  {
  }

  lemma LoadMeans(e: Env, s: State, rest: seq<Word>)
    requires 1 <= |s.stack| && rest == s.stack[1..]
    ensures var offset := Place(e, s.stack[0]);
      var paid := Pay(s, 3, s.stack[0] as nat + 32);
      && (paid.Running? ==> offset + 32 <= |paid.state.mem|)
      && Load(e, s) ==
         if paid.Running? then
           Running(paid.state.(pc := s.pc + 1, stack := [WordOf(paid.state.mem[offset..offset + 32])] + rest))
         else paid
  {
  }

  lemma StoreMeans(e: Env, s: State, data: Bytes, rest: seq<Word>)
    requires 2 <= |s.stack| && rest == s.stack[2..]
    ensures var offset := Place(e, s.stack[0]);
      var paid := Pay(s, 3, s.stack[0] as nat + |data|);
      && (paid.Running? ==> offset + |data| <= |paid.state.mem|)
      && Store(e, s, data) ==
         if paid.Running? then
           Running(paid.state.(pc := s.pc + 1, stack := rest, mem := Write(paid.state.mem, offset, data)))
         else paid
  {
  }

  lemma SliceOf<T>(a: seq<T>, from: nat, i: nat, j: nat)
    requires from + j <= |a| && i <= j
    ensures a[from..][i..j] == a[from + i..from + j]
    ensures a[from..][j..] == a[from + j..]
  {
  }

  lemma LogMeans(e: Env, op: Byte, s: State)
    requires IsLog(op) && Args(op) <= |s.stack| && !e.isStatic
    ensures var offset, size := s.stack[0] as nat, s.stack[1] as nat;
      var paid := Pay(s, 375 + 375 * (op - LOG0) as nat + 8 * size, MemNeed(offset, size));
      && (paid.Running? && size > 0 ==> offset + size <= |paid.state.mem|)
      && Log(e, op, s) ==
         if paid.Running? then
           Running(paid.state.(pc := s.pc + 1, stack := s.stack[Args(op)..],
                   history := s.history + [Logged(Read(paid.state.mem, offset, size), s.stack[2..Args(op)])]))
         else paid
  {
  }

  lemma CallRoom(op: Byte, a: seq<Word>, size: nat)
    requires IsCall(op) && Args(op) <= |a| && CallNeed(op, a) <= size
    ensures var r := CallRanges(op, a); r[3] > 0 ==> r[2] + r[3] <= size
    ensures Args(op) >= 6
  {
  }

  /** Writing from p on leaves the instructions before p as they were. */
  lemma KeepsEarlier(code: Bytes, o: Options, was: Bytes, now: Bytes, p: nat)
    requires Reaches(code, 0, p) && |was| == |now| && p <= |was|
    requires forall q | 0 <= q < p :: was[q] == now[q]
    ensures forall q: nat | q < p && Reaches(code, 0, q) ::
              RewrittenAt(code, o, was, q) ==> RewrittenAt(code, o, now, q)
  {
    forall q: nat | q < p && Reaches(code, 0, q)
      ensures RewrittenAt(code, o, was, q) ==> RewrittenAt(code, o, now, q)
    {
      ReachesApart(code, 0, q, p);
    }
  }

  /** The data of a push is not touched by masking. */
  lemma PushDataKept(code: Bytes, now: Bytes, p: nat)
    requires Reaches(code, 0, p) && p < |code| && |now| == |code| + EXTRA_BYTES
    requires forall q | p < q < |now| :: now[q] == Masked(code, q)
    ensures Next(code, p) <= |now|
    ensures now[p + 1..Next(code, p)] == Padded(code, p + 1, PushSize(code[p]))
  {
    forall q: nat | p < q < Next(code, p)
      ensures now[q] == ByteAt(code, q)
    {
      if Reaches(code, 0, q) { ReachesApart(code, 0, p, q); }
    }
  }

  /** What follows the instruction at p does not matter to it. */
  lemma SamePush(code: Bytes, o: Options, was: Bytes, now: Bytes, p: nat)
    requires Reaches(code, 0, p) && p < |code| && |was| == |now| && Next(code, p) <= |was|
    requires forall q | 0 <= q < Next(code, p) :: was[q] == now[q]
    ensures RewrittenAt(code, o, was, p) ==> RewrittenAt(code, o, now, p)
  {
  }

  lemma Advance(code: Bytes, o: Options, now: Bytes, p: nat)
    requires Reaches(code, 0, p) && p < |code|
    requires forall q: nat | q < p && Reaches(code, 0, q) :: RewrittenAt(code, o, now, q)
    requires RewrittenAt(code, o, now, p)
    ensures forall q: nat | q < Next(code, p) && Reaches(code, 0, q) :: RewrittenAt(code, o, now, q)
  {
    forall q: nat | q < Next(code, p) && Reaches(code, 0, q)
      ensures RewrittenAt(code, o, now, q)
    {
      if q > p { ReachesApart(code, 0, p, q); }
    }
  }

  /** Past the code only one boundary is ever reached, and it holds STOP. */
  lemma RewrittenPastEnd(code: Bytes, o: Options, now: Bytes, end: nat)
    requires end == End(code, 0) && |now| == |code| + EXTRA_BYTES && end < |now|
    requires forall q: nat | q < end && Reaches(code, 0, q) :: RewrittenAt(code, o, now, q)
    requires now[end] == JumpOp(code, o, end)
    ensures Rewritten(code, o, now)
  {
    forall q: nat | Reaches(code, 0, q) && q >= end
      ensures RewrittenAt(code, o, now, q)
    {
      EndIsUnique(code, q);
    }
  }

  /** Without either option the padded and masked code is the rewritten one. */
  lemma Unoptimized(code: Bytes, o: Options, now: Bytes)
    requires !o.useConstantPool && !o.replaceConstJump && |now| == |code| + EXTRA_BYTES
    requires forall q | 0 <= q < |now| :: now[q] == Masked(code, q)
    ensures Rewritten(code, o, now)
  {
    forall p: nat | Reaches(code, 0, p)
      ensures RewrittenAt(code, o, now, p)
    {
      ReachesForward(code, 0, p);
      if p < |code| {
        ReachesNext(code, 0, p);
        ReachesForward(code, 0, Next(code, p));
      }
      forall i: nat | p < i <= p + PushSize(ByteAt(code, p))
        ensures now[i] == ByteAt(code, i)
      {
        if Reaches(code, 0, i) { ReachesApart(code, 0, p, i); }
      }
    }
  }

  /** Everything before p has been rewritten, nothing behind it. */
  ghost predicate RewrittenTo(user: Bytes, o: Options, now: Bytes, pool: seq<Word>, p: nat) {
    && Reaches(user, 0, p) && p < |now| == |user| + EXTRA_BYTES
    && now[p] == JumpOp(user, o, p)
    && (forall q | p < q < |now| :: now[q] == Masked(user, q))
    && (forall q: nat | q < p && Reaches(user, 0, q) :: RewrittenAt(user, o, now, q))
    && pool == (if o.useConstantPool then Constants(user, 0, p) else [])
  }

  /** One more instruction has been rewritten. */
  lemma RoundDone(user: Bytes, o: Options, was: Bytes, pool0: seq<Word>, now: Bytes, pool1: seq<Word>, p: nat)
    requires RewrittenTo(user, o, was, pool0, p) && p < |user| && |now| == |was|
    requires Reaches(user, 0, Next(user, p)) && Next(user, p) < |now|
    requires RewrittenAt(user, o, now, p) && now[Next(user, p)] == JumpOp(user, o, Next(user, p))
    requires forall q | 0 <= q < p || Next(user, p) < q < |now| :: now[q] == was[q]
    requires pool1 == pool0 + if IsPooled(o, user[p]) then [PushValue(user, p)] else []
    ensures RewrittenTo(user, o, now, pool1, Next(user, p))
  {
    ConstantsNext(user, 0, p);
    KeepsEarlier(user, o, was, now, p);
    hide RewrittenAt, JumpOp, PushValue, Masked, Constants;
    Advance(user, o, now, p);
  }

  /** An instruction that is no push is left as it is. */
  lemma NothingToDo(user: Bytes, o: Options, now: Bytes, pool: seq<Word>, p: nat)
    requires RewrittenTo(user, o, now, pool, p) && p < |user| && !IsPush(now[p])
    ensures Next(user, p) == p + 1 && Reaches(user, 0, p + 1)
    ensures RewrittenTo(user, o, now, pool, p + 1)
  {
    ReachesNext(user, 0, p);
    BeforeNext(user, 0, None, p);
    assert !IsPush(user[p]);
    RoundDone(user, o, now, pool, now, pool, p);
  }

  class VM {
    const env: Env
    const options: Options
    const userCode: Bytes
    const stack: array<Word>

    var code: Bytes
    var pool: seq<Word>
    var jumpDests: seq<nat>

    var op: Byte
    var pc: uint64
    var sp: int
    var spp: int
    var mem: Bytes
    var returnData: Bytes
    var ioGas: uint64
    var runGas: uint64
    var newMemSize: uint64
    var copyMemSize: uint64
    var history: History

    /** What the run can see, with the stack that starts at index k. */
    function At(k: int): State
      requires 0 <= k <= stack.Length
      reads this, stack
    {
      State(pc as nat, stack[k..], mem, ioGas as nat, returnData, history)
    }

    /** optimize() has run and its result is still in place. */
    ghost predicate Prepared()
      reads this
    {
      && stack.Length == STACK_LIMIT
      && |userCode| < CODE_LIMIT
      && Rewritten(userCode, options, code)
      && pool == PoolOf(userCode, options)
      && IsJumpTable(userCode, jumpDests)
    }

    /** Between two instructions. */
    ghost predicate Valid()
      reads this, stack
    {
      && Prepared() && PoolFits(pool) && env.cut
      && 0 <= spp <= STACK_LIMIT
      && InPlace(userCode, At(spp))
      && Wealth(At(spp)) <= MAX63
      && |returnData| < SIZE_LIMIT
    }

    /** An instruction with so many operands and results has been fetched: sp
        is where its operands start and spp where its results go. */
    ghost predicate Ready(args: nat, rets: nat)
      reads this, stack
    {
      && stack.Length == STACK_LIMIT
      && 0 <= sp && sp + args <= STACK_LIMIT
      && spp == sp + args - rets && 0 <= spp
      && Wealth(At(sp)) <= MAX63
      && newMemSize as nat == |mem| && copyMemSize == 0
      && pc as nat < CODE_LIMIT + EXTRA_BYTES
    }

    /** The user's opcode at pc. */
    ghost function UserOp(): Byte
      reads this
    {
      ByteAt(userCode, pc as nat)
    }

    // Preparing the code.

    method CopyCode(extraBytes: nat)
      modifies this`code
      ensures code == userCode + Zeros(extraBytes)
    {
      code := userCode + Zeros(extraBytes);
    }

    /** The first loop of optimize: list the jump destinations and disarm the
        interpreter's own opcodes in user code. */
    method ScanCode()
      requires code == userCode + Zeros(EXTRA_BYTES) && jumpDests == []
      modifies this`code, this`jumpDests
      ensures |code| == |userCode| + EXTRA_BYTES
      ensures forall q | 0 <= q < |code| :: code[q] == Masked(userCode, q)
      ensures IsJumpTable(userCode, jumpDests)
    {
      var p: nat := 0;
      while p < |userCode|
        invariant Reaches(userCode, 0, p) && p <= |code| == |userCode| + EXTRA_BYTES
        invariant forall q | 0 <= q < p :: code[q] == Masked(userCode, q)
        invariant forall q | p <= q < |code| :: code[q] == ByteAt(userCode, q)
        invariant Increasing(jumpDests) && (forall i | 0 <= i < |jumpDests| :: jumpDests[i] < p)
        invariant forall q: nat :: q in jumpDests <==> q < p && IsJumpDest(userCode, q)
        decreases |code| - p
      {
        var op := code[p];
        if IsSynthetic(op) { code := code[p := INVALID]; }
        if op == JUMPDEST { jumpDests := jumpDests + [p]; }
        ReachesNext(userCode, 0, p);
        ReachesForward(userCode, 0, Next(userCode, p));
        forall q: nat | p < q < Next(userCode, p)
          ensures !Reaches(userCode, 0, q)
        {
          if Reaches(userCode, 0, q) { ReachesApart(userCode, 0, p, q); }
        }
        if IsPush(op) { p := p + (op - PUSH1) as nat + 1; }
        p := p + 1;
      }
      forall q: nat | q >= p
        ensures !IsJumpDest(userCode, q)
      {
      }
    }

    /** The bytes after a push opcode, folded into a word. */
    method PushedBytes(at: nat, n: nat) returns (val: Word)
      requires 0 < n && at + n <= |code|
      ensures val == Wrap(FromBigEndian(code[at..at + n]))
    {
      val := code[at] as Word;
      assert code[at..at + 1][..0] == [];
      assert val == Wrap(FromBigEndian(code[at..at + 1]));
      var i := at + 1;
      while i < at + n
        invariant at < i <= at + n
        invariant val == Wrap(FromBigEndian(code[at..i]))
      {
        ShiftIn(FromBigEndian(code[at..i]), code[i]);
        assert code[at..i + 1][..i - at] == code[at..i];
        val := Wrap(val as int * 256 + code[i] as int);
        i := i + 1;
      }
    }

    /** verifyJumpDest without throwing. */
    method FindJumpDest(dest: Word) returns (found: bool)
      requires IsJumpTable(userCode, jumpDests) && |userCode| < CODE_LIMIT
      ensures found == IsJumpDest(userCode, dest as nat)
    {
      found := dest <= 0x7fff_ffff_ffff_ffff && dest as nat in jumpDests;
    }

    /** The second loop of optimize has dealt with everything before p. */
    ghost predicate RewrittenUpTo(p: nat)
      reads this
    {
      RewrittenTo(userCode, options, code, pool, p)
    }

    /** optimize's treatment of one push that may go to the constant pool. */
    method PoolConstant(p: nat, n: nat, val: Word)
      requires RewrittenUpTo(p) && p < |userCode| && n == PushSize(userCode[p]) && n > 0
      requires val == PushValue(userCode, p)
      modifies this`code, this`pool
      ensures |code| == old(|code|) && RewrittenAt(userCode, options, code, p)
      ensures forall q | 0 <= q < p || p + n < q < |code| :: code[q] == old(code[q])
      ensures pool == old(pool) + if IsPooled(options, userCode[p]) then [val] else []
    {
      ReachesNext(userCode, 0, p);
      ReachesForward(userCode, 0, Next(userCode, p));
      if options.useConstantPool && 5 < n {
        var poolOff := |pool| % POOL_LIMIT;
        pool := pool + [val];
        code := code[p := PUSHC];
        code := code[p + 3 := (n - 2) as Byte];
        code := code[p + 2 := (poolOff % 256) as Byte];
        code := code[p + 1 := (poolOff / 256) as Byte];
      } else {
        forall q: nat | p < q <= p + n
          ensures code[q] == ByteAt(userCode, q)
        {
          if Reaches(userCode, 0, q) { ReachesApart(userCode, 0, p, q); }
        }
      }
    }

    /** optimize's treatment of a jump that follows a push of val. */
    method ReplaceJump(i: nat, val: Word)
      requires i < |code| && |userCode| < CODE_LIMIT && IsJumpTable(userCode, jumpDests)
      requires Reaches(userCode, 0, i) && code[i] == Masked(userCode, i)
      requires Before(userCode, 0, None, i) == Some(val)
      modifies this`code
      ensures code == old(code)[i := JumpOp(userCode, options, i)]
    {
      if options.replaceConstJump {
        if code[i] == JUMP {
          var found := FindJumpDest(val);
          if found { code := code[i := JUMPC]; }
        } else if code[i] == JUMPI {
          var found := FindJumpDest(val);
          if found { code := code[i := JUMPCI]; }
        }
      }
    }

    /** The push case of the second loop of optimize. */
    method RewritePush(p: nat, n: nat)
      requires RewrittenUpTo(p) && p < |userCode| < CODE_LIMIT && IsJumpTable(userCode, jumpDests)
      requires n == PushSize(userCode[p]) > 0
      requires Reaches(userCode, 0, p + n + 1) && p + n + 1 < |code|
      requires Before(userCode, 0, None, p + n + 1) == Some(PushValue(userCode, p))
      modifies this`code, this`pool
      ensures |code| == old(|code|) && RewrittenAt(userCode, options, code, p)
      ensures code[p + n + 1] == JumpOp(userCode, options, p + n + 1)
      ensures forall q | 0 <= q < p || p + n + 1 < q < |code| :: code[q] == old(code[q])
      ensures pool == old(pool) + if IsPooled(options, userCode[p]) then [PushValue(userCode, p)] else []
    {
      PushDataKept(userCode, code, p);
      assert code[p + n + 1] == Masked(userCode, p + n + 1);
      var val := PushedBytes(p + 1, n);
      assert val == PushValue(userCode, p);
      hide RewrittenUpTo, RewrittenAt, Constants, Before, IsJumpTable, JumpOp, PushValue;
      PoolConstant(p, n, val);
      ghost var pooled := code;
      ReplaceJump(p + n + 1, val);
      SamePush(userCode, options, pooled, code, p);
    }

    /** One round of the second loop of optimize. */
    method RewriteAt(p: nat) returns (next: nat)
      requires RewrittenUpTo(p) && p < |userCode| < CODE_LIMIT && IsJumpTable(userCode, jumpDests)
      modifies this`code, this`pool
      ensures next == Next(userCode, p) && RewrittenUpTo(next)
    {
      ghost var was, before := code, pool;
      var op := code[p];
      if IsPush(op) {
        ReachesNext(userCode, 0, p);
        ReachesForward(userCode, 0, Next(userCode, p));
        BeforeNext(userCode, 0, None, p);
        var n := (op - PUSH1) as nat + 1;
        RewritePush(p, n);
        next := p + n + 1;
        RoundDone(userCode, options, was, before, code, pool, p);
      } else {
        next := p + 1;
        NothingToDo(userCode, options, code, pool, p);
      }
    }

    /** initEntry's optimize(). */
    method Optimize()
      requires |userCode| < CODE_LIMIT && jumpDests == [] && pool == [] && stack.Length == STACK_LIMIT
      modifies this`code, this`pool, this`jumpDests
      ensures Rewritten(userCode, options, code) && pool == PoolOf(userCode, options)
      ensures IsJumpTable(userCode, jumpDests) && Prepared() && |code| == |userCode| + 33
    {
      CopyCode(EXTRA_BYTES);
      ScanCode();
      if options.useConstantPool || options.replaceConstJump {
        var p: nat := 0;
        assert Reaches(userCode, 0, 0);
        while p < |userCode|
          invariant RewrittenUpTo(p) && IsJumpTable(userCode, jumpDests)
          decreases |code| - p
        {
          p := RewriteAt(p);
        }
        EndIsUnique(userCode, p);
        RewrittenPastEnd(userCode, options, code, p);
      } else {
        Unoptimized(userCode, options, code);
      }
    }

    // Metering.

    method AdjustStack(removed: nat, added: nat) returns (sig: Signal)
      requires 0 <= spp <= STACK_LIMIT
      modifies this`sp, this`spp
      ensures sp == old(spp) && spp == old(spp) + removed - (if sig == Throw(StackUnderflow) then 0 else added)
      ensures var size := STACK_LIMIT - old(spp);
        sig == if size < removed then Throw(StackUnderflow)
               else if size - removed + added > STACK_LIMIT then Throw(OutOfStack) else Go
    {
      sp := spp;
      spp := spp + removed;
      if STACK_LIMIT < spp { return Throw(StackUnderflow); }
      spp := spp - added;
      if spp < 0 { return Throw(OutOfStack); }
      return Go;
    }

    method FetchInstruction() returns (sig: Signal)
      requires Valid()
      modifies this`op, this`sp, this`spp, this`runGas, this`newMemSize, this`copyMemSize
      ensures pc as nat < |code| && op == code[pc] && sp == old(spp)
      ensures var size := STACK_LIMIT - old(spp);
        sig == if size < Args(op) then Throw(StackUnderflow)
               else if size - Args(op) + Rets(op) > STACK_LIMIT then Throw(OutOfStack) else Go
      ensures sig.Go? ==> Ready(Args(op), Rets(op)) && runGas as nat == TierGas(op)
    {
      ReachesForward(userCode, 0, pc as nat);
      MemBounded(|mem|);
      op := code[pc];
      sig := AdjustStack(Args(op), Rets(op));
      if sig.Go? {
        runGas := TierGas(op) as uint64;
        newMemSize := |mem| as uint64;
        copyMemSize := 0;
      }
    }

    method UpdateIOGas() returns (sig: Signal)
      modifies this`ioGas
      ensures sig == if old(ioGas) < runGas then Throw(OutOfGas) else Go
      ensures ioGas as int == if sig.Go? then old(ioGas) as int - runGas as int else old(ioGas) as int
    {
      if ioGas < runGas { return Throw(OutOfGas); }
      ioGas := ioGas - runGas;
      return Go;
    }

    /** The part of a fee known before memory is priced, small enough that the
        64-bit sum cannot wrap. */
    ghost predicate Quoted()
      reads this
    {
      && ioGas as nat + GasForMem(|mem|) <= MAX63
      && copyMemSize as nat <= MAX63
      && runGas as nat <= (if copyMemSize == 0 then MAX63 else 700)
    }

    method UpdateGas() returns (sig: Signal)
      requires Quoted() && |mem| < 0x1_0000_0000_0000_0000
      modifies this`runGas
      ensures var growth := if newMemSize as nat > |mem| then GasForMem(newMemSize as nat) - GasForMem(|mem|) else 0;
        var cost := old(runGas) as int + 3 * Words(copyMemSize as nat) + growth;
        && sig == (if ioGas as int < cost then Throw(OutOfGas) else Go)
        && (sig.Go? ==> runGas as int == cost)
    {
      if newMemSize as nat > |mem| {
        GasForMemMonotone(|mem|, newMemSize as nat);
        var need, have;
        need :- GasForMem63(newMemSize as nat);
        sig, have := GasForMem63(|mem|);  // does not throw: memory in use has been paid for
        runGas := runGas + (need - have);
      }
      runGas := runGas + 3 * ((copyMemSize + 31) / 32);
      if ioGas < runGas { return Throw(OutOfGas); }
      return Go;
    }

    /** Charges growth to `need` bytes into runGas, and grows memory if the gas
        for everything in runGas is there. */
    method UpdateMem(need: uint64) returns (sig: Signal)
      requires Quoted() && need as nat <= MAX63 + 32
      modifies this`newMemSize, this`runGas, this`mem
      ensures var fee := old(runGas) as nat + 3 * Words(copyMemSize as nat);
        var grown := Grown(old(|mem|), need as nat);
        var cost := fee + GasForMem(grown) - GasForMem(old(|mem|));
        && sig == (if ioGas as int < cost then Throw(OutOfGas) else Go)
        && (sig.Go? ==> runGas as int == cost && mem == old(mem) + Zeros(grown - old(|mem|)))
        && (sig.Go? ==> need as nat <= |mem|)
    {
      MemBounded(|mem|);
      newMemSize := (need + 31) / 32 * 32;
      :- UpdateGas();
      if newMemSize as nat > |mem| {
        mem := mem + Zeros(newMemSize as nat - |mem|);
      } else {
        assert mem + Zeros(0) == mem;
      }
      return Go;
    }

    /** updateMem, then updateIOGas: between them they charge exactly what the
        step of the user's code pays. */
    method Charge(need: uint64) returns (sig: Signal)
      requires Quoted() && need as nat <= MAX63 + 32 && 0 <= sp <= stack.Length
      modifies this`ioGas, this`runGas, this`newMemSize, this`mem
      ensures sig == Go || sig == Throw(OutOfGas)
      ensures sig.Go? ==> |mem| >= need as nat
      ensures var fee := old(runGas) as nat + 3 * Words(copyMemSize as nat);
        Pay(old(At(sp)), fee, need as nat) == if sig.Go? then Running(At(sp)) else Failed(OutOfGas)
    {
      sig := UpdateMem(need);
      if !sig.Go? { return; }
      sig := UpdateIOGas();  // does not throw: updateGas has compared the same numbers
    }

    /** Charge for touching size bytes at offset: memNeed, updateMem and
        updateIOGas, on top of a fee that may itself be too large to count. */
    method ChargeRange(fee: nat, offset: Word, size: Word) returns (sig: Signal)
      requires 0 <= sp <= stack.Length && Wealth(At(sp)) <= MAX63
      requires copyMemSize as nat <= MAX63 && (copyMemSize > 0 ==> fee <= 700 && size as nat >= copyMemSize as nat)
      modifies this`ioGas, this`runGas, this`newMemSize, this`mem
      ensures sig == Go || sig == Throw(OutOfGas)
      ensures Pay(old(At(sp)), fee + 3 * Words(copyMemSize as nat), MemNeed(offset as nat, size as nat))
           == if sig.Go? then Running(At(sp)) else Failed(OutOfGas)
      ensures sig.Go? ==> MemNeed(offset as nat, size as nat) <= MAX63
      ensures sig.Go? ==> |mem| >= MemNeed(offset as nat, size as nat)
    {
      OutOfReach(At(sp), fee + 3 * Words(copyMemSize as nat), MemNeed(offset as nat, size as nat));
      runGas :- ToInt63(fee);
      var need;
      need :- MemNeed63(offset, size);
      :- Charge(need);
      return Go;
    }

    // The cases of the interpreter loop.

    /** CALLDATALOAD: all of the word inside the data, none of it, or some. */
    method LoadCallData(x: Word) returns (v: Word)
      requires |env.input| < SIZE_LIMIT
      ensures v == WordOf(Padded(env.input, x as nat, 32))
    {
      hide WordOf;
      var data := env.input;
      ghost var all := Padded(data, x as nat, 32);
      PaddedParts(data, x as nat, 32, InData(data, x as nat, 32));
      assert all[..32] == all && all[0..] == all;
      if x as nat + 31 < |data| {
        var from := x as nat % SIZE_LIMIT;
        return WordOf(data[from..from + 32]);
      } else if x as nat >= |data| {
        NoWord();
        return 0;
      }
      var r: Bytes := Zeros(32);
      var i, e, j := x as nat % SIZE_LIMIT, x as nat % SIZE_LIMIT + 32, 0;
      while i < e
        invariant i == x as nat + j && j <= 32 && |r| == 32
        invariant r[..j] == all[..j]
      {
        r := r[j := if i < |data| then data[i] else 0];
        assert all[j] == ByteAt(data, x as nat + j);
        i, j := i + 1, j + 1;
        assert r[..j] == r[..j - 1] + [r[j - 1]];
      }
      assert r == all;
      return WordOf(r);
    }

    /** The word an opcode leaves, computed from the operands at sp. */
    method Compute() returns (v: Word)
      requires IsValue(op) && 0 <= sp && sp + Args(op) <= stack.Length && |env.input| < SIZE_LIMIT
      ensures v == Value(env, userCode, op, At(sp))
    {
      if op == EXP {
        v := Exp256(stack[sp], stack[sp + 1]);
      } else if op == CALLDATALOAD {
        v := LoadCallData(stack[sp]);
      } else {
        v := Value(env, userCode, op, At(sp));
      }
    }

    /** The one-word results: arithmetic, comparisons, the environment. */
    method CaseValue() returns (sig: Signal)
      requires IsValue(op) && Ready(Args(op), 1) && |env.input| < SIZE_LIMIT
      modifies this`pc, this`ioGas, this`runGas, stack
      ensures 0 <= spp <= STACK_LIMIT
      ensures Agrees(sig, At(spp), Evaluate(env, userCode, op, old(At(sp))))
    {
      hide GasForMem;
      ghost var s := At(sp);
      var fee := ValueFee(env, op, stack[sp..]);
      FeeBounded(env, op, stack[sp..]);
      EvaluateMeans(env, userCode, op, s);
      runGas := fee as uint64;
      :- UpdateIOGas();
      var v := Compute();
      assert stack[spp + 1..] == s.stack[Args(op)..];
      Put(v);
      pc := pc + 1;
      return Go;
    }

    /** m_SPP[0] = v. */
    method Put(v: Word)
      requires stack.Length == STACK_LIMIT && 0 <= spp < STACK_LIMIT
      modifies stack
      ensures stack[spp..] == [v] + old(stack[spp + 1..])
    {
      ghost var rest := stack[spp + 1..];
      stack[spp] := v;
      assert stack[spp..] == [v] + rest;
    }

    method CasePushC() returns (sig: Signal)
      requires Ready(0, 1) && runGas == 3
      requires pc as nat + 3 < |code|
      requires LoadsExactly(userCode, code, pool, pc as nat)
      requires pc as nat + 3 + code[pc + 3] as nat == Next(userCode, pc as nat)
      modifies this`pc, this`ioGas, stack
      ensures 0 <= spp <= STACK_LIMIT
      ensures Agrees(sig, At(spp), Push(userCode, old(At(sp))))
    {
      hide GasForMem;
      ghost var p := pc as nat;
      PayNothing(At(sp), 3);
      :- UpdateIOGas();
      pc := pc + 1;
      var off := code[pc] as nat * 256;
      pc := pc + 1;
      off := off + code[pc] as nat;
      pc := pc + 1;
      pc := pc + code[pc] as uint64;
      assert stack[spp + 1..] == stack[sp..];
      Put(pool[off]);
      return Go;
    }

    /** Shifts the next n bytes of code into m_SPP[0]. */
    method PushBytes(n: nat)
      requires stack.Length == STACK_LIMIT && 0 <= spp < STACK_LIMIT
      requires pc as nat + n <= |code| < 0x1_0000_0000_0000_0000
      modifies this`pc, stack
      ensures pc as nat == old(pc) as nat + n
      ensures stack[spp..] == [Wrap(FromBigEndian(code[old(pc)..pc]))] + old(stack[spp + 1..])
    {
      ghost var rest, from := stack[spp + 1..], pc;
      var numBytes := n;
      stack[spp] := 0;
      while numBytes > 0
        invariant from <= pc && pc as nat + numBytes == from as nat + n
        invariant stack[spp] == Wrap(FromBigEndian(code[from..pc]))
        invariant stack[spp + 1..] == rest
      {
        ShiftIn(FromBigEndian(code[from..pc]), code[pc]);
        assert code[from..pc + 1][..pc - from] == code[from..pc];
        stack[spp] := Wrap(stack[spp] as int * 256 + code[pc] as int);
        numBytes := numBytes - 1;
        pc := pc + 1;
      }
      assert stack[spp..] == [stack[spp]] + rest;
    }

    method CasePush() returns (sig: Signal)
      requires Ready(0, 1) && runGas == 3 && IsPush(op) && op == ByteAt(userCode, pc as nat)
      requires Next(userCode, pc as nat) <= |code| < 0x1_0000_0000_0000_0000
      requires forall i | pc as nat < i < Next(userCode, pc as nat) :: code[i] == ByteAt(userCode, i)
      modifies this`pc, this`ioGas, stack
      ensures 0 <= spp <= STACK_LIMIT
      ensures Agrees(sig, At(spp), Push(userCode, old(At(sp))))
    {
      hide GasForMem;
      ghost var p := pc as nat;
      PayNothing(At(sp), 3);
      assert code[p + 1..Next(userCode, p)] == Padded(userCode, p + 1, PushSize(op));
      :- UpdateIOGas();
      assert stack[spp + 1..] == stack[sp..];
      pc := pc + 1;
      PushBytes((op - PUSH1) as nat + 1);
      return Go;
    }

    method VerifyJumpDest(dest: Word) returns (sig: Signal, to: uint64)
      requires IsJumpTable(userCode, jumpDests) && |userCode| < CODE_LIMIT
      ensures sig == if IsJumpDest(userCode, dest as nat) then Go else Throw(BadJumpDestination)
      ensures sig.Go? ==> to as nat == dest as nat
    {
      if dest <= 0x7fff_ffff_ffff_ffff && dest as nat in jumpDests { return Go, dest as uint64; }
      return Throw(BadJumpDestination), 0;
    }

    method CaseJump() returns (sig: Signal)
      requires (op == JUMP || op == JUMPI) && Ready(Args(op), 0) && runGas as nat == TierGas(op)
      requires IsJumpTable(userCode, jumpDests) && |userCode| < CODE_LIMIT
      modifies this`pc, this`ioGas
      ensures 0 <= spp <= STACK_LIMIT
      ensures Agrees(sig, At(spp), Branch(userCode, op, old(At(sp))))
    {
      hide GasForMem;
      PayNothing(At(sp), TierGas(op));
      :- UpdateIOGas();
      assert stack[sp..][Args(op)..] == stack[spp..];
      if op == JUMP || stack[sp + 1] != 0 {
        var to;
        to :- VerifyJumpDest(stack[sp]);
        pc := to;
      } else {
        pc := pc + 1;
      }
      return Go;
    }

    /** JUMPC and JUMPCI: the destination is used without a lookup. */
    method CaseJumpC() returns (sig: Signal)
      requires (op == JUMPC || op == JUMPCI) && Ready(Args(op), 0) && runGas as nat == TierGas(op)
      requires IsJumpDest(userCode, stack[sp] as nat) && |userCode| < CODE_LIMIT
      modifies this`pc, this`ioGas
      ensures 0 <= spp <= STACK_LIMIT
      ensures Agrees(sig, At(spp), Branch(userCode, if op == JUMPC then JUMP else JUMPI, old(At(sp))))
    {
      hide GasForMem;
      PayNothing(At(sp), TierGas(op));
      :- UpdateIOGas();
      assert stack[sp..][Args(op)..] == stack[spp..];
      if op == JUMPC || stack[sp + 1] != 0 {
        pc := stack[sp] as uint64;
      } else {
        pc := pc + 1;
      }
      return Go;
    }

    method CaseDup() returns (sig: Signal)
      requires IsDup(op) && Ready(Args(op), Rets(op)) && runGas == 3
      modifies this`pc, this`ioGas, stack
      ensures 0 <= spp <= STACK_LIMIT
      ensures Agrees(sig, At(spp), Dup(old(At(sp)), (op - DUP1) as nat))
    {
      hide GasForMem;
      PayNothing(At(sp), 3);
      :- UpdateIOGas();
      assert stack[spp + 1..] == stack[sp..];
      Put(stack[sp + (op - DUP1) as nat]);
      pc := pc + 1;
      return Go;
    }

    method CaseSwap() returns (sig: Signal)
      requires IsSwap(op) && Ready(Args(op), Args(op)) && runGas == 3
      modifies this`pc, this`ioGas, stack
      ensures 0 <= spp <= STACK_LIMIT
      ensures Agrees(sig, At(spp), Swap(old(At(sp)), (op - SWAP1) as nat + 1))
    {
      hide GasForMem;
      PayNothing(At(sp), 3);
      ghost var was := stack[sp..];
      :- UpdateIOGas();
      var n := (op - SWAP1) as nat + 1;
      stack[sp], stack[sp + n] := stack[sp + n], stack[sp];
      assert stack[spp..] == Exchange(was, n);
      pc := pc + 1;
      return Go;
    }

    method CasePop() returns (sig: Signal)
      requires Ready(1, 0)
      modifies this`pc, this`ioGas
      ensures 0 <= spp <= STACK_LIMIT
      ensures Agrees(sig, At(spp), Drop(old(At(sp)), runGas as nat, 1))
    {
      hide GasForMem;
      PayNothing(At(sp), runGas as nat);
      :- UpdateIOGas();
      pc := pc + 1;
      assert stack[spp..] == stack[sp..][1..];
      return Go;
    }

    method CaseJumpDest() returns (sig: Signal)
      requires Ready(0, 0)
      modifies this`pc, this`ioGas, this`runGas
      ensures 0 <= spp <= STACK_LIMIT
      ensures Agrees(sig, At(spp), Drop(old(At(sp)), 1, 0))
    {
      hide GasForMem;
      PayNothing(At(sp), 1);
      runGas := 1;
      :- UpdateIOGas();
      pc := pc + 1;
      assert stack[spp..] == stack[sp..][0..];
      return Go;
    }

    /** What the memory accesses charge: all of the offset counts. */
    method ChargeAccess(size: uint64) returns (sig: Signal)
      requires 0 <= sp < stack.Length && Wealth(At(sp)) <= MAX63 && copyMemSize == 0 && runGas == 3 && 0 < size <= 32
      modifies this`ioGas, this`runGas, this`newMemSize, this`mem
      ensures sig == Go || sig == Throw(OutOfGas)
      ensures Pay(old(At(sp)), 3, stack[sp] as nat + size as nat)
           == if sig.Go? then Running(At(sp)) else Failed(OutOfGas)
      ensures sig.Go? ==> |mem| >= stack[sp] as nat + size as nat
    {
      OutOfReach(At(sp), 3, stack[sp] as nat + size as nat);
      hide GasForMem, Pay;
      var offset;
      offset :- ToInt63(stack[sp] as nat);
      sig := Charge(offset + size);
    }

    method CaseMload() returns (sig: Signal)
      requires Ready(1, 1) && runGas == 3 && env.cut
      modifies this`pc, this`ioGas, this`runGas, this`newMemSize, this`mem, stack
      ensures 0 <= spp <= STACK_LIMIT
      ensures Agrees(sig, At(spp), Load(env, old(At(sp))))
    {
      LoadMeans(env, At(sp), stack[spp + 1..]);
      hide GasForMem, Load, Pay;
      :- ChargeAccess(32);
      var from := stack[sp] as nat % CAST_LIMIT;  // (unsigned)m_SP[0]
      Put(WordOf(mem[from..from + 32]));
      pc := pc + 1;
      return Go;
    }

    /** MSTORE and MSTORE8: data goes to the offset on top of the stack. */
    method CaseMstore(data: Bytes) returns (sig: Signal)
      requires Ready(2, 0) && runGas == 3 && 0 < |data| <= 32 && env.cut
      modifies this`pc, this`ioGas, this`runGas, this`newMemSize, this`mem
      ensures 0 <= spp <= STACK_LIMIT
      ensures Agrees(sig, At(spp), Store(env, old(At(sp)), data))
    {
      StoreMeans(env, At(sp), data, stack[spp..]);
      hide GasForMem, Store, Pay, Write;
      :- ChargeAccess(|data| as uint64);
      mem := Write(mem, stack[sp] as nat % CAST_LIMIT, data);
      pc := pc + 1;
      return Go;
    }

    method CaseSha3() returns (sig: Signal)
      requires Ready(2, 1)
      modifies this`pc, this`ioGas, this`runGas, this`newMemSize, this`mem, stack
      ensures 0 <= spp <= STACK_LIMIT
      ensures Agrees(sig, At(spp), Hash(old(At(sp))))
    {
      hide GasForMem;
      var offset, size := stack[sp] as nat, stack[sp + 1] as nat;
      assert stack[sp..][2..] == stack[spp + 1..];
      :- ChargeRange(30 + (size + 31) / 32 * 6, stack[sp], stack[sp + 1]);
      ghost var p := At(sp);
      Put(WordOf(Sha3(Read(mem, offset, size))));
      pc := pc + 1;
      assert At(spp) == p.(pc := p.pc + 1, stack := [WordOf(Sha3(Read(p.mem, offset, size)))] + p.stack[2..]);
      return Go;
    }

    /** Copies data from an index on to memory, zeros past its end. */
    method CopyDataToMemory(data: Bytes, to: Word, from: Word, size: Word)
      requires |data| < SIZE_LIMIT && size as nat <= MAX63
      requires size > 0 ==> to as nat + size as nat <= MAX63 && to as nat + size as nat <= |mem|
      modifies this`mem
      ensures mem == Write(old(mem), to as nat, Padded(data, from as nat, size as nat))
    {
      var offset, index, n, sizeToBeCopied := CopyBounds(data, to, from, size);
      mem := Overwrite(mem, data, offset, index, n, sizeToBeCopied);
      CopiedInParts(old(mem), data, to as nat, from as nat, n, sizeToBeCopied);
    }

    /** What the copies charge, runGas holding the fee without the part per
        word. */
    method ChargeCopy(to: Word, size: Word) returns (sig: Signal)
      requires 0 <= sp <= stack.Length && Wealth(At(sp)) <= MAX63 && copyMemSize == 0 && 0 < runGas <= 700
      modifies this`ioGas, this`runGas, this`newMemSize, this`copyMemSize, this`mem
      ensures sig == Go || sig == Throw(OutOfGas)
      ensures Pay(old(At(sp)), old(runGas) as nat + 3 * Words(size as nat), MemNeed(to as nat, size as nat))
           == if sig.Go? then Running(At(sp)) else Failed(OutOfGas)
      ensures sig.Go? ==> size as nat <= MAX63
      ensures sig.Go? && size > 0 ==> to as nat + size as nat <= MAX63 && to as nat + size as nat <= |mem|
    {
      hide GasForMem;
      OutOfReach(At(sp), runGas as nat + 3 * Words(size as nat), MemNeed(to as nat, size as nat));
      copyMemSize :- ToInt63(size as nat);
      sig := ChargeRange(runGas as nat, to, size);
    }

    /** What the copies share. */
    method CopyOut(data: Bytes, to: Word, from: Word, size: Word) returns (sig: Signal)
      requires 0 <= sp <= stack.Length && Wealth(At(sp)) <= MAX63 && copyMemSize == 0 && 0 < runGas <= 700
      requires 0 <= spp <= stack.Length && |data| < SIZE_LIMIT && pc as nat < CODE_LIMIT + EXTRA_BYTES
      modifies this`pc, this`ioGas, this`runGas, this`newMemSize, this`copyMemSize, this`mem
      ensures Agrees(sig, At(spp), CopyFrom(old(At(sp)), old(runGas) as nat, data, to, from, size, stack[spp..]))
    {
      CopyFromMeans(At(sp), runGas as nat, data, to, from, size, stack[spp..]);
      hide GasForMem, CopyFrom, Pay, Write, Padded, Words, MemNeed;
      :- ChargeCopy(to, size);
      CopyDataToMemory(data, to, from, size);
      pc := pc + 1;
      return Go;
    }

    /** The four copies; EXTCODECOPY's operands follow an address. */
    method CaseCopy() returns (sig: Signal)
      requires IsCopy(op) && Ready(Args(op), 0) && runGas as nat == TierGas(op)
      requires |userCode| < CODE_LIMIT && |returnData| < SIZE_LIMIT && env.Addressable()
      modifies this`pc, this`ioGas, this`runGas, this`newMemSize, this`copyMemSize, this`mem
      ensures 0 <= spp <= STACK_LIMIT
      ensures Agrees(sig, At(spp), Copy(env, userCode, op, old(At(sp))))
    {
      hide GasForMem, CopyFrom;
      var data := CopySource(env, userCode, op, At(sp));
      assert At(sp).stack[Args(op)..] == stack[spp..];
      if op == RETURNDATACOPY && |data| < stack[sp + 1] as nat + stack[sp + 2] as nat { return Throw(BufferOverrun); }
      if op == EXTCODECOPY { runGas := if env.rev >= TANGERINE_WHISTLE then 700 else 20; }
      var k := sp + CopyBase(op);
      sig := CopyOut(data, stack[k], stack[k + 1], stack[k + 2]);
    }

    method CaseSstore() returns (sig: Signal)
      requires Ready(2, 0)
      modifies this`pc, this`ioGas, this`runGas, this`history
      ensures 0 <= spp <= STACK_LIMIT
      ensures Agrees(sig, At(spp), SetStorage(env, old(At(sp))))
    {
      hide GasForMem;
      if env.isStatic { return Throw(DisallowedStateChange); }
      var key, value := stack[sp], stack[sp + 1];
      runGas := if env.storage(key, history) == 0 && value != 0 then 20000 else 5000;
      PayNothing(At(sp), runGas as nat);
      :- UpdateIOGas();
      history := history + [Stored(key, value)];
      pc := pc + 1;
      assert stack[spp..] == stack[sp..][2..];
      return Go;
    }

    /** The rest of a LOG case, its topics having been read off the stack. */
    method LogOut(topics: seq<Word>, ghost s: State) returns (sig: Signal)
      requires IsLog(op) && Ready(Args(op), 0) && !env.isStatic
      requires s == At(sp) && topics == s.stack[2..Args(op)] && stack[spp..] == s.stack[Args(op)..]
      modifies this`pc, this`ioGas, this`runGas, this`newMemSize, this`mem, this`history
      ensures Agrees(sig, At(spp), Log(env, op, s))
    {
      LogMeans(env, op, s);
      hide GasForMem, Log, Pay, Args;
      var offset, size := stack[sp] as nat, stack[sp + 1] as nat;
      :- ChargeRange(375 + 375 * (op - LOG0) as nat + 8 * size, stack[sp], stack[sp + 1]);
      history := history + [Logged(Read(mem, offset, size), topics)];
      pc := pc + 1;
      return Go;
    }

    method CaseLog() returns (sig: Signal)
      requires IsLog(op) && Ready(Args(op), 0)
      modifies this`pc, this`ioGas, this`runGas, this`newMemSize, this`mem, this`history
      ensures 0 <= spp <= STACK_LIMIT
      ensures Agrees(sig, At(spp), Log(env, op, old(At(sp))))
    {
      if env.isStatic { return Throw(DisallowedStateChange); }
      var n := (op - LOG0) as nat;
      SliceOf(stack[..], sp, 2, n + 2);
      assert stack[..][sp..] == stack[sp..] && stack[..][spp..] == stack[spp..];
      sig := LogOut(stack[sp + 2..spp], At(sp));
    }

    /** RETURN and REVERT. */
    method CaseReturn() returns (sig: Signal)
      requires (op == RETURN || op == REVERT) && Ready(2, 0) && runGas == 0
      modifies this`ioGas, this`runGas, this`newMemSize, this`mem
      ensures 0 <= spp <= STACK_LIMIT
      ensures Agrees(sig, At(spp), Leave(op, old(At(sp))))
    {
      hide GasForMem;
      var offset, size := stack[sp] as nat, stack[sp + 1] as nat;
      :- ChargeRange(runGas as nat, stack[sp], stack[sp + 1]);
      var output := Read(mem, offset, size);
      return if op == RETURN then Stop(output) else Revert(output);
    }

    method CaseSuicide() returns (sig: Signal)
      requires Ready(1, 0)
      modifies this`ioGas, this`runGas, this`history
      ensures 0 <= spp <= STACK_LIMIT
      ensures Agrees(sig, At(spp), SelfDestruct(env, old(At(sp))))
    {
      hide GasForMem;
      if env.isStatic { return Throw(DisallowedStateChange); }
      runGas := if env.rev >= TANGERINE_WHISTLE then 5000 else 0;
      var heir := AddressOf(stack[sp]);
      if env.balance(history) > 0 || env.rev < SPURIOUS_DRAGON {
        if env.rev >= TANGERINE_WHISTLE && !env.exists_(heir, history) { runGas := runGas + 25000; }
      }
      PayNothing(At(sp), runGas as nat);
      :- UpdateIOGas();
      history := history + [Destroyed(heir)];
      return Stop([]);
    }

    /** caseCreate after its charges. */
    method SpawnCreate()
      requires stack.Length == STACK_LIMIT && 0 <= sp && spp == sp + 2 < STACK_LIMIT
      requires env.Honest() && pc as nat < CODE_LIMIT + EXTRA_BYTES
      requires MemNeed(stack[sp + 1] as nat, stack[sp + 2] as nat) <= |mem|
      modifies this`pc, this`ioGas, this`returnData, this`history, stack
      ensures At(spp) == CreateFrom(env, old(At(sp)))
    {
      var endowment := stack[sp];
      var offset, size := stack[sp + 1] as nat, stack[sp + 2] as nat;
      assert stack[sp..][3..] == stack[spp + 1..];
      returnData := [];
      if env.balance(history) >= endowment && env.depth < DEPTH_LIMIT {
        var gas := ioGas;
        if env.rev >= TANGERINE_WHISTLE { gas := gas - gas / 64; }
        var msg := Message(KindCreate, false, env.depth + 1, gas as nat, 0, env.self, endowment,
                           Read(mem, offset, size));
        var result := env.call(msg, history);
        history := history + [Called(msg)];
        Put(if result.success then result.address else 0);
        returnData := result.output;
        ioGas := ioGas - (gas - result.gasLeft as uint64);
      } else {
        Put(0);
      }
      pc := pc + 1;
    }

    method CaseCreate() returns (sig: Signal)
      requires Ready(3, 1) && env.Honest()
      modifies this`pc, this`ioGas, this`runGas, this`newMemSize, this`mem, this`returnData, this`history, stack
      ensures 0 <= spp <= STACK_LIMIT
      ensures Agrees(sig, At(spp), Create(env, old(At(sp))))
    {
      hide GasForMem;
      if env.isStatic { return Throw(DisallowedStateChange); }
      :- ChargeRange(32000, stack[sp + 1], stack[sp + 2]);
      SpawnCreate();
      return Go;
    }

    /** Base cost, new account and value transfer of a call. */
    method CallBase()
      requires IsCall(op) && 0 <= sp && sp + Args(op) <= stack.Length
      modifies this`runGas
      ensures runGas as nat == CallFee(env, op, stack[sp..], history) <= 35000
    {
      runGas := if env.rev >= TANGERINE_WHISTLE then 700 else 40;
      if op == CALL && !env.exists_(AddressOf(stack[sp + 1]), history) {
        if stack[sp + 2] > 0 || env.rev < SPURIOUS_DRAGON { runGas := runGas + 25000; }
      }
      if (op == CALL || op == CALLCODE) && stack[sp + 2] > 0 { runGas := runGas + 9000; }
    }

    /** The larger of the memory needs of a call's input and output. */
    method CallNeed63() returns (sig: Signal, need: uint64)
      requires IsCall(op) && 0 <= sp && sp + Args(op) <= stack.Length
      ensures sig == if CallNeed(op, stack[sp..]) > MAX63 then Throw(OutOfGas) else Go
      ensures sig.Go? ==> need as nat == CallNeed(op, stack[sp..])
    {
      need := 0;
      var sizesOffset := if op == CALL || op == CALLCODE then 3 else 2;
      var inputMemNeed, outputMemNeed;
      inputMemNeed :- MemNeed63(stack[sp + sizesOffset], stack[sp + sizesOffset + 1]);
      outputMemNeed :- MemNeed63(stack[sp + sizesOffset + 2], stack[sp + sizesOffset + 3]);
      return Go, if inputMemNeed < outputMemNeed then outputMemNeed else inputMemNeed;
    }

    /** The static cost of a call. */
    method ChargeCall() returns (sig: Signal)
      requires IsCall(op) && Ready(Args(op), 1)
      modifies this`ioGas, this`runGas, this`newMemSize, this`mem
      ensures sig == Go || sig == Throw(OutOfGas)
      ensures Pay(old(At(sp)), CallFee(env, op, stack[sp..], history), CallNeed(op, stack[sp..]))
           == if sig.Go? then Running(At(sp)) else Failed(OutOfGas)
    {
      hide GasForMem;
      OutOfReach(At(sp), CallFee(env, op, stack[sp..], history), CallNeed(op, stack[sp..]));
      hide CallFee;
      hide CallNeed;
      CallBase();
      var need;
      need :- CallNeed63();
      sig := Charge(need);
    }

    /** The gas given to the callee leaves this machine's counter. */
    method ChargeCallGas() returns (sig: Signal, gas: uint64)
      requires stack.Length == STACK_LIMIT && 0 <= sp < STACK_LIMIT && ioGas as nat <= MAX63
      modifies this`ioGas, this`runGas
      ensures var given := CallGas(env, stack[sp], old(ioGas) as nat);
        && sig == (if old(ioGas) as nat < given then Throw(OutOfGas) else Go)
        && (sig.Go? ==> gas as nat == given && ioGas as nat == old(ioGas) as nat - given)
    {
      gas := 0;
      var callGas := stack[sp] as nat;
      if env.rev >= TANGERINE_WHISTLE {
        var maxAllowedCallGas := ioGas - ioGas / 64;
        if callGas > maxAllowedCallGas as nat { callGas := maxAllowedCallGas as nat; }
      }
      gas :- ToInt63(callGas);
      runGas := gas;
      :- UpdateIOGas();
      return Go, gas;
    }

    /** Make the call and take back what it returns. */
    method Forward(msg: Message, outOff: nat, outSize: nat)
      requires stack.Length == STACK_LIMIT && 0 <= spp < STACK_LIMIT
      requires env.Honest() && pc as nat < CODE_LIMIT + EXTRA_BYTES
      requires ioGas as nat + msg.gas < SIZE_LIMIT && (outSize > 0 ==> outOff + outSize <= |mem|)
      modifies this`pc, this`ioGas, this`mem, this`returnData, this`history, stack
      ensures var reply := env.call(msg, old(history));
        At(spp) == State(old(pc) as nat + 1, [Flag(reply.success)] + old(stack[spp + 1..]),
                         Write(old(mem), outOff, Fitting(reply.output, outSize)),
                         old(ioGas) as nat + reply.gasLeft, reply.output, old(history) + [Called(msg)])
    {
      var result := env.call(msg, history);
      history := history + [Called(msg)];
      returnData := result.output;
      mem := Write(mem, outOff, Fitting(result.output, outSize));
      Put(Flag(result.success));
      ioGas := ioGas + result.gasLeft as uint64;
      pc := pc + 1;
    }

    /** No call is made: zero, the gas set aside for it comes back, and the
        return data has been cleared. */
    method Refuse(gas: nat)
      requires stack.Length == STACK_LIMIT && 0 <= spp < STACK_LIMIT
      requires pc as nat < CODE_LIMIT + EXTRA_BYTES && ioGas as nat + gas < SIZE_LIMIT
      modifies this`pc, this`ioGas, this`returnData, stack
      ensures At(spp) == State(old(pc) as nat + 1, [0 as Word] + old(stack[spp + 1..]), mem,
                               old(ioGas) as nat + gas, [], history)
    {
      returnData := [];
      Put(0);
      ioGas := ioGas + gas as uint64;
      pc := pc + 1;
    }

    /** caseCall once the callee's gas has been set aside. */
    method MakeCall(msg: Message, refused: bool, outOff: nat, outSize: nat)
      requires stack.Length == STACK_LIMIT && 0 <= spp < STACK_LIMIT
      requires env.Honest() && pc as nat < CODE_LIMIT + EXTRA_BYTES
      requires ioGas as nat + msg.gas < SIZE_LIMIT && (outSize > 0 ==> outOff + outSize <= |mem|)
      modifies this`pc, this`ioGas, this`mem, this`returnData, this`history, stack
      ensures At(spp) == AfterCall(env, old(pc) as nat, old(stack[spp + 1..]), old(mem), old(ioGas) as nat,
                                   old(history), msg, refused, outOff, outSize)
    {
      if refused { Refuse(msg.gas); } else { Forward(msg, outOff, outSize); }
    }

    /** caseCallSetup once the callee's gas has been set aside. */
    method SetupCall(gas: nat) returns (msg: Message, outOff: nat, outSize: nat, ok: bool)
      requires IsCall(op) && stack.Length == STACK_LIMIT && 0 <= sp && sp + Args(op) <= STACK_LIMIT
      requires CallNeed(op, stack[sp..]) <= |mem|
      ensures msg == CallMessage(env, op, stack[sp..], gas, CallInput(op, stack[sp..], mem))
      ensures [outOff, outSize] == CallRanges(op, stack[sp..])[2..]
      ensures ok <==> !Refused(env, op, stack[sp..], history)
    {
      var kind := if op == CALLCODE then KindCallCode else if op == DELEGATECALL then KindDelegateCall else KindCall;
      var haveValueArg := op == CALL || op == CALLCODE;
      var sizesOffset := if haveValueArg then 3 else 2;
      var inputOffset, inputSize := stack[sp + sizesOffset], stack[sp + sizesOffset + 1];
      outOff, outSize := stack[sp + sizesOffset + 2] as nat, stack[sp + sizesOffset + 3] as nat;
      var sender, value: Word, stipend, balanceOk := env.self, 0, 0, true;
      if haveValueArg {
        if stack[sp + 2] > 0 {
          value, stipend := stack[sp + 2], 2300;
          balanceOk := env.balance(history) >= value;
        }
      } else if op == DELEGATECALL {
        sender, value := env.sender, env.value;
      }
      msg := Message(kind, op == STATICCALL || env.isStatic, 0, gas + stipend, AddressOf(stack[sp + 1]),
                     sender, value, Read(mem, inputOffset as nat, inputSize as nat));
      ok := balanceOk && env.depth < DEPTH_LIMIT;
    }

    /** caseCall from caseCallSetup on; `s` still has the callee's gas. */
    method SendCall(gas: nat, ghost s: State)
      requires IsCall(op) && stack.Length == STACK_LIMIT
      requires 0 <= sp && sp + Args(op) <= STACK_LIMIT && spp == sp + Args(op) - 1
      requires env.Honest() && pc as nat < CODE_LIMIT + EXTRA_BYTES && ioGas as nat + gas <= MAX63
      requires s == At(sp).(gas := ioGas as nat + gas) && CallNeed(op, s.stack) <= |s.mem|
      modifies this`pc, this`ioGas, this`mem, this`returnData, this`history, stack
      ensures At(spp) == CallWith(env, op, s, gas)
    {
      CallRoom(op, s.stack, |s.mem|);
      hide Args, CallNeed, CallRanges, CallMessage, CallInput, Refused, AfterCall;
      var msg, outOff, outSize, ok := SetupCall(gas);
      assert s.stack[Args(op)..] == stack[spp + 1..];
      MakeCall(msg, !ok, outOff, outSize);
    }

    /** caseCall after its static charges, in the state they leave. */
    method CallOut(ghost s: State) returns (sig: Signal)
      requires IsCall(op) && stack.Length == STACK_LIMIT
      requires 0 <= sp && sp + Args(op) <= STACK_LIMIT && spp == sp + Args(op) - 1
      requires env.Honest() && pc as nat < CODE_LIMIT + EXTRA_BYTES && ioGas as nat <= MAX63
      requires s == At(sp) && CallNeed(op, s.stack) <= |s.mem|
      modifies this`pc, this`ioGas, this`runGas, this`mem, this`returnData, this`history, stack
      ensures Agrees(sig, At(spp), CallFrom(env, op, s))
    {
      hide CallNeed, CallGas, CallWith;
      var gas;
      gas :- ChargeCallGas();
      SendCall(gas as nat, s);
      return Go;
    }

    method CaseCall() returns (sig: Signal)
      requires IsCall(op) && Ready(Args(op), 1) && env.Honest()
      modifies this`pc, this`ioGas, this`runGas, this`newMemSize, this`mem, this`returnData, this`history, stack
      ensures 0 <= spp <= STACK_LIMIT
      ensures Agrees(sig, At(spp), Call(env, op, old(At(sp))))
    {
      hide GasForMem;
      if op == CALL && env.isStatic && stack[sp + 2] != 0 { return Throw(DisallowedStateChange); }
      PaySpends(At(sp), CallFee(env, op, stack[sp..], history), CallNeed(op, stack[sp..]));
      :- ChargeCall();
      sig := CallOut(At(sp));
    }

    // The loop.

    /** The cases that only touch the stack. */
    method DispatchStack() returns (sig: Signal)
      requires Prepared() && Ready(Args(op), Rets(op)) && runGas as nat == TierGas(op)
      requires Reaches(userCode, 0, pc as nat) && Available(env.rev, op)
      requires op == ByteAt(userCode, pc as nat) && op == code[pc] && |env.input| < SIZE_LIMIT
      requires IsValue(op) || IsPush(op) || IsDup(op) || IsSwap(op)
            || op == POP || op == JUMPDEST || op == JUMP || op == JUMPI
      modifies this`pc, this`ioGas, this`runGas, stack
      ensures 0 <= spp <= STACK_LIMIT
      ensures Agrees(sig, At(spp), Execute(env, userCode, op, old(At(sp))))
    {
      Fetches(userCode, options, code, pc as nat);
      hide GasForMem;
      hide Pay;
      if IsValue(op) { sig := CaseValue(); }
      else if IsPush(op) { sig := CasePush(); }
      else if IsDup(op) { sig := CaseDup(); }
      else if IsSwap(op) { sig := CaseSwap(); }
      else if op == POP { sig := CasePop(); }
      else if op == JUMPDEST { sig := CaseJumpDest(); }
      else { sig := CaseJump(); }
    }

    /** The other cases. */
    method DispatchRest() returns (sig: Signal)
      requires Ready(Args(op), Rets(op)) && runGas as nat == TierGas(op)
      requires |userCode| < CODE_LIMIT && |returnData| < SIZE_LIMIT && env.Addressable() && env.Honest() && env.cut
      requires op == ByteAt(userCode, pc as nat) && Available(env.rev, op)
      requires !IsValue(op) && !IsPush(op) && !IsDup(op) && !IsSwap(op)
      requires op != POP && op != JUMPDEST && op != JUMP && op != JUMPI
      modifies this`pc, this`ioGas, this`runGas, this`newMemSize, this`copyMemSize, this`mem
      modifies this`returnData, this`history, stack
      ensures 0 <= spp <= STACK_LIMIT
      ensures Agrees(sig, At(spp), Execute(env, userCode, op, old(At(sp))))
    {
      hide GasForMem;
      hide Pay;
      if op == STOP { sig := UpdateIOGas(); return Stop([]); }
      else if op == MLOAD { sig := CaseMload(); }
      else if op == MSTORE { sig := CaseMstore(WordBytes(stack[sp + 1])); }
      else if op == MSTORE8 { sig := CaseMstore([(stack[sp + 1] % 256) as Byte]); }
      else if op == SHA3 { sig := CaseSha3(); }
      else if IsCopy(op) { sig := CaseCopy(); }
      else if op == SSTORE { sig := CaseSstore(); }
      else if IsLog(op) { sig := CaseLog(); }
      else if op == CREATE { sig := CaseCreate(); }
      else if IsCall(op) { sig := CaseCall(); }
      else if op == SUICIDE { sig := CaseSuicide(); }
      else { sig := CaseReturn(); }
    }

    /** What one of the interpreter's own opcodes in the code stands for. */
    lemma SyntheticStands(e: Env, user: Bytes, o: Options, now: Bytes, s: State)
      requires Rewritten(user, o, now) && Reaches(user, 0, s.pc) && s.pc < |now|
      requires IsSynthetic(now[s.pc]) && now[s.pc] != ByteAt(user, s.pc)
      requires Args(ByteAt(user, s.pc)) <= |s.stack|
      ensures var found, was := now[s.pc], ByteAt(user, s.pc);
        && !IsSynthetic(was) && Available(e.rev, was)
        && (found == PUSHC ==> IsPush(was) && Execute(e, user, was, s) == Push(user, s))
        && (found == JUMPC ==> was == JUMP && Execute(e, user, was, s) == Branch(user, was, s))
        && (found == JUMPCI ==> was == JUMPI && Execute(e, user, was, s) == Branch(user, was, s))
    {
      Fetches(user, o, now, s.pc);
      hide Push, Branch;
    }

    /** The interpreter's own opcodes. */
    method DispatchSynthetic(ghost s: State, ghost was: Byte) returns (sig: Signal)
      requires Prepared() && Ready(Args(op), Rets(op)) && runGas as nat == TierGas(op)
      requires s == At(sp) && InPlace(userCode, s) && was == ByteAt(userCode, s.pc) && PoolFits(pool)
      requires pc as nat < |code| && op == code[pc] != was && IsSynthetic(op) && Args(was) == Args(op)
      modifies this`pc, this`ioGas, this`runGas, stack
      ensures 0 <= spp <= STACK_LIMIT
      ensures !IsSynthetic(was) && Available(env.rev, was)
      ensures Agrees(sig, At(spp), Execute(env, userCode, was, s))
    {
      SyntheticStands(env, userCode, options, code, s);
      hide GasForMem, Pay, Execute, Push, Branch, Available;
      if op == PUSHC {
        LoadAt(userCode, options, code, s.pc);
        assert RewrittenAt(userCode, options, code, s.pc);
        sig := CasePushC();
      } else {
        assert stack[sp] == s.stack[0];
        sig := CaseJumpC();
      }
    }

    /** What the opcode fetched here and the user's opcode have to do with each
        other, as far as stack and gas go. */
    lemma FetchedLikeUser()
      requires Prepared() && Reaches(userCode, 0, pc as nat) && pc as nat < |code|
      ensures var found, was := code[pc], UserOp();
        if IsSynthetic(was) then found == INVALID && Args(found) == Rets(found) == 0
        else Args(found) == Args(was) && Rets(found) == Rets(was) && (IsSynthetic(found) || found == was)
    {
      Fetches(userCode, options, code, pc as nat);
      SameMetrics(UserOp());
    }

    /** The switch: the case for op does what the step of the user's code at pc
        does, its stack check having passed. */
    method Dispatch(ghost s: State) returns (sig: Signal)
      requires Prepared() && Ready(Args(op), Rets(op)) && runGas as nat == TierGas(op)
      requires s == At(sp) && InPlace(userCode, s) && PoolFits(pool) && env.cut
      requires env.Honest() && env.Addressable()
      requires |returnData| < SIZE_LIMIT && pc as nat < |code| && op == code[pc]
      modifies this`pc, this`ioGas, this`runGas, this`newMemSize, this`copyMemSize
      modifies this`mem, this`returnData, this`history, stack
      ensures 0 <= spp <= STACK_LIMIT
      ensures Agrees(sig, At(spp), Step(env, userCode, s))
    {
      FetchedLikeUser();
      SameMetrics(UserOp());
      hide GasForMem;
      hide Execute;
      hide Args;
      hide Rets;
      if IsSynthetic(op) {
        sig := DispatchSynthetic(s, ByteAt(userCode, s.pc));
      } else if !Available(env.rev, op) {
        return Throw(BadInstruction);
      } else if IsValue(op) || IsPush(op) || IsDup(op) || IsSwap(op)
             || op == POP || op == JUMPDEST || op == JUMP || op == JUMPI {
        sig := DispatchStack();
      } else {
        sig := DispatchRest();
      }
    }

    /** The signal and the machine's state are those of r. */
    ghost predicate Settles(sig: Signal, r: Status)
      reads this, stack
    {
      if sig.Throw? then r == Failed(sig.error)
      else 0 <= spp <= stack.Length && Agrees(sig, At(spp), r)
    }

    /** The checks a step makes before its instruction is looked at. */
    lemma StepChecks(e: Env, user: Bytes, s: State)
      ensures var op, n := ByteAt(user, s.pc), |s.stack|;
        && (IsSynthetic(op) ==> Step(e, user, s) == Failed(BadInstruction))
        && (!IsSynthetic(op) && n < Args(op) ==> Step(e, user, s) == Failed(StackUnderflow))
        && (!IsSynthetic(op) && Args(op) <= n && n - Args(op) + Rets(op) > STACK_LIMIT ==>
             Step(e, user, s) == Failed(OutOfStack))
    {
      hide Execute, Args, Rets;
    }

    /** One round of the loop does exactly one step of the user's code. */
    method InterpretOne(ghost s: State) returns (sig: Signal)
      requires Valid() && env.Honest() && env.Addressable() && s == At(spp)
      modifies this`op, this`sp, this`spp, this`pc, this`ioGas, this`runGas, this`newMemSize, this`copyMemSize
      modifies this`mem, this`returnData, this`history, stack
      ensures Settles(sig, Step(env, userCode, s))
    {
      ReachesForward(userCode, 0, pc as nat);
      FetchedLikeUser();
      StepChecks(env, userCode, s);
      hide GasForMem, Step, Args, Rets, Rewritten, IsJumpTable, PoolFits;
      :- FetchInstruction();
      sig := Dispatch(s);
    }

    /** A step that goes on leads to a valid state again, with less gas. */
    lemma StaysValid(s: State)
      requires Prepared() && PoolFits(pool) && env.cut && 0 <= spp <= STACK_LIMIT
      requires env.Honest() && env.Addressable()
      requires Reaches(userCode, 0, s.pc) && Wealth(s) <= MAX63 && |s.returnData| < SIZE_LIMIT
      requires Step(env, userCode, s) == Running(At(spp))
      ensures Valid() && ioGas as nat < s.gas
    {
      StepSpends(env, userCode, s);
      StepKeepsPlace(env, userCode, s);
      StepReturnData(env, userCode, s);
    }

    /** The loop itself; it ends because every round that goes on lowers the
        gas. */
    method Interpret() returns (r: Status)
      requires Valid() && env.Honest() && env.Addressable()
      modifies this`op, this`sp, this`spp, this`pc, this`ioGas, this`runGas, this`newMemSize, this`copyMemSize
      modifies this`mem, this`returnData, this`history, stack
      ensures r == Run(env, userCode, old(At(spp)))
    {
      ghost var start := At(spp);
      while true
        invariant Valid()
        invariant Run(env, userCode, At(spp)) == Run(env, userCode, start)
        decreases ioGas
      {
        hide GasForMem;
        hide Step;
        ghost var s := At(spp);
        var sig := InterpretOne(s);
        match sig {
          case Stop(output) => return Ended(output, ioGas as nat, history);
          case Revert(output) => return Reverted(output, ioGas as nat);
          case Throw(error) => return Failed(error);
          case Go => StaysValid(s);
        }
      }
    }

    /** A machine for one message, its code not yet prepared. */
    constructor (e: Env, o: Options, c: Bytes)
      ensures env == e && options == o && userCode == c && fresh(stack) && stack.Length == STACK_LIMIT
      ensures jumpDests == [] && pool == [] && mem == [] && returnData == [] && history == []
    {
      env, options, userCode := e, o, c;
      stack := new Word[STACK_LIMIT];
      code, pool, jumpDests := [], [], [];
      op, pc, sp, spp := STOP, 0, STACK_LIMIT, STACK_LIMIT;
      mem, returnData, history := [], [], [];
      ioGas, runGas, newMemSize, copyMemSize := 0, 0, 0, 0;
    }
  }

  /** exec on a new machine: whatever the options, the rewritten code with its
      pool, its unchecked jumps and its 64-bit arithmetic ends exactly as the
      user's code does step by step, for all the gas a message can carry; with
      less than CAST_BUDGET its 32-bit casts make no difference either. */
  method Exec(env: Env, options: Options, code: Bytes, gas: uint64) returns (r: Status)
    requires env.Honest() && env.Addressable()
    requires |code| < CODE_LIMIT && PoolFits(PoolOf(code, options))
    requires gas as nat <= MAX63
    ensures r == Run(env.(cut := true), code, State(0, [], [], gas as nat, [], []))
    ensures gas as nat < CAST_BUDGET ==>
              r == Run(env.(cut := false), code, State(0, [], [], gas as nat, [], []))
  {
    var vm := new VM(env.(cut := true), options, code);
    vm.ioGas := gas;
    vm.pc := 0;
    vm.sp, vm.spp := STACK_LIMIT, STACK_LIMIT;
    vm.Optimize();
    ghost var s := State(0, [], [], gas as nat, [], []);
    assert vm.At(vm.spp) == s;
    StartInPlace(code, s);
    if gas as nat < CAST_BUDGET { RunUncut(env, code, s); }
    r := vm.Interpret();
  }
}
