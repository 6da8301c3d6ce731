/** The code the interpreter executes instead of the user's: what the passes
    of libevm/VMOpt.cpp must leave at every instruction, and why a run cannot
    tell the difference. */
module VmCode {
  import opened Bytes
  import opened Evm


  /** EVM_USE_CONSTANT_POOL and EVM_REPLACE_CONST_JUMP. */
  datatype Options = Options(useConstantPool: bool, replaceConstJump: bool)

  const EXTRA_BYTES := 33
  const POOL_LIMIT := 0x1_0000

  /** Pushes of more than five bytes go to the constant pool. */
  predicate IsLong(op: Byte) { PushSize(op) > 5 }

  // Instruction boundaries.

  lemma {:induction false} ReachesForward(code: Bytes, from: nat, p: nat)
    requires Reaches(code, from, p)
    ensures from <= p
    ensures p <= from || p <= |code| + 32
    decreases |code| - from
  {
    if from != p { ReachesForward(code, Next(code, from), p); }
  }

  lemma {:induction false} ReachesNext(code: Bytes, from: nat, p: nat)
    requires Reaches(code, from, p) && p < |code|
    ensures Reaches(code, from, Next(code, p))
    decreases |code| - from
  {
    if from != p { ReachesNext(code, Next(code, from), p); }
    else { assert Reaches(code, Next(code, p), Next(code, p)); }
  }

  /** Instructions do not overlap. */
  lemma {:induction false} ReachesApart(code: Bytes, from: nat, p: nat, q: nat)
    requires Reaches(code, from, p) && Reaches(code, from, q) && p < q
    ensures p < |code| && Next(code, p) <= q
    decreases |code| - from
  {
    if from == p {
      ReachesForward(code, Next(code, p), q);
    } else {
      ReachesForward(code, Next(code, from), p);
      ReachesApart(code, Next(code, from), p, q);
    }
  }

  // The first pass.

  /** User code has the interpreter's own opcodes replaced by INVALID. */
  function Masked(code: Bytes, p: nat): Byte {
    if IsSynthetic(ByteAt(code, p)) && Reaches(code, 0, p) then INVALID else ByteAt(code, p)
  }

  ghost predicate Increasing(s: seq<nat>) { forall i, j | 0 <= i < j < |s| :: s[i] < s[j] }

  /** The jump table lists exactly the jump destinations, in order, so that
      the binary search in it finds exactly them. */
  ghost predicate IsJumpTable(code: Bytes, dests: seq<nat>) {
    && Increasing(dests)
    && (forall p: nat :: p in dests <==> IsJumpDest(code, p))
  }

  // The second pass.

  /** The constant pushed by the instruction just before the one at p, if that
      instruction is a push. */
  function Before(code: Bytes, from: nat, last: Option<Word>, p: nat): Option<Word>
    requires Reaches(code, from, p)
    decreases |code| - from
  {
    if from == p then last
    else Before(code, Next(code, from), if IsPush(code[from]) then Some(PushValue(code, from)) else None, p)
  }

  /** The constants of the long pushes from `from` up to p, in order. */
  function Constants(code: Bytes, from: nat, p: nat): seq<Word>
    requires Reaches(code, from, p)
    decreases |code| - from
  {
    if from == p then []
    else (if IsLong(code[from]) then [PushValue(code, from)] else []) + Constants(code, Next(code, from), p)
  }

  lemma {:induction false} BeforeNext(code: Bytes, from: nat, last: Option<Word>, p: nat)
    requires Reaches(code, from, p) && p < |code|
    ensures Reaches(code, from, Next(code, p))
    ensures Before(code, from, last, Next(code, p)) == if IsPush(code[p]) then Some(PushValue(code, p)) else None
    decreases |code| - from
  {
    ReachesNext(code, from, p);
    ReachesForward(code, from, p);
    if from == p { assert Before(code, Next(code, p), last, Next(code, p)) == last; }
    else {
      BeforeNext(code, Next(code, from), if IsPush(code[from]) then Some(PushValue(code, from)) else None, p);
    }
  }

  lemma {:induction false} ConstantsNext(code: Bytes, from: nat, p: nat)
    requires Reaches(code, from, p) && p < |code|
    ensures Reaches(code, from, Next(code, p))
    ensures Constants(code, from, Next(code, p))
         == Constants(code, from, p) + if IsLong(code[p]) then [PushValue(code, p)] else []
    decreases |code| - from
  {
    ReachesNext(code, from, p);
    ReachesForward(code, from, p);
    if from != p { ConstantsNext(code, Next(code, from), p); }
  }

  /** The opcode to execute at p: a jump to a constant destination that is in
      the jump table needs no check when it is run. */
  function JumpOp(code: Bytes, o: Options, p: nat): Byte
    requires Reaches(code, 0, p)
  {
    var was := Masked(code, p);
    var c := Before(code, 0, None, p);
    if o.replaceConstJump && c.Some? && IsJumpDest(code, c.value as nat) then
      if was == JUMP then JUMPC else if was == JUMPI then JUMPCI else was
    else was
  }

  predicate IsPooled(o: Options, op: Byte) { o.useConstantPool && IsLong(op) }

  /** What `now` must hold for the instruction at p: a long push becomes a load
      of its constant, with a two-byte pool offset and the number of push
      bytes still to be skipped; everything else keeps its bytes, up to the
      opcode of a constant jump. */
  ghost predicate RewrittenAt(code: Bytes, o: Options, now: Bytes, p: nat)
    requires Reaches(code, 0, p)
  {
    var n := PushSize(ByteAt(code, p));
    && p + n < |now|
    && (if IsPooled(o, ByteAt(code, p)) then
          var k := |Constants(code, 0, p)| % POOL_LIMIT;
          && now[p] == PUSHC
          && now[p + 1] as nat * 256 + now[p + 2] as nat == k
          && now[p + 3] as nat == n - 2
        else
          && now[p] == JumpOp(code, o, p)
          && (forall i | p < i <= p + n :: now[i] == ByteAt(code, i)))
  }

  /** The first instruction boundary that is not inside the code. */
  function End(code: Bytes, from: nat): (p: nat)
    ensures Reaches(code, from, p) && p >= |code|
    decreases |code| - from
  {
    if from >= |code| then from else End(code, Next(code, from))
  }

  /** The pool: the constants of all long pushes, in order of position. */
  function PoolOf(code: Bytes, o: Options): seq<Word> {
    if o.useConstantPool then Constants(code, 0, End(code, 0)) else []
  }

  /** The code the two passes leave. */
  ghost predicate Rewritten(code: Bytes, o: Options, now: Bytes) {
    && |now| == |code| + EXTRA_BYTES
    && (forall p: nat | Reaches(code, 0, p) :: RewrittenAt(code, o, now, p))
  }

  /** The opcode the interpreter finds at an instruction of the user's code. */
  lemma Fetches(code: Bytes, o: Options, now: Bytes, p: nat)
    requires Rewritten(code, o, now) && Reaches(code, 0, p)
    ensures p < |now|
    ensures var was := ByteAt(code, p);
      if IsPooled(o, was) then now[p] == PUSHC && Next(code, p) <= |now|
      else if IsSynthetic(was) then now[p] == INVALID
      else if now[p] == was then
        Next(code, p) <= |now| && forall i | p < i < Next(code, p) :: now[i] == ByteAt(code, i)
      else
        && ((now[p] == JUMPC && was == JUMP) || (now[p] == JUMPCI && was == JUMPI))
        && var c := Before(code, 0, None, p);
        c.Some? && IsJumpDest(code, c.value as nat)
  {
    assert RewrittenAt(code, o, now, p);
  }

  /** The stack and gas metrics of the interpreter's own opcodes are those of
      the opcodes they replace. */
  lemma SameMetrics(op: Byte)
    ensures IsPush(op) ==> Args(op) == Args(PUSHC) == 0 && Rets(op) == Rets(PUSHC) == 1
    ensures IsPush(op) ==> TierGas(op) == TierGas(PUSHC) == 3
    ensures Args(JUMPC) == Args(JUMP) && Args(JUMPCI) == Args(JUMPI)
    ensures Rets(JUMPC) == Rets(JUMP) && Rets(JUMPCI) == Rets(JUMPI)
    ensures TierGas(JUMPC) == TierGas(JUMP) && TierGas(JUMPCI) == TierGas(JUMPI)
  {
  }

  // What a run sees.

  /** A jump right after a push sees that push's constant on top. */
  ghost predicate InPlace(code: Bytes, s: State) {
    && Reaches(code, 0, s.pc)
    && (ByteAt(code, s.pc) == JUMP || ByteAt(code, s.pc) == JUMPI ==>
          var c := Before(code, 0, None, s.pc);
          c.Some? ==> s.stack != [] && s.stack[0] == c.value)
  }

  lemma StartInPlace(code: Bytes, s: State)
    requires s.pc == 0
    ensures InPlace(code, s)
  {
    assert Reaches(code, 0, 0);
  }

  /** A step either goes on to the next instruction, having pushed the constant
      if it was a push, or lands on a JUMPDEST. */
  ghost predicate Moves(code: Bytes, s: State, r: Status) {
    r.Running? ==>
      && (IsJumpDest(code, r.state.pc) || r.state.pc == Next(code, s.pc))
      && (IsPush(ByteAt(code, s.pc)) ==>
            r.state.pc == Next(code, s.pc) && r.state.stack == [PushValue(code, s.pc)] + s.stack)
  }

  /** It leaves the return data alone, or what it leaves can be addressed. */
  ghost predicate Holds(s: State, r: Status) {
    r.Running? ==> r.state.returnData == s.returnData || |r.state.returnData| < SIZE_LIMIT
  }

  lemma StackMoves(e: Env, code: Bytes, op: Byte, s: State)
    requires Available(e.rev, op) && op == ByteAt(code, s.pc) && Args(op) <= |s.stack|
    requires IsValue(op) || IsPush(op) || IsDup(op) || IsSwap(op)
          || op == POP || op == JUMPDEST || op == JUMP || op == JUMPI
    ensures var r := Execute(e, code, op, s); Moves(code, s, r) && Holds(s, r)
  {
    hide GasForMem, Grown, ValueFee, Value, PushValue;
  }

  lemma MemoryMoves(e: Env, code: Bytes, op: Byte, s: State)
    requires Available(e.rev, op) && op == ByteAt(code, s.pc) && Args(op) <= |s.stack|
    requires op == MLOAD || op == MSTORE || op == MSTORE8 || op == SHA3 || IsCopy(op) || op == SSTORE || IsLog(op)
    ensures var r := Execute(e, code, op, s); Moves(code, s, r) && Holds(s, r)
  {
    hide GasForMem, Grown, Words, MemNeed, Padded, Write, CopySource;
  }

  lemma CallMoves(e: Env, code: Bytes, op: Byte, s: State)
    requires Available(e.rev, op) && op == ByteAt(code, s.pc) && Args(op) <= |s.stack|
    requires op == CREATE || IsCall(op)
    ensures var r := Execute(e, code, op, s); Moves(code, s, r) && (e.Addressable() ==> Holds(s, r))
  {
    hide GasForMem, Grown, Words, MemNeed, Write, CallMessage, CallGas, CallFee, CallNeed;
  }

  lemma ExecuteMoves(e: Env, code: Bytes, op: Byte, s: State)
    requires Available(e.rev, op) && op == ByteAt(code, s.pc) && Args(op) <= |s.stack|
    ensures var r := Execute(e, code, op, s); Moves(code, s, r) && (e.Addressable() ==> Holds(s, r))
  {
    if op == MLOAD || op == MSTORE || op == MSTORE8 || op == SHA3 || IsCopy(op) || op == SSTORE || IsLog(op) {
      MemoryMoves(e, code, op, s);
    } else if op == CREATE || IsCall(op) {
      CallMoves(e, code, op, s);
    } else if op != STOP && op != SUICIDE && op != RETURN && op != REVERT {
      StackMoves(e, code, op, s);
    }
    hide Evaluate, Push, Dup, Swap, Drop, Branch, Load, Store, Hash, Copy, SetStorage, Log, Create, Call, Pay;
  }

  lemma StepMoves(e: Env, code: Bytes, s: State)
    requires Step(e, code, s).Running?
    ensures s.pc < |code| && Moves(code, s, Step(e, code, s))
    ensures e.Addressable() ==> Holds(s, Step(e, code, s))
  {
    var op := ByteAt(code, s.pc);
    ExecuteMoves(e, code, op, s);
    assert op != STOP;
    hide Execute;
  }

  /** The run invariant: execution stays on instruction boundaries, and a jump
      that follows a push is only ever entered from that push. */
  lemma StepKeepsPlace(e: Env, code: Bytes, s: State)
    requires Reaches(code, 0, s.pc) && Step(e, code, s).Running?
    ensures InPlace(code, Step(e, code, s).state)
  {
    StepMoves(e, code, s);
    BeforeNext(code, 0, None, s.pc);
  }

  lemma StepReturnData(e: Env, code: Bytes, s: State)
    requires e.Addressable() && |s.returnData| < SIZE_LIMIT && Step(e, code, s).Running?
    ensures |Step(e, code, s).state.returnData| < SIZE_LIMIT
  {
    StepMoves(e, code, s);
    hide Step;
  }

  // The pool and its 16-bit offsets.

  /** Every constant can be found again at its offset modulo 2^16. */
  ghost predicate PoolFits(pool: seq<Word>) {
    forall k | 0 <= k < |pool| :: pool[k % POOL_LIMIT] == pool[k]
  }

  /** The rewritten push at p loads, from its two-byte offset into the pool,
      the constant of the push it replaced. */
  ghost predicate LoadsExactly(code: Bytes, now: Bytes, pool: seq<Word>, p: nat) {
    && p + 2 < |now|
    && now[p + 1] as nat * 256 + now[p + 2] as nat < |pool|
    && pool[now[p + 1] as nat * 256 + now[p + 2] as nat] == PushValue(code, p)
  }

  lemma {:induction false} ConstantsSplit(code: Bytes, from: nat, p: nat, end: nat)
    requires Reaches(code, from, p) && Reaches(code, from, end) && p < end
    ensures Reaches(code, p, end)
    ensures Constants(code, from, end) == Constants(code, from, p) + Constants(code, p, end)
    decreases |code| - from
  {
    if from == p {
    } else {
      ReachesForward(code, Next(code, from), p);
      ConstantsSplit(code, Next(code, from), p, end);
    }
  }

  /** The long push at p filled one slot of the pool, and its rewritten form
      loads from that slot's index modulo 2^16. */
  lemma LoadAt(code: Bytes, o: Options, now: Bytes, p: nat)
    requires Rewritten(code, o, now) && o.useConstantPool
    requires p < |code| && Reaches(code, 0, p) && IsLong(code[p])
    ensures var k := |Constants(code, 0, p)|;
      var pool := PoolOf(code, o);
      && k < |pool| && pool[k] == PushValue(code, p)
      && (LoadsExactly(code, now, pool, p) <==> pool[k % POOL_LIMIT] == pool[k])
  {
    ConstantsSplit(code, 0, p, End(code, 0));
    assert RewrittenAt(code, o, now, p);
  }

  /** Every slot of the pool was filled by some push. */
  lemma {:induction false} SlotHasPush(code: Bytes, from: nat, end: nat, k: nat) returns (p: nat)
    requires Reaches(code, from, end) && k < |Constants(code, from, end)|
    ensures Reaches(code, from, p) && p < |code| && IsLong(code[p]) && p < end
    ensures |Constants(code, from, p)| == k
    decreases |code| - from
  {
    ReachesForward(code, Next(code, from), end);
    if IsLong(code[from]) && k == 0 {
      p := from;
    } else {
      p := SlotHasPush(code, Next(code, from), end, if IsLong(code[from]) then k - 1 else k);
      ReachesForward(code, Next(code, from), p);
    }
  }

  /** Every rewritten push loads the constant of the push it replaced exactly
      when the pool survives its 16-bit offsets. */
  lemma LoadsAreExact(code: Bytes, o: Options, now: Bytes)
    requires Rewritten(code, o, now) && o.useConstantPool
    ensures (forall p: nat | p < |code| && Reaches(code, 0, p) && IsLong(code[p]) ::
               LoadsExactly(code, now, PoolOf(code, o), p))
            <==> PoolFits(PoolOf(code, o))
  {
    var pool := PoolOf(code, o);
    forall p: nat | p < |code| && Reaches(code, 0, p) && IsLong(code[p])
      ensures PoolFits(pool) ==> LoadsExactly(code, now, pool, p)
    {
      LoadAt(code, o, now, p);
    }
    if !PoolFits(pool) {
      var k :| 0 <= k < |pool| && pool[k % POOL_LIMIT] != pool[k];
      var p := SlotHasPush(code, 0, End(code, 0), k);
      LoadAt(code, o, now, p);
    }
  }

  /** Each constant took seven bytes of code, the last one perhaps fewer. */
  lemma {:induction false} ConstantsTakeSpace(code: Bytes, from: nat, end: nat)
    requires Reaches(code, from, end)
    ensures |Constants(code, from, end)| > 0 ==> from + 7 * (|Constants(code, from, end)| - 1) < |code|
    decreases |code| - from
  {
    if from != end { ConstantsTakeSpace(code, Next(code, from), end); }
  }

  /** Code of up to 458752 bytes, far beyond what a contract may deploy, never
      overflows the pool. */
  lemma ShortCodeFits(code: Bytes, o: Options)
    requires |code| <= 7 * POOL_LIMIT
    ensures PoolFits(PoolOf(code, o))
  {
    if o.useConstantPool { ConstantsTakeSpace(code, 0, End(code, 0)); }
  }

  /** Seven bytes more can: pushes of zero and, in the slot that wraps
      around, a push of one. */
  function Overflowing(pushes: nat): Bytes {
    seq(7 * pushes, i => if i % 7 == 0 then 0x65 else if i == 7 * POOL_LIMIT + 6 then 1 else 0)
  }

  lemma {:induction false} OverflowingPool(n: nat, from: nat)
    requires from <= n
    ensures var code := Overflowing(n);
      && Reaches(code, 7 * from, 7 * n)
      && |Constants(code, 7 * from, 7 * n)| == n - from
      && (forall i | 0 <= i < n - from ::
            Constants(code, 7 * from, 7 * n)[i] == if from + i == POOL_LIMIT then 1 else 0)
    decreases n - from
  {
    if from < n {
      var code := Overflowing(n);
      OverflowingPool(n, from + 1);
      assert code[7 * from] == 0x65;
      assert Next(code, 7 * from) == 7 * (from + 1);
      var x: Byte := if from == POOL_LIMIT then 1 else 0;
      var b := Padded(code, 7 * from + 1, 6);
      forall j | 0 <= j < 6
        ensures b[j] == (Zeros(5) + [x])[j]
      {
        assert b[j] == ByteAt(code, 7 * from + 1 + j);
        assert (7 * from + 1 + j) % 7 == 1 + j;
      }
      assert b == Zeros(5) + [x];
      LeadingZeros(5, [x]);
      assert FromBigEndian([x]) == 256 * FromBigEndian([]) + x as nat;
      assert PushValue(code, 7 * from) == x as Word;
    }
  }

  lemma LongCodeMayNotFit()
    ensures |Overflowing(POOL_LIMIT + 1)| == 7 * POOL_LIMIT + 7
    ensures !PoolFits(PoolOf(Overflowing(POOL_LIMIT + 1), Options(true, false)))
  {
    var n := POOL_LIMIT + 1;
    var code := Overflowing(n);
    OverflowingPool(n, 0);
    EndIsUnique(code, 7 * n);
    var pool := PoolOf(code, Options(true, false));
    assert pool[POOL_LIMIT] == 1 && pool[POOL_LIMIT % POOL_LIMIT] == 0;
  }

  /** However that code is rewritten, its last push loads another's constant. */
  lemma LongCodeLoadsWrongly(now: Bytes)
    requires Rewritten(Overflowing(POOL_LIMIT + 1), Options(true, false), now)
    ensures var code := Overflowing(POOL_LIMIT + 1);
      && PushValue(code, 7 * POOL_LIMIT) == 1
      && !LoadsExactly(code, now, PoolOf(code, Options(true, false)), 7 * POOL_LIMIT)
  {
    var n, o := POOL_LIMIT + 1, Options(true, false);
    var code := Overflowing(n);
    OverflowingPool(n, 0);
    EndIsUnique(code, 7 * n);
    OverflowingPrefix(n, POOL_LIMIT);
    LoadAt(code, o, now, 7 * POOL_LIMIT);
    assert code[7 * POOL_LIMIT] == 0x65;
  }

  /** The k-th push is behind k constants. */
  lemma {:induction false} OverflowingPrefix(n: nat, k: nat)
    requires k <= n
    ensures var code := Overflowing(n); Reaches(code, 0, 7 * k) && |Constants(code, 0, 7 * k)| == k
  {
    var code := Overflowing(n);
    if k > 0 {
      OverflowingPrefix(n, k - 1);
      assert code[7 * (k - 1)] == 0x65;
      assert Next(code, 7 * (k - 1)) == 7 * k;
      ConstantsNext(code, 0, 7 * (k - 1));
    }
  }

  lemma EndIsUnique(code: Bytes, p: nat)
    requires Reaches(code, 0, p) && p >= |code|
    ensures p == End(code, 0)
  {
    var q := End(code, 0);
    if p < q { ReachesApart(code, 0, p, q); }
    if q < p { ReachesApart(code, 0, q, p); }
  }
}
