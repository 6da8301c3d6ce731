/** What metering promises about every run: it ends, and memory is always paid
    for. */
module EvmGas {
  import opened Bytes
  import opened Evm

  /** Gas left plus the price of the memory in use. */
  function Wealth(s: State): nat { s.gas + GasForMem(|s.mem|) }

  lemma PaySpends(s: State, fee: nat, need: nat)
    ensures var r := Pay(s, fee, need);
      && (r.Running? ==>
            && r.state.gas + fee <= s.gas
            && Wealth(r.state) + fee == Wealth(s)
            && |r.state.mem| == Grown(|s.mem|, need))
      && (r.Running? || r == Failed(OutOfGas))
  {
    GasForMemMonotone(|s.mem|, Grown(|s.mem|, need));
  }

  /** The step went on, cost gas, and its cost covers the memory it added. */
  ghost predicate Spends(s: State, r: Status) {
    r.Running? ==> r.state.gas < s.gas && Wealth(r.state) < Wealth(s) && |s.mem| <= |r.state.mem|
  }

  /** The 9000 of a value transfer cover the 2300 of the stipend. */
  lemma CallSpends(e: Env, op: Byte, s: State)
    requires e.Honest() && IsCall(op) && Args(op) <= |s.stack|
    ensures Spends(s, Call(e, op, s))
  {
    PaySpends(s, CallFee(e, op, s.stack, s.history), CallNeed(op, s.stack));
  }

  lemma CreateSpends(e: Env, s: State)
    requires e.Honest() && Args(CREATE) <= |s.stack|
    ensures Spends(s, Create(e, s))
  {
    PaySpends(s, 32000, MemNeed(s.stack[1] as nat, s.stack[2] as nat));
  }

  lemma StoreSpends(e: Env, s: State, data: Bytes)
    requires 2 <= |s.stack|
    ensures Spends(s, Store(e, s, data))
  {
    PaySpends(s, TierGas(MSTORE), s.stack[0] as nat + |data|);
  }

  lemma HashSpends(s: State)
    requires Args(SHA3) <= |s.stack|
    ensures Spends(s, Hash(s))
  {
    PaySpends(s, 30 + 6 * Words(s.stack[1] as nat), MemNeed(s.stack[0] as nat, s.stack[1] as nat));
  }

  lemma CopySpends(s: State, fee: nat, data: Bytes, to: Word, from: Word, size: Word, rest: seq<Word>)
    requires fee > 0
    ensures Spends(s, CopyFrom(s, fee, data, to, from, size, rest))
  {
    PaySpends(s, fee + 3 * Words(size as nat), MemNeed(to as nat, size as nat));
  }

  lemma LogSpends(e: Env, op: Byte, s: State)
    requires IsLog(op) && Args(op) <= |s.stack|
    ensures Spends(s, Log(e, op, s))
  {
    var size := s.stack[1] as nat;
    PaySpends(s, 375 + 375 * (op - LOG0) as nat + 8 * size, MemNeed(s.stack[0] as nat, size));
  }

  lemma EvaluateSpends(e: Env, code: Bytes, op: Byte, s: State)
    requires IsValue(op) && Args(op) <= |s.stack|
    ensures Spends(s, Evaluate(e, code, op, s))
  {
    PaySpends(s, ValueFee(e, op, s.stack), 0);
    assert ValueFee(e, op, s.stack) > 0;
  }

  lemma StackSpends(e: Env, code: Bytes, op: Byte, s: State)
    requires Available(e.rev, op) && op == ByteAt(code, s.pc) && Args(op) <= |s.stack|
    requires IsPush(op) || IsDup(op) || IsSwap(op) || op == POP || op == JUMP || op == JUMPI || op == JUMPDEST
    ensures Spends(s, Execute(e, code, op, s))
  {
    PaySpends(s, if op == JUMPDEST then 1 else TierGas(op), 0);
  }

  lemma MemorySpends(e: Env, code: Bytes, op: Byte, s: State)
    requires Available(e.rev, op) && op == ByteAt(code, s.pc) && Args(op) <= |s.stack|
    requires op == MLOAD || op == MSTORE || op == MSTORE8 || op == SHA3 || IsCopy(op)
    ensures Spends(s, Execute(e, code, op, s))
  {
    hide Pay, GasForMem;
    if op == MLOAD { PaySpends(s, 3, s.stack[0] as nat + 32); }
    else if op == MSTORE { StoreSpends(e, s, WordBytes(s.stack[1])); }
    else if op == MSTORE8 { StoreSpends(e, s, [(s.stack[1] % 256) as Byte]); }
    else if op == SHA3 { HashSpends(s); }
    else {
      var k := CopyBase(op);
      CopySpends(s, CopyFee(e, op), CopySource(e, code, op, s), s.stack[k], s.stack[k + 1], s.stack[k + 2],
                 s.stack[Args(op)..]);
    }
  }

  lemma WorldSpends(e: Env, code: Bytes, op: Byte, s: State)
    requires e.Honest()
    requires Available(e.rev, op) && op == ByteAt(code, s.pc) && Args(op) <= |s.stack|
    requires op == SSTORE || IsLog(op) || op == CREATE || IsCall(op)
    ensures Spends(s, Execute(e, code, op, s))
  {
    if op == SSTORE {
      PaySpends(s, if e.storage(s.stack[0], s.history) == 0 && s.stack[1] != 0 then 20000 else 5000, 0);
    }
    else if IsLog(op) { LogSpends(e, op, s); }
    else if op == CREATE { CreateSpends(e, s); }
    else { CallSpends(e, op, s); }
  }

  /** Every instruction after which the run goes on costs gas, the calls out
      included, and what it costs covers the memory it added. */
  lemma StepSpends(e: Env, code: Bytes, s: State)
    requires e.Honest()
    ensures Spends(s, Step(e, code, s))
  {
    var op := ByteAt(code, s.pc);
    if Available(e.rev, op) && Args(op) <= |s.stack| {
      if IsValue(op) { EvaluateSpends(e, code, op, s); }
      else if IsPush(op) || IsDup(op) || IsSwap(op) { StackSpends(e, code, op, s); }
      else if op == POP || op == JUMP || op == JUMPI || op == JUMPDEST { StackSpends(e, code, op, s); }
      else if op == MLOAD || op == MSTORE || op == MSTORE8 || op == SHA3 { MemorySpends(e, code, op, s); }
      else if IsCopy(op) { MemorySpends(e, code, op, s); }
      else if op == SSTORE || IsLog(op) || op == CREATE || IsCall(op) { WorldSpends(e, code, op, s); }
    }
  }

  /** The whole run; that this recursion is well-founded is the claim that
      every run ends. */
  function Run(e: Env, code: Bytes, s: State): (r: Status)
    requires e.Honest()
    ensures !r.Running?
    decreases s.gas
  {
    StepSpends(e, code, s);
    var r := Step(e, code, s);
    if r.Running? then Run(e, code, r.state) else r
  }

  /** n steps, or fewer if the run ends before. */
  function Steps(e: Env, code: Bytes, s: State, n: nat): Status
    decreases n
  {
    if n == 0 then Running(s)
    else
      var t :- Step(e, code, s);
      Steps(e, code, t, n - 1)
  }

  /** Over any number of steps: a run still going after n of them has spent at
      least n gas, and at least the price of the memory it has added. */
  lemma {:induction false} SpentCoversMemory(e: Env, code: Bytes, s: State, n: nat)
    requires e.Honest()
    ensures var r := Steps(e, code, s, n);
      r.Running? ==>
        && r.state.gas + n <= s.gas
        && s.gas - r.state.gas >= GasForMem(|r.state.mem|) - GasForMem(|s.mem|) + n
    decreases n
  {
    hide GasForMem;
    hide Step;
    if n > 0 {
      var r := Step(e, code, s);
      if r.Running? {
        StepSpends(e, code, s);
        SpentCoversMemory(e, code, r.state, n - 1);
      }
    }
  }

  /** Hence no run is still going after as many steps as it had gas, plus one,
      and stepping that often gives what Run gives. */
  lemma {:induction false} RunEnds(e: Env, code: Bytes, s: State, n: nat)
    requires e.Honest() && n > s.gas
    ensures Steps(e, code, s, n) == Run(e, code, s)
    ensures !Steps(e, code, s, n).Running?
    decreases n
  {
    hide GasForMem;
    hide Step;
    StepSpends(e, code, s);
    var r := Step(e, code, s);
    if r.Running? { RunEnds(e, code, r.state, n - 1); }
  }
}
