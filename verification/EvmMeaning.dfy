/** What a step of the user's code does, said once more from the numbers of the
    opcodes, the operands on the stack and the message alone
    (libevm/Instruction.cpp:26-214, VM.cpp:309-1774, VMCalls.cpp:106-320;
    Yellow Paper, Appendices G and H).  Whatever the interpreter and the step
    it is held against have in common is held against this. */
module EvmMeaning {
  import opened Bytes
  import opened Evm

  // The tables.

  /** Operands taken. */
  lemma OperandsTaken(op: Byte)
    ensures 0x60 <= op <= 0x7f ==> Args(op) == 0
    ensures 0x80 <= op <= 0x8f ==> Args(op) == op as nat - 0x7f
    ensures 0x90 <= op <= 0x9f ==> Args(op) == op as nat - 0x8e
    ensures 0xa0 <= op <= 0xa4 ==> Args(op) == op as nat - 0x9e
    ensures op < 0x60 || op > 0xa4 ==> (Args(op) ==
      if op in {0x15, 0x19, 0x31, 0x35, 0x3b, 0x40, 0x50, 0x51, 0x54, 0x56, 0xad, 0xff} then 1
      else if op in {0x0a, 0x0b, 0x20, 0x52, 0x53, 0x55, 0x57, 0xae, 0xf3, 0xfd} then 2
      else if 0x01 <= op <= 0x07 || 0x10 <= op <= 0x1d then 2
      else if op in {0x08, 0x09, 0x37, 0x39, 0x3e, 0xf0} then 3
      else if op in {0x3c, 0xfb} then 4
      else if op in {0xf4, 0xfa} then 6
      else if op in {0xf1, 0xf2} then 7
      else if op in {0xb0, 0xb2, 0xb3, 0xb4, 0xb7, 0xb8, 0xd6, 0xe0, 0xe1, 0xe4, 0xe6, 0xe7} then 1
      else if op in {0xb1, 0xd8, 0xd9, 0xe2, 0xe5, 0xe8, 0xea} then 2
      else if 0xc2 <= op <= 0xc7 || 0xd0 <= op <= 0xd5 || 0xdb <= op <= 0xdf then 2
      else if op in {0xe9, 0xeb} then 3
      else 0)
  {
  }

  /** Results left. */
  lemma ResultsLeft(op: Byte)
    ensures 0x60 <= op <= 0x7f ==> Rets(op) == 1
    ensures 0x80 <= op <= 0x8f ==> Rets(op) == op as nat - 0x7e
    ensures 0x90 <= op <= 0x9f ==> Rets(op) == op as nat - 0x8e
    ensures 0xa0 <= op <= 0xa4 ==> Rets(op) == 0
    ensures op < 0x60 || op > 0xa4 ==> (Rets(op) ==
      if 0x01 <= op <= 0x0b || 0x10 <= op <= 0x1d || 0x30 <= op <= 0x36 || 0x40 <= op <= 0x45 then 1
      else if op in {0x20, 0x38, 0x3a, 0x3b, 0x3d, 0x51, 0x54, 0x58, 0x59, 0x5a, 0xac} then 1
      else if op in {0xf0, 0xf1, 0xf2, 0xf4, 0xfa, 0xfb} then 1
      else if 0xc2 <= op <= 0xc7 || 0xd0 <= op <= 0xd6 || 0xdb <= op <= 0xdf || 0xe6 <= op <= 0xeb then 1
      else if op in {0xb9, 0xd8, 0xd9, 0xe0, 0xe1, 0xe4} then 1
      else 0)
  {
  }

  /** The fee of the tier, zero for the special ones. */
  lemma TierFees(op: Byte)
    requires op < 0xb0 || op > 0xef
    ensures TierGas(op) ==
      if op in {0x30, 0x32, 0x33, 0x34, 0x36, 0x38, 0x3a, 0x3d, 0x50, 0x58, 0x59, 0x5a} || 0x41 <= op <= 0x45 then 2
      else if op in {0x01, 0x03, 0x35, 0x37, 0x39, 0x3e, 0x51, 0x52, 0x53, 0xac} then 3
      else if 0x10 <= op <= 0x1d || 0x60 <= op <= 0x9f then 3
      else if op in {0x02, 0x04, 0x05, 0x06, 0x07, 0x0b} then 5
      else if op in {0x08, 0x09, 0x56, 0xad} then 8
      else if op in {0x57, 0xae} then 10
      else 0
  {
  }

  /** The opcodes that each revision executes. */
  lemma Executed(rev: nat, op: Byte)
    ensures Available(rev, op) <==>
      || op <= 0x0b || 0x10 <= op <= 0x1a || op == 0x20 || 0x30 <= op <= 0x3c || 0x40 <= op <= 0x45
      || 0x50 <= op <= 0x5b || 0x60 <= op <= 0xa4 || 0xf0 <= op <= 0xf3 || op == 0xff
      || (rev >= 1 && op == 0xf4)
      || (rev >= 4 && op in {0x3d, 0x3e, 0xfa, 0xfd})
      || (rev >= 5 && 0x1b <= op <= 0x1d)
  {
  }

  /** What is checked before an instruction does anything; past the end of the
      code there is STOP. */
  lemma Checked(e: Env, code: Bytes, s: State)
    ensures var op := if s.pc < |code| then code[s.pc] else 0;
      Step(e, code, s) ==
      if 0xac <= op <= 0xae then Failed(BadInstruction)
      else if |s.stack| < Args(op) then Failed(StackUnderflow)
      else if |s.stack| - Args(op) + Rets(op) > 1024 then Failed(OutOfStack)
      else if !Available(e.rev, op) then Failed(BadInstruction)
      else Execute(e, code, op, s)
  {
    hide Execute, Args, Rets, Available;
  }

  /** op is at pc and passes those checks. */
  ghost predicate Starts(e: Env, code: Bytes, op: Byte, s: State) {
    && s.pc < |code| && code[s.pc] == op && Available(e.rev, op)
    && Args(op) <= |s.stack| && |s.stack| - Args(op) + Rets(op) <= 1024
  }

  lemma StartsMeans(e: Env, code: Bytes, op: Byte, s: State)
    requires Starts(e, code, op, s)
    ensures op == ByteAt(code, s.pc) && Available(e.rev, op) && Args(op) <= |s.stack|
    ensures Step(e, code, s) == Execute(e, code, op, s)
  {
    hide Execute, Args, Rets;
  }

  // Paying.

  /** The price of memory: three per word, and the square of the number of
      words over 512. */
  function MemoryPrice(size: nat): nat { size / 32 * 3 + size / 32 * (size / 32) / 512 }

  /** The size of memory once it covers `need` bytes, in whole words. */
  function Covering(size: nat, need: nat): nat {
    if (need + 31) / 32 * 32 > size then (need + 31) / 32 * 32 else size
  }

  /** The gas does not cover the fee and the memory to be added. */
  ghost predicate Short(s: State, fee: nat, need: nat) {
    s.gas + MemoryPrice(|s.mem|) < fee + MemoryPrice(Covering(|s.mem|, need))
  }

  /** The state once both are paid: memory has zeros added. */
  ghost predicate Paid(s: State, fee: nat, need: nat, p: State) {
    && p == s.(gas := p.gas, mem := p.mem)
    && p.gas + fee + MemoryPrice(|p.mem|) == s.gas + MemoryPrice(|s.mem|)
    && |p.mem| == Covering(|s.mem|, need)
    && forall i | 0 <= i < |p.mem| :: p.mem[i] == if i < |s.mem| then s.mem[i] else 0
  }

  lemma Pays(s: State, fee: nat, need: nat, p: State)
    ensures Short(s, fee, need) <==> Pay(s, fee, need) == Failed(OutOfGas)
    ensures Paid(s, fee, need, p) <==> Pay(s, fee, need) == Running(p)
  {
    PricesMatch(|s.mem|);
    PricesMatch(Grown(|s.mem|, need));
    assert Grown(|s.mem|, need) == Covering(|s.mem|, need);
    GasForMemMonotone(|s.mem|, Grown(|s.mem|, need));
    hide GasForMem, MemoryPrice, Grown, Covering;
    if Paid(s, fee, need, p) { assert p.mem == s.mem + Zeros(|p.mem| - |s.mem|); }
  }

  lemma PricesMatch(size: nat)
    ensures GasForMem(size) == MemoryPrice(size)
  {
  }

  /** The bytes that must exist for `size` bytes at an offset: none for none. */
  function Reach(offset: Word, size: Word): nat { if size > 0 then offset as nat + size as nat else 0 }

  /** The memory there, size bytes of it. */
  ghost predicate Slice(mem: Bytes, offset: Word, size: Word, data: Bytes) {
    && |data| == size as nat && (size > 0 ==> offset as nat + size as nat <= |mem|)
    && forall i | 0 <= i < |data| :: data[i] == mem[offset as nat + i]
  }

  lemma ReadsSlice(mem: Bytes, offset: Word, size: Word)
    requires size > 0 ==> offset as nat + size as nat <= |mem|
    ensures Slice(mem, offset, size, Read(mem, offset as nat, size as nat))
  {
  }

  lemma ReachIsNeed(offset: Word, size: Word)
    ensures Reach(offset, size) == MemNeed(offset as nat, size as nat)
  {
  }

  // Words.

  /** w has these digits, the highest first, and no others. */
  ghost predicate Spelt(w: Word, b: Bytes) {
    w as nat < Pow256(|b|) && forall i | 0 <= i < |b| :: b[i] as nat == Digit(w as nat, |b| - 1 - i)
  }

  /** Leading zeros are the digits that the shortest form leaves out. */
  lemma DigitOf(w: Word, i: nat)
    requires i < 32
    ensures WordBytes(w)[i] as nat == Digit(w as nat, 31 - i)
  {
    var b := BigEndian(w as nat);
    WordBytesFit(w);
    BigEndianLength(w as nat, 31 - i);
    if i >= 32 - |b| { BigEndianAt(w as nat, i - (32 - |b|)); }
    hide BigEndian, Pow256, Digit;
    if i < 32 - |b| { NoDigit(w as nat, 31 - i); }
  }

  lemma WordBytesSpelt(w: Word)
    ensures Spelt(w, WordBytes(w))
  {
    hide WordBytes, Digit, Pow256;
    Pow256Of32();
    forall i | 0 <= i < 32
      ensures WordBytes(w)[i] as nat == Digit(w as nat, 31 - i)
    {
      DigitOf(w, i);
    }
  }

  lemma WordSpelt(b: Bytes)
    requires |b| <= 32
    ensures Spelt(WordOf(b), b)
  {
    hide FromBigEndian, Pow256, Digit;
    Bounded(b);
    Pow256Of32();
    Powers(|b|, 32);
    assert WordOf(b) as nat == FromBigEndian(b);
    forall i | 0 <= i < |b|
      ensures b[i] as nat == Digit(WordOf(b) as nat, |b| - 1 - i)
    {
      DigitsOf(b, i);
    }
  }

  lemma {:induction false} Powers(a: nat, b: nat)
    requires a <= b
    ensures Pow256(a) <= Pow256(b)
  {
    if a < b { Powers(a, b - 1); }
  }

  /** b is the data from an index on, zeros past its end. */
  ghost predicate Filled(b: Bytes, data: Bytes, from: nat) {
    forall i | 0 <= i < |b| :: b[i] == if from + i < |data| then data[from + i] else 0
  }

  lemma PaddedFills(data: Bytes, from: nat, size: nat)
    ensures Filled(Padded(data, from, size), data, from)
  {
    var b := Padded(data, from, size);
    forall i | 0 <= i < size
      ensures b[i] == if from + i < |data| then data[from + i] else 0
    {
      assert b[i] == ByteAt(data, from + i);
    }
  }

  lemma FilledOnce(b: Bytes, data: Bytes, from: nat)
    requires Filled(b, data, from)
    ensures b == Padded(data, from, |b|)
  {
    PaddedFills(data, from, |b|);
  }

  // Calls.

  /** What a call asks for: `first` is where its four memory operands start. */
  ghost predicate IsCallOp(op: Byte, first: nat) {
    (op in {0xf1, 0xf2} && first == 3) || (op in {0xf4, 0xfa} && first == 2)
  }

  /** Its value: an operand, that of the message being executed, or none. */
  function CallValue(e: Env, op: Byte, a: seq<Word>): Word
    requires |a| >= 3
  {
    if op in {0xf1, 0xf2} then a[2] else if op == 0xf4 then e.value else 0
  }

  /** The base fee; for a new account that CALL would have to make, 25000 more,
      from Spurious Dragon on only if value goes there; 9000 for value. */
  function CallCharge(e: Env, op: Byte, a: seq<Word>, h: History): nat
    requires |a| >= 3
  {
    var destination := a[1] % 0x1_00000000_0000000000000000_0000000000000000;
    (if e.rev >= 2 then 700 else 40)
    + (if op == 0xf1 && !e.exists_(destination, h) && (a[2] != 0 || e.rev < 3) then 25000 else 0)
    + (if op in {0xf1, 0xf2} && a[2] != 0 then 9000 else 0)
  }

  /** Both areas are paid for. */
  function CallReach(a: seq<Word>, first: nat): nat
    requires first + 4 <= |a|
  {
    var input, output := Reach(a[first], a[first + 1]), Reach(a[first + 2], a[first + 3]);
    if input > output then input else output
  }

  /** The gas set aside: from Tangerine Whistle on at most all but a 64th. */
  function SetAside(e: Env, asked: Word, gas: nat): nat {
    if e.rev >= 2 && asked as nat > gas - gas / 64 then gas - gas / 64 else asked as nat
  }

  /** The message, its input being the paid memory of the input area.  With
      value to transfer the callee has 2300 more gas than was set aside. */
  ghost predicate Sends(e: Env, op: Byte, first: nat, p: State, m: Message)
    requires IsCallOp(op, first) && first + 4 <= |p.stack|
  {
    var a := p.stack;
    && m.kind == (if op == 0xf2 then KindCallCode else if op == 0xf4 then KindDelegateCall else KindCall)
    && (m.isStatic <==> op == 0xfa || e.isStatic) && m.depth == 0
    && m.gas == SetAside(e, a[0], p.gas) + (if op in {0xf1, 0xf2} && a[2] != 0 then 2300 else 0)
    && m.destination == a[1] % 0x1_00000000_0000000000000000_0000000000000000
    && m.sender == (if op == 0xf4 then e.sender else e.self)
    && m.value == CallValue(e, op, a)
    && Slice(p.mem, a[first], a[first + 1], m.input)
  }

  /** The call is made and answered: the flag on the stack, the gas left comes
      back, and the output is in the output area as far as it goes, and nowhere
      else. */
  ghost predicate Answered(e: Env, first: nat, p: State, m: Message, t: State)
    requires first + 4 <= |p.stack|
  {
    var reply := e.call(m, p.history);
    var from, size := p.stack[first + 2] as nat, p.stack[first + 3] as nat;
    var n := if size < |reply.output| then size else |reply.output|;
    && t.history == p.history + [Called(m)] && t.pc == p.pc + 1
    && t.stack == [if reply.success then 1 else 0] + p.stack[first + 4..]
    && t.gas == p.gas - SetAside(e, p.stack[0], p.gas) + reply.gasLeft && t.returnData == reply.output
    && |t.mem| == |p.mem| && (n > 0 ==> from + n <= |t.mem|)
    && forall i | 0 <= i < |t.mem| ::
         t.mem[i] == if from <= i < from + n then reply.output[i - from] else p.mem[i]
  }

  /** No call is made: the gas set aside comes back with what would have gone
      with the value. */
  ghost predicate TurnedDown(op: Byte, first: nat, p: State, t: State)
    requires first + 4 <= |p.stack|
  {
    t == State(p.pc + 1, [0 as Word] + p.stack[first + 4..], p.mem,
               p.gas + (if op in {0xf1, 0xf2} && p.stack[2] != 0 then 2300 else 0), [], p.history)
  }

  /** What a call comes to in the state that has paid its static fees. */
  ghost predicate Calls(e: Env, op: Byte, first: nat, p: State, r: Status)
    requires IsCallOp(op, first) && first + 4 <= |p.stack|
  {
    if SetAside(e, p.stack[0], p.gas) > p.gas then r == Failed(OutOfGas)
    else
      && r.Running?
      && if (op in {0xf1, 0xf2} && p.stack[2] > e.balance(p.history)) || e.depth >= 1024
         then TurnedDown(op, first, p, r.state)
         else exists m :: Sends(e, op, first, p, m) && Answered(e, first, p, m, r.state)
  }

  /** CALL, CALLCODE, DELEGATECALL and STATICCALL. */
  lemma CallMeans(e: Env, code: Bytes, op: Byte, first: nat, s: State, p: State)
    requires Starts(e, code, op, s) && IsCallOp(op, first)
    ensures first + 4 <= |s.stack|
    ensures op == 0xf1 && e.isStatic && s.stack[2] != 0 ==> Step(e, code, s) == Failed(DisallowedStateChange)
    ensures !(op == 0xf1 && e.isStatic && s.stack[2] != 0) ==>
      var fee, need := CallCharge(e, op, s.stack, s.history), CallReach(s.stack, first);
      && (Short(s, fee, need) ==> Step(e, code, s) == Failed(OutOfGas))
      && (Paid(s, fee, need, p) ==> Calls(e, op, first, p, Step(e, code, s)))
  {
    hide Starts, Execute, Pay, Paid, Short, Calls, CallFrom, Reach, MemNeed, Args, CallFee, CallCharge;
    StartsMeans(e, code, op, s);
    OperandsTaken(op);
    CallExecuted(e, code, op, first, s);
    var fee, need := CallCharge(e, op, s.stack, s.history), CallReach(s.stack, first);
    Pays(s, fee, need, p);
    if Paid(s, fee, need, p) {
      PaidStack(s, fee, need, p);
      CallGoes(e, op, first, p);
    }
  }

  lemma CallExecuted(e: Env, code: Bytes, op: Byte, first: nat, s: State)
    requires Starts(e, code, op, s) && IsCallOp(op, first)
    ensures IsCall(op) && Args(op) == first + 4 && op == ByteAt(code, s.pc) && Available(e.rev, op)
    ensures Execute(e, code, op, s) == Call(e, op, s)
    ensures CallFee(e, op, s.stack, s.history) == CallCharge(e, op, s.stack, s.history)
    ensures CallNeed(op, s.stack) == CallReach(s.stack, first)
  {
    hide Call;
    ReachIsNeed(s.stack[first], s.stack[first + 1]);
    ReachIsNeed(s.stack[first + 2], s.stack[first + 3]);
  }

  lemma PaidStack(s: State, fee: nat, need: nat, p: State)
    requires Paid(s, fee, need, p)
    ensures p.stack == s.stack && p.history == s.history && p.pc == s.pc && p.returnData == s.returnData
    ensures need <= |p.mem|
  {
  }

  lemma MessageSent(e: Env, op: Byte, first: nat, p: State, m: Message)
    requires IsCallOp(op, first) && Args(op) == first + 4 <= |p.stack| && CallNeed(op, p.stack) <= |p.mem|
    requires m == CallMessage(e, op, p.stack, SetAside(e, p.stack[0], p.gas), CallInput(op, p.stack, p.mem))
    ensures Sends(e, op, first, p, m)
  {
    hide Slice, SetAside;
    ReadsSlice(p.mem, p.stack[first], p.stack[first + 1]);
  }

  lemma Overwritten(mem: Bytes, at: nat, data: Bytes)
    requires data != [] ==> at + |data| <= |mem|
    ensures var m := Write(mem, at, data);
      |m| == |mem| && forall i | 0 <= i < |m| :: m[i] == if at <= i < at + |data| then data[i - at] else mem[i]
  {
  }

  /** The state after a call that has been answered. */
  lemma AnswerTaken(e: Env, op: Byte, first: nat, p: State, m: Message)
    requires IsCallOp(op, first) && Args(op) == first + 4 <= |p.stack| && SetAside(e, p.stack[0], p.gas) <= p.gas
    requires p.stack[first + 3] > 0 ==> p.stack[first + 2] as nat + p.stack[first + 3] as nat <= |p.mem|
    ensures Answered(e, first, p, m,
      AfterCall(e, p.pc, p.stack[first + 4..], p.mem, p.gas - SetAside(e, p.stack[0], p.gas), p.history,
                m, false, p.stack[first + 2] as nat, p.stack[first + 3] as nat))
  {
    hide SetAside, Write;
    Overwritten(p.mem, p.stack[first + 2] as nat, Fitting(e.call(m, p.history).output, p.stack[first + 3] as nat));
  }

  lemma CallGoes(e: Env, op: Byte, first: nat, p: State)
    requires IsCallOp(op, first) && Args(op) == first + 4 <= |p.stack| && CallReach(p.stack, first) <= |p.mem|
    requires CallNeed(op, p.stack) <= |p.mem|
    ensures Calls(e, op, first, p, CallFrom(e, op, p))
  {
    hide Args, Sends, Answered, TurnedDown, CallMessage, CallInput, AfterCall, MemNeed, Reach, CallReach;
    var given := SetAside(e, p.stack[0], p.gas);
    assert given == CallGas(e, p.stack[0], p.gas);
    hide SetAside, CallGas;
    if given <= p.gas {
      var m := CallMessage(e, op, p.stack, given, CallInput(op, p.stack, p.mem));
      CallRoom(op, first, p);
      MessageSent(e, op, first, p, m);
      AnswerTaken(e, op, first, p, m);
      TurnedAway(e, op, first, p, m, given);
    }
  }

  lemma CallRoom(op: Byte, first: nat, p: State)
    requires IsCallOp(op, first) && Args(op) == first + 4 <= |p.stack| && CallReach(p.stack, first) <= |p.mem|
    ensures p.stack[first + 3] > 0 ==> p.stack[first + 2] as nat + p.stack[first + 3] as nat <= |p.mem|
  {
  }

  lemma TurnedAway(e: Env, op: Byte, first: nat, p: State, m: Message, given: nat)
    requires IsCallOp(op, first) && Args(op) == first + 4 <= |p.stack| && CallNeed(op, p.stack) <= |p.mem|
    requires given <= p.gas && m == CallMessage(e, op, p.stack, given, CallInput(op, p.stack, p.mem))
    requires p.stack[first + 3] > 0 ==> p.stack[first + 2] as nat + p.stack[first + 3] as nat <= |p.mem|
    ensures TurnedDown(op, first, p,
      AfterCall(e, p.pc, p.stack[first + 4..], p.mem, p.gas - given, p.history,
                m, true, p.stack[first + 2] as nat, p.stack[first + 3] as nat))
  {
    hide CallInput, MemNeed;
  }

  // Creation.

  /** The message of a creation: the endowment and the init code from memory,
      with all the gas, from Tangerine Whistle on all but a 64th. */
  ghost predicate SendsCreate(e: Env, p: State, m: Message)
    requires |p.stack| >= 3
  {
    && m.kind == KindCreate && !m.isStatic && m.depth == e.depth + 1
    && m.gas == (if e.rev >= 2 then p.gas - p.gas / 64 else p.gas)
    && m.destination == 0 && m.sender == e.self && m.value == p.stack[0]
    && Slice(p.mem, p.stack[1], p.stack[2], m.input)
  }

  ghost predicate Creates(e: Env, p: State, r: Status)
    requires |p.stack| >= 3
  {
    if p.stack[0] > e.balance(p.history) || e.depth >= 1024
    then r == Running(State(p.pc + 1, [0 as Word] + p.stack[3..], p.mem, p.gas, [], p.history))
    else exists m ::
      && SendsCreate(e, p, m)
      && var reply := e.call(m, p.history);
      p.gas - m.gas + reply.gasLeft >= 0
      && r == Running(State(p.pc + 1, [if reply.success then reply.address else 0] + p.stack[3..], p.mem,
                            p.gas - m.gas + reply.gasLeft, reply.output, p.history + [Called(m)]))
  }

  lemma CreateMeans(e: Env, code: Bytes, s: State, p: State)
    requires Starts(e, code, 0xf0, s)
    ensures |s.stack| >= 3
    ensures e.isStatic ==> Step(e, code, s) == Failed(DisallowedStateChange)
    ensures !e.isStatic ==>
      var need := Reach(s.stack[1], s.stack[2]);
      && (Short(s, 32000, need) ==> Step(e, code, s) == Failed(OutOfGas))
      && (Paid(s, 32000, need, p) ==> Creates(e, p, Step(e, code, s)))
  {
    StartsMeans(e, code, 0xf0, s);
    Pays(s, 32000, Reach(s.stack[1], s.stack[2]), p);
    ReachIsNeed(s.stack[1], s.stack[2]);
    hide Pay, Paid, Short, Creates, CreateFrom, Reach, MemNeed;
    if Paid(s, 32000, Reach(s.stack[1], s.stack[2]), p) {
      PaidStack(s, 32000, Reach(s.stack[1], s.stack[2]), p);
      CreateGoes(e, p);
    }
  }

  lemma CreateGoes(e: Env, p: State)
    requires |p.stack| >= 3 && MemNeed(p.stack[1] as nat, p.stack[2] as nat) <= |p.mem|
    ensures Creates(e, p, Running(CreateFrom(e, p)))
  {
    ReadsSlice(p.mem, p.stack[1], p.stack[2]);
    hide Slice;
    if e.balance(p.history) >= p.stack[0] && e.depth < 1024 {
      var m := Message(KindCreate, false, e.depth + 1, Forwardable(e, p.gas), 0, e.self, p.stack[0],
                       Read(p.mem, p.stack[1] as nat, p.stack[2] as nat));
      assert SendsCreate(e, p, m);
    }
  }

  // Memory.

  /** Where MLOAD, MSTORE and MSTORE8 go, with the cast to 32 bits or without. */
  function Offset(e: Env, w: Word): nat { if e.cut then w as nat % 0x1_0000_0000 else w as nat }

  lemma MloadMeans(e: Env, code: Bytes, s: State, p: State)
    requires Starts(e, code, 0x51, s)
    ensures s.stack != []
    ensures Short(s, 3, s.stack[0] as nat + 32) ==> Step(e, code, s) == Failed(OutOfGas)
    ensures Paid(s, 3, s.stack[0] as nat + 32, p) ==>
      var r, at := Step(e, code, s), Offset(e, s.stack[0]);
      && at + 32 <= |p.mem| && r.Running? && r.state.stack != []
      && r.state == p.(pc := s.pc + 1, stack := [r.state.stack[0]] + s.stack[1..])
      && Spelt(r.state.stack[0], p.mem[at..at + 32])
  {
    hide Pay, Paid, Short, Spelt, Offset, Place, WordOf;
    StartsMeans(e, code, 0x51, s);
    assert Execute(e, code, 0x51, s) == Load(e, s);
    hide Execute, Starts;
    var need := s.stack[0] as nat + 32;
    Pays(s, 3, need, p);
    OffsetIsPlace(e, s.stack[0]);
    if Paid(s, 3, need, p) {
      PaidStack(s, 3, need, p);
      var at := Offset(e, s.stack[0]);
      WordSpelt(p.mem[at..at + 32]);
    }
  }

  lemma OffsetIsPlace(e: Env, w: Word)
    ensures Offset(e, w) == Place(e, w) <= w as nat
  {
  }

  /** Memory with some bytes put in at an offset. */
  ghost predicate PutIn(was: Bytes, at: nat, data: Bytes, now: Bytes) {
    && |now| == |was| && (data != [] ==> at + |data| <= |was|)
    && forall i | 0 <= i < |now| :: now[i] == if at <= i < at + |data| then data[i - at] else was[i]
  }

  lemma WritePutsIn(mem: Bytes, at: nat, data: Bytes)
    requires data != [] ==> at + |data| <= |mem|
    ensures PutIn(mem, at, data, Write(mem, at, data))
  {
  }

  /** MSTORE and MSTORE8 put in the bytes of a word, or its lowest byte. */
  lemma MstoreMeans(e: Env, code: Bytes, op: Byte, data: Bytes, s: State, p: State)
    requires Starts(e, code, op, s)
    requires |s.stack| >= 2
    requires (op == 0x52 && |data| == 32 && Spelt(s.stack[1], data))
          || (op == 0x53 && data == [(s.stack[1] % 256) as Byte])
    ensures Short(s, 3, s.stack[0] as nat + |data|) ==> Step(e, code, s) == Failed(OutOfGas)
    ensures Paid(s, 3, s.stack[0] as nat + |data|, p) ==>
      var r := Step(e, code, s);
      && r.Running? && r.state == p.(pc := s.pc + 1, stack := s.stack[2..], mem := r.state.mem)
      && PutIn(p.mem, Offset(e, s.stack[0]), data, r.state.mem)
  {
    hide Pay, Paid, Short, PutIn, Write, WordBytes, Spelt, Offset, Place;
    StartsMeans(e, code, op, s);
    if op == 0x52 { SpeltOnce(s.stack[1], data); }
    assert Execute(e, code, op, s) == Store(e, s, data);
    hide Execute, Starts;
    var need := s.stack[0] as nat + |data|;
    Pays(s, 3, need, p);
    OffsetIsPlace(e, s.stack[0]);
    if Paid(s, 3, need, p) {
      PaidStack(s, 3, need, p);
      WritePutsIn(p.mem, Offset(e, s.stack[0]), data);
    }
  }

  lemma SpeltOnce(w: Word, b: Bytes)
    requires |b| == 32 && Spelt(w, b)
    ensures b == WordBytes(w)
  {
    WordBytesSpelt(w);
    hide WordBytes;
    assert forall i | 0 <= i < 32 :: b[i] == WordBytes(w)[i];
  }

  /** SHA3 costs 30, and 6 per word. */
  lemma Sha3Means(e: Env, code: Bytes, s: State, p: State, data: Bytes)
    requires Starts(e, code, 0x20, s)
    ensures |s.stack| >= 2
    ensures
      var fee, need := 30 + (s.stack[1] as nat + 31) / 32 * 6, Reach(s.stack[0], s.stack[1]);
      && (Short(s, fee, need) ==> Step(e, code, s) == Failed(OutOfGas))
      && (Paid(s, fee, need, p) && Slice(p.mem, s.stack[0], s.stack[1], data) ==>
            var r := Step(e, code, s);
            && r.Running? && r.state.stack != []
            && r.state == p.(pc := s.pc + 1, stack := [r.state.stack[0]] + s.stack[2..])
            && Spelt(r.state.stack[0], Sha3(data)))
  {
    StartsMeans(e, code, 0x20, s);
    var fee, need := 30 + (s.stack[1] as nat + 31) / 32 * 6, Reach(s.stack[0], s.stack[1]);
    Pays(s, fee, need, p);
    ReachIsNeed(s.stack[0], s.stack[1]);
    assert Execute(e, code, 0x20, s) == Hash(s);
    hide Pay, Paid, Short, Spelt, Slice, Reach, Execute;
    if Paid(s, fee, need, p) && Slice(p.mem, s.stack[0], s.stack[1], data) {
      PaidStack(s, fee, need, p);
      SliceOnce(p.mem, s.stack[0], s.stack[1], data);
      WordSpelt(Sha3(data));
    }
  }

  lemma SliceOnce(mem: Bytes, offset: Word, size: Word, data: Bytes)
    requires Slice(mem, offset, size, data)
    ensures (size > 0 ==> offset as nat + size as nat <= |mem|) && Read(mem, offset as nat, size as nat) == data
  {
  }

  /** What a copy copies. */
  function CopiedData(e: Env, code: Bytes, op: Byte, s: State): Bytes
    requires |s.stack| >= 3
  {
    if op == 0x37 then e.input
    else if op == 0x39 then code
    else if op == 0x3e then s.returnData
    else e.codeOf(s.stack[0] % 0x1_00000000_0000000000000000_0000000000000000, s.history)
  }

  function CopyCharge(e: Env, op: Byte, size: Word): (fee: nat)
    ensures fee >= 3 * ((size as nat + 31) / 32)
  {
    (if op != 0x3c then 3 else if e.rev >= 2 then 700 else 20) + 3 * ((size as nat + 31) / 32)
  }

  /** The copies: `first` is where the offset in memory, the index and the size
      start on the stack.  Past the end of the return data there is nothing to
      copy, past that of other data there are zeros. */
  lemma CopyMeans(e: Env, code: Bytes, op: Byte, first: nat, s: State, p: State, data: Bytes)
    requires Starts(e, code, op, s)
    requires (op in {0x37, 0x39, 0x3e} && first == 0) || (op == 0x3c && first == 1)
    ensures |s.stack| >= first + 3
    ensures
      var to, from, size := s.stack[first], s.stack[first + 1], s.stack[first + 2];
      var over := op == 0x3e && from as nat + size as nat > |s.returnData|;
      var fee, need, r := CopyCharge(e, op, size), Reach(to, size), Step(e, code, s);
      && (over ==> r == Failed(BufferOverrun))
      && (!over && Short(s, fee, need) ==> r == Failed(OutOfGas))
      && (!over && Paid(s, fee, need, p)
          && |data| == size as nat && Filled(data, CopiedData(e, code, op, s), from as nat) ==>
            r.Running? && r.state == p.(pc := s.pc + 1, stack := s.stack[first + 3..], mem := r.state.mem)
            && PutIn(p.mem, to as nat, data, r.state.mem))
  {
    hide Starts, Args, Execute, Pay, Paid, Short, PutIn, CopyFrom, CopyCharge, Filled, Reach, CopiedData;
    StartsMeans(e, code, op, s);
    OperandsTaken(op);
    CopyExecuted(e, code, op, first, s);
    var to, from, size := s.stack[first], s.stack[first + 1], s.stack[first + 2];
    var rest := s.stack[first + 3..];
    if op != 0x3e || from as nat + size as nat <= |s.returnData| {
      CopyGoes(s, CopyCharge(e, op, size), CopiedData(e, code, op, s), to, from, size, rest, p, data);
    }
  }

  lemma CopyExecuted(e: Env, code: Bytes, op: Byte, first: nat, s: State)
    requires Available(e.rev, op) && op == ByteAt(code, s.pc) && Args(op) == first + 3 <= |s.stack|
    requires (op in {0x37, 0x39, 0x3e} && first == 0) || (op == 0x3c && first == 1)
    ensures
      var to, from, size := s.stack[first], s.stack[first + 1], s.stack[first + 2];
      Execute(e, code, op, s) ==
      if op == 0x3e && from as nat + size as nat > |s.returnData| then Failed(BufferOverrun)
      else CopyFrom(s, CopyCharge(e, op, size) - 3 * ((size as nat + 31) / 32), CopiedData(e, code, op, s),
                    to, from, size, s.stack[first + 3..])
  {
    hide CopyFrom;
  }

  lemma CopyGoes(s: State, fee: nat, source: Bytes, to: Word, from: Word, size: Word, rest: seq<Word>,
                 p: State, data: Bytes)
    requires fee >= 3 * ((size as nat + 31) / 32)
    ensures
      var need, r := Reach(to, size), CopyFrom(s, fee - 3 * ((size as nat + 31) / 32), source, to, from, size, rest);
      && (Short(s, fee, need) ==> r == Failed(OutOfGas))
      && (Paid(s, fee, need, p) && |data| == size as nat && Filled(data, source, from as nat) ==>
            r.Running? && r.state == p.(pc := s.pc + 1, stack := rest, mem := r.state.mem)
            && PutIn(p.mem, to as nat, data, r.state.mem))
  {
    hide Pay, Short, Paid, PutIn, Filled, Padded, Reach, MemNeed, Write;
    Pays(s, fee, Reach(to, size), p);
    ReachIsNeed(to, size);
    if Paid(s, fee, Reach(to, size), p) && |data| == size as nat && Filled(data, source, from as nat) {
      PaidStack(s, fee, Reach(to, size), p);
      FilledOnce(data, source, from as nat);
      Reached(to, size, p.mem);
      WritePutsIn(p.mem, to as nat, data);
    }
  }

  lemma Reached(offset: Word, size: Word, mem: Bytes)
    requires Reach(offset, size) <= |mem|
    ensures size > 0 ==> offset as nat + size as nat <= |mem|
  {
  }

  // The world.

  /** LOG0 to LOG4 cost 375, as much again for each topic, and 8 per byte. */
  lemma LogMeans(e: Env, code: Bytes, topics: nat, s: State, p: State, data: Bytes)
    requires topics <= 4 && Starts(e, code, (0xa0 + topics) as Byte, s)
    ensures |s.stack| >= topics + 2
    ensures e.isStatic ==> Step(e, code, s) == Failed(DisallowedStateChange)
    ensures !e.isStatic ==>
      var fee, need, r := 375 + 375 * topics + 8 * s.stack[1] as nat, Reach(s.stack[0], s.stack[1]), Step(e, code, s);
      && (Short(s, fee, need) ==> r == Failed(OutOfGas))
      && (Paid(s, fee, need, p) && Slice(p.mem, s.stack[0], s.stack[1], data) ==>
            r == Running(p.(pc := s.pc + 1, stack := s.stack[topics + 2..],
                            history := s.history + [Logged(data, s.stack[2..topics + 2])])))
  {
    hide Starts, Args, Execute, Pay, Paid, Short, Slice, Reach;
    var op := (0xa0 + topics) as Byte;
    StartsMeans(e, code, op, s);
    OperandsTaken(op);
    LogExecuted(e, code, op, s);
    var fee, need := 375 + 375 * topics + 8 * s.stack[1] as nat, Reach(s.stack[0], s.stack[1]);
    Pays(s, fee, need, p);
    ReachIsNeed(s.stack[0], s.stack[1]);
    if Paid(s, fee, need, p) && Slice(p.mem, s.stack[0], s.stack[1], data) {
      PaidStack(s, fee, need, p);
      SliceOnce(p.mem, s.stack[0], s.stack[1], data);
    }
  }

  lemma LogExecuted(e: Env, code: Bytes, op: Byte, s: State)
    requires Available(e.rev, op) && op == ByteAt(code, s.pc) && Args(op) <= |s.stack| && IsLog(op)
    ensures Execute(e, code, op, s) == Log(e, op, s)
  {
    hide Log;
  }

  /** SSTORE costs 20000 where it sets a value that was zero, else 5000. */
  lemma SstoreMeans(e: Env, code: Bytes, s: State)
    requires Starts(e, code, 0x55, s)
    ensures |s.stack| >= 2
    ensures
      var key, value := s.stack[0], s.stack[1];
      var fee := if e.storage(key, s.history) == 0 && value != 0 then 20000 else 5000;
      Step(e, code, s) ==
      if e.isStatic then Failed(DisallowedStateChange)
      else if s.gas < fee then Failed(OutOfGas)
      else Running(s.(pc := s.pc + 1, stack := s.stack[2..], gas := s.gas - fee,
                      history := s.history + [Stored(key, value)]))
  {
    StartsMeans(e, code, 0x55, s);
    PaysFee(s, if e.storage(s.stack[0], s.history) == 0 && s.stack[1] != 0 then 20000 else 5000);
    hide Pay, Starts;
  }

  /** A fee alone. */
  lemma PaysFee(s: State, fee: nat)
    ensures Pay(s, fee, 0) == if s.gas < fee then Failed(OutOfGas) else Running(s.(gas := s.gas - fee))
  {
    assert s.mem + Zeros(0) == s.mem;
  }

  /** SUICIDE costs nothing before Tangerine Whistle, then 5000, and 25000 more
      for an heir that does not exist, from Spurious Dragon on only if there is
      something to inherit. */
  lemma SuicideMeans(e: Env, code: Bytes, s: State)
    requires Starts(e, code, 0xff, s)
    ensures s.stack != []
    ensures
      var heir := s.stack[0] % 0x1_00000000_0000000000000000_0000000000000000;
      var made := !e.exists_(heir, s.history) && (e.balance(s.history) > 0 || e.rev < 3);
      var fee := if e.rev < 2 then 0 else if made then 30000 else 5000;
      Step(e, code, s) ==
      if e.isStatic then Failed(DisallowedStateChange)
      else if s.gas < fee then Failed(OutOfGas)
      else Ended([], s.gas - fee, s.history + [Destroyed(heir)])
  {
    StartsMeans(e, code, 0xff, s);
    PaysFee(s, SuicideFee(e, AddressOf(s.stack[0]), s.history));
    hide Pay, Starts;
  }

  // Leaving.

  /** RETURN and REVERT hand over memory. */
  lemma ReturnMeans(e: Env, code: Bytes, op: Byte, s: State, p: State, data: Bytes)
    requires Starts(e, code, op, s) && op in {0xf3, 0xfd}
    ensures |s.stack| >= 2
    ensures
      var need, r := Reach(s.stack[0], s.stack[1]), Step(e, code, s);
      && (Short(s, 0, need) ==> r == Failed(OutOfGas))
      && (Paid(s, 0, need, p) && Slice(p.mem, s.stack[0], s.stack[1], data) ==>
            r == if op == 0xf3 then Ended(data, p.gas, s.history) else Reverted(data, p.gas))
  {
    StartsMeans(e, code, op, s);
    var need := Reach(s.stack[0], s.stack[1]);
    Pays(s, 0, need, p);
    ReachIsNeed(s.stack[0], s.stack[1]);
    assert Execute(e, code, op, s) == Leave(op, s);
    hide Pay, Paid, Short, Slice, Reach, Execute, Starts;
    if Paid(s, 0, need, p) && Slice(p.mem, s.stack[0], s.stack[1], data) {
      PaidStack(s, 0, need, p);
      SliceOnce(p.mem, s.stack[0], s.stack[1], data);
    }
  }

  /** STOP, and the end of the code. */
  lemma StopMeans(e: Env, code: Bytes, s: State)
    requires (s.pc >= |code| || code[s.pc] == 0) && |s.stack| <= 1024
    ensures Step(e, code, s) == Ended([], s.gas, s.history)
  {
  }

  // The stack.

  /** PUSH1 to PUSH32 push the bytes behind them, zeros past the end of the
      code, and go on behind those. */
  lemma PushMeans(e: Env, code: Bytes, n: nat, s: State, data: Bytes)
    requires 1 <= n <= 32 && Starts(e, code, (0x5f + n) as Byte, s)
    requires |data| == n && Filled(data, code, s.pc + 1)
    ensures s.gas < 3 ==> Step(e, code, s) == Failed(OutOfGas)
    ensures s.gas >= 3 ==>
      var r := Step(e, code, s);
      && r.Running? && r.state.stack != []
      && r.state == s.(pc := s.pc + 1 + n, stack := [r.state.stack[0]] + s.stack, gas := s.gas - 3)
      && Spelt(r.state.stack[0], data)
  {
    hide Spelt, Filled, Pay, Padded, WordOf;
    StartsMeans(e, code, (0x5f + n) as Byte, s);
    PaysFee(s, 3);
    FilledOnce(data, code, s.pc + 1);
    WordSpelt(data);
    PushedWord(code, s.pc, n);
  }

  lemma PushedWord(code: Bytes, pc: nat, n: nat)
    requires pc < |code| && 1 <= n <= 32 && code[pc] == (0x5f + n) as Byte
    ensures Next(code, pc) == pc + 1 + n && PushValue(code, pc) == WordOf(Padded(code, pc + 1, n))
  {
  }

  /** DUP1 to DUP16 copy the n-th operand to the top. */
  lemma DupMeans(e: Env, code: Bytes, n: nat, s: State)
    requires 1 <= n <= 16 && Starts(e, code, (0x7f + n) as Byte, s)
    ensures |s.stack| >= n
    ensures Step(e, code, s) ==
      if s.gas < 3 then Failed(OutOfGas)
      else Running(s.(pc := s.pc + 1, stack := [s.stack[n - 1]] + s.stack, gas := s.gas - 3))
  {
    hide Pay;
    StartsMeans(e, code, (0x7f + n) as Byte, s);
    PaysFee(s, 3);
  }

  /** SWAP1 to SWAP16 exchange the top with the n-th operand below it. */
  lemma SwapMeans(e: Env, code: Bytes, n: nat, s: State)
    requires 1 <= n <= 16 && Starts(e, code, (0x8f + n) as Byte, s)
    ensures |s.stack| > n
    ensures Step(e, code, s) ==
      if s.gas < 3 then Failed(OutOfGas)
      else
        Running(s.(pc := s.pc + 1, gas := s.gas - 3,
                   stack := [s.stack[n]] + s.stack[1..n] + [s.stack[0]] + s.stack[n + 1..]))
  {
    hide Pay;
    StartsMeans(e, code, (0x8f + n) as Byte, s);
    PaysFee(s, 3);
    assert Exchange(s.stack, n) == [s.stack[n]] + s.stack[1..n] + [s.stack[0]] + s.stack[n + 1..];
  }

  /** POP and JUMPDEST. */
  lemma PopMeans(e: Env, code: Bytes, op: Byte, s: State)
    requires Starts(e, code, op, s) && op in {0x50, 0x5b}
    ensures op == 0x50 ==> s.stack != []
    ensures
      var fee, n := if op == 0x50 then 2 else 1, if op == 0x50 then 1 else 0;
      Step(e, code, s) ==
      if s.gas < fee then Failed(OutOfGas)
      else Running(s.(pc := s.pc + 1, stack := s.stack[n..], gas := s.gas - fee))
  {
    hide Pay;
    StartsMeans(e, code, op, s);
    PaysFee(s, if op == 0x50 then 2 else 1);
  }

  /** JUMP, and JUMPI if its condition is not zero, go to an instruction of the
      code that is a JUMPDEST, or fail. */
  lemma JumpMeans(e: Env, code: Bytes, op: Byte, s: State)
    requires Starts(e, code, op, s) && op in {0x56, 0x57}
    ensures |s.stack| >= if op == 0x56 then 1 else 2
    ensures
      var fee, rest := if op == 0x56 then 8 else 10, if op == 0x56 then s.stack[1..] else s.stack[2..];
      var to := s.stack[0] as nat;
      Step(e, code, s) ==
      if s.gas < fee then Failed(OutOfGas)
      else if op == 0x57 && s.stack[1] == 0 then Running(s.(pc := s.pc + 1, stack := rest, gas := s.gas - fee))
      else if to < |code| && code[to] == 0x5b && Reaches(code, 0, to)
      then Running(s.(pc := to, stack := rest, gas := s.gas - fee))
      else Failed(BadJumpDestination)
  {
    hide Pay;
    StartsMeans(e, code, op, s);
    PaysFee(s, if op == 0x56 then 8 else 10);
  }

  // One word for the operands.

  /** A revision's fee for such an opcode; EXP's goes by the number of bytes of
      the exponent. */
  function WordFee(rev: nat, op: Byte, exponentBytes: nat): nat {
    if op == 0x0a then 10 + exponentBytes * (if rev >= 3 then 50 else 10)
    else if op == 0x31 then if rev >= 2 then 400 else 20
    else if op == 0x3b then if rev >= 2 then 700 else 20
    else if op == 0x54 then if rev >= 2 then 200 else 50
    else if op == 0x40 then 20
    else if op in {0x08, 0x09} then 8
    else if op in {0x02, 0x04, 0x05, 0x06, 0x07, 0x0b} then 5
    else if op in {0x01, 0x03, 0x35} || 0x10 <= op <= 0x1d then 3
    else 2
  }

  /** n is the number of bytes of w. */
  ghost predicate ByteCount(w: Word, n: nat) { w as nat < Pow256(n) && (n > 0 ==> w as nat >= Pow256(n - 1)) }

  /** Equal up to a multiple of 2^256. */
  ghost predicate Same(a: int, b: int) { (a - b) % WORD_LIMIT == 0 }

  function Times(q: int, b: int): int { q * b }

  ghost predicate IsQuotient(a: int, b: int, q: int) { Times(q, b) <= a < Times(q, b) + b }

  ghost predicate IsRemainder(a: int, b: int, r: int) { 0 <= r < b && exists q :: a == Times(q, b) + r }

  lemma Division(a: nat, b: nat)
    requires b > 0
    ensures IsQuotient(a, b, a / b) && IsRemainder(a, b, a % b) && a % b <= a
  {
    assert a == Times(a / b, b) + a % b;
    if a < b { assert a / b == 0; }
  }

  /** What v is, s being the state before the instruction and gas what is left
      after its fee. */
  ghost predicate Yields(e: Env, code: Bytes, op: Byte, s: State, gas: nat, v: Word)
    requires Args(op) <= |s.stack| && IsWordOp(op)
  {
    OperandsTaken(op);
    var a, w := s.stack, v as int;
    if op == 0x01 then Same(w, a[0] as int + a[1] as int)
    else if op == 0x02 then Same(w, a[0] as int * a[1] as int)
    else if op == 0x03 then Same(w, a[0] as int - a[1] as int)
    else if op == 0x04 then if a[1] == 0 then v == 0 else IsQuotient(a[0] as int, a[1] as int, w)
    else if op == 0x06 then if a[1] == 0 then v == 0 else IsRemainder(a[0] as int, a[1] as int, w)
    else if op == 0x08 then
      if a[2] == 0 then v == 0 else IsRemainder(a[0] as int + a[1] as int, a[2] as int, w)
    else if op == 0x09 then
      if a[2] == 0 then v == 0 else IsRemainder(a[0] as int * a[1] as int, a[2] as int, w)
    else if op == 0x0a then Same(w, Power(a[0] as int, a[1] as nat))
    else if op == 0x10 then v == if a[0] < a[1] then 1 else 0
    else if op == 0x11 then v == if a[0] > a[1] then 1 else 0
    else if op == 0x14 then v == if a[0] == a[1] then 1 else 0
    else if op == 0x15 then v == if a[0] == 0 then 1 else 0
    else if op == 0x35 then exists b :: |b| == 32 && Filled(b, e.input, a[0] as nat) && Spelt(v, b)
    else if op == 0x36 then Same(w, |e.input|)
    else if op == 0x38 then Same(w, |code|)
    else if op == 0x3d then Same(w, |s.returnData|)
    else if op == 0x54 then v == e.storage(a[0], s.history)
    else if op == 0x58 then Same(w, s.pc)
    else if op == 0x59 then Same(w, |s.mem|)
    else if op == 0x5a then Same(w, gas)
    else v == e.word(op, a[..Args(op)], s.history)
  }

  predicate IsWordOp(op: Byte) {
    || 0x01 <= op <= 0x0b || 0x10 <= op <= 0x1d || op in {0x38, 0x3a, 0x3b, 0x3d, 0x54, 0x58, 0x59, 0x5a}
    || 0x30 <= op <= 0x36 || 0x40 <= op <= 0x45
  }

  /** The opcodes that replace their operands by one word. */
  lemma WordMeans(e: Env, code: Bytes, op: Byte, s: State, exponentBytes: nat)
    requires Starts(e, code, op, s) && IsWordOp(op)
    requires op == 0x0a ==> |s.stack| >= 2 && ByteCount(s.stack[1], exponentBytes)
    ensures
      var fee, r := WordFee(e.rev, op, exponentBytes), Step(e, code, s);
      && (s.gas < fee ==> r == Failed(OutOfGas))
      && (s.gas >= fee ==>
            && r.Running? && r.state.stack != []
            && r.state == s.(pc := s.pc + 1, gas := s.gas - fee, stack := [r.state.stack[0]] + s.stack[Args(op)..])
            && Yields(e, code, op, s, s.gas - fee, r.state.stack[0]))
  {
    hide Pay, Value, Yields, Args, WordFee, ValueFee;
    StartsMeans(e, code, op, s);
    var fee := WordFee(e.rev, op, exponentBytes);
    FeeIs(e, op, s.stack, exponentBytes);
    PaysFee(s, fee);
    if s.gas >= fee { ValueYields(e, code, op, s, s.gas - fee); }
  }

  lemma FeeIs(e: Env, op: Byte, a: seq<Word>, exponentBytes: nat)
    requires Args(op) <= |a| && IsWordOp(op)
    requires op == 0x0a ==> |a| >= 2 && ByteCount(a[1], exponentBytes)
    ensures ValueFee(e, op, a) == WordFee(e.rev, op, exponentBytes)
  {
    if op == 0x0a {
      BigEndianLength(a[1] as nat, exponentBytes);
      if exponentBytes > 0 { BigEndianLength(a[1] as nat, exponentBytes - 1); }
      hide BigEndian, Pow256;
    }
  }

  lemma ValueYields(e: Env, code: Bytes, op: Byte, s: State, gas: nat)
    requires Args(op) <= |s.stack| && IsWordOp(op)
    ensures IsValue(op) && Yields(e, code, op, s, gas, Value(e, code, op, s.(gas := gas)))
  {
    hide IsQuotient, IsRemainder, Times, Spelt, Filled, WordOf, Power, Wrap, Same;
    OperandsTaken(op);
    var a := s.stack;
    forall n: int
      ensures Same(Wrap(n) as int, n)
    {
      WrapSame(n);
    }
    if op == 0x04 || op == 0x06 {
      if a[1] != 0 { Division(a[0] as nat, a[1] as nat); }
    } else if op == 0x08 {
      if a[2] != 0 { Remainder(a[0] as nat + a[1] as nat, a[2]); }
    } else if op == 0x09 {
      if a[2] != 0 { Remainder(a[0] as nat * a[1] as nat, a[2]); }
    } else if op == 0x35 {
      PaddedFills(e.input, a[0] as nat, 32);
      WordSpelt(Padded(e.input, a[0] as nat, 32));
      hide Padded;
    }
  }

  lemma WrapSame(n: int)
    ensures Same(Wrap(n) as int, n)
  {
  }

  lemma Remainder(n: nat, z: Word)
    requires z > 0
    ensures IsRemainder(n, z as int, Wrap(n % z as int) as int)
  {
    hide IsRemainder, Times;
    Division(n, z as nat);
  }
}
