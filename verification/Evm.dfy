/** The machine the interpreter implements: opcodes and their metrics
    (libevm/Instruction.h, .cpp), and one step of execution stated with exact
    integers, unbounded offsets and the code as the user wrote it.  There is
    no jump table, no constant pool, no 64-bit counter and no code padding. */
module Evm {
  import opened Bytes

  const WORD_LIMIT := 0x1_0000000000000000_0000000000000000_0000000000000000_0000000000000000
  newtype Word = n: int | 0 <= n < 0x1_0000000000000000_0000000000000000_0000000000000000_0000000000000000

  /** Arithmetic on u256 keeps the low 256 bits. */
  function Wrap(n: int): Word { (n % WORD_LIMIT) as Word }

  /** asAddress: the low 160 bits. */
  function AddressOf(w: Word): Word { w % 0x1_00000000_0000000000000000_0000000000000000 }

  function Flag(b: bool): Word { if b then 1 else 0 }

  // Revisions (evmc_revision).
  const HOMESTEAD := 1
  const TANGERINE_WHISTLE := 2
  const SPURIOUS_DRAGON := 3
  const BYZANTIUM := 4
  const CONSTANTINOPLE := 5

  const STOP: Byte := 0x00
  const ADD: Byte := 0x01
  const MUL: Byte := 0x02
  const SUB: Byte := 0x03
  const DIV: Byte := 0x04
  const MOD: Byte := 0x06
  const ADDMOD: Byte := 0x08
  const MULMOD: Byte := 0x09
  const EXP: Byte := 0x0a
  const SIGNEXTEND: Byte := 0x0b
  const LT: Byte := 0x10
  const GT: Byte := 0x11
  const EQ: Byte := 0x14
  const ISZERO: Byte := 0x15
  const NOT: Byte := 0x19
  const SHL: Byte := 0x1b
  const SAR: Byte := 0x1d
  const SHA3: Byte := 0x20
  const ADDRESS: Byte := 0x30
  const BALANCE: Byte := 0x31
  const CALLDATALOAD: Byte := 0x35
  const CALLDATASIZE: Byte := 0x36
  const CALLDATACOPY: Byte := 0x37
  const CODESIZE: Byte := 0x38
  const CODECOPY: Byte := 0x39
  const EXTCODESIZE: Byte := 0x3b
  const EXTCODECOPY: Byte := 0x3c
  const RETURNDATASIZE: Byte := 0x3d
  const RETURNDATACOPY: Byte := 0x3e
  const BLOCKHASH: Byte := 0x40
  const GASLIMIT: Byte := 0x45
  const POP: Byte := 0x50
  const MLOAD: Byte := 0x51
  const MSTORE: Byte := 0x52
  const MSTORE8: Byte := 0x53
  const SLOAD: Byte := 0x54
  const SSTORE: Byte := 0x55
  const JUMP: Byte := 0x56
  const JUMPI: Byte := 0x57
  const PC: Byte := 0x58
  const MSIZE: Byte := 0x59
  const GAS: Byte := 0x5a
  const JUMPDEST: Byte := 0x5b
  const PUSH1: Byte := 0x60
  const PUSH32: Byte := 0x7f
  const DUP1: Byte := 0x80
  const DUP16: Byte := 0x8f
  const SWAP1: Byte := 0x90
  const SWAP16: Byte := 0x9f
  const LOG0: Byte := 0xa0
  const LOG4: Byte := 0xa4
  // Generated by the interpreter; never valid in user code.
  const PUSHC: Byte := 0xac
  const JUMPC: Byte := 0xad
  const JUMPCI: Byte := 0xae
  const CREATE: Byte := 0xf0
  const CALL: Byte := 0xf1
  const CALLCODE: Byte := 0xf2
  const RETURN: Byte := 0xf3
  const DELEGATECALL: Byte := 0xf4
  const STATICCALL: Byte := 0xfa
  const CREATE2: Byte := 0xfb
  const REVERT: Byte := 0xfd
  const INVALID: Byte := 0xfe
  const SUICIDE: Byte := 0xff

  const SIZE_LIMIT := 0x1_0000_0000_0000_0000
  const STACK_LIMIT := 1024
  const DEPTH_LIMIT := 1024

  predicate IsPush(op: Byte) { PUSH1 <= op <= PUSH32 }

  /** How many bytes of data follow the opcode. */
  function PushSize(op: Byte): (n: nat)
    ensures n <= 32
    ensures n > 0 <==> IsPush(op)
  {
    if IsPush(op) then (op - PUSH1) as nat + 1 else 0
  }

  predicate IsDup(op: Byte) { DUP1 <= op <= DUP16 }
  predicate IsSwap(op: Byte) { SWAP1 <= op <= SWAP16 }
  predicate IsLog(op: Byte) { LOG0 <= op <= LOG4 }
  predicate IsCall(op: Byte) { op == CALL || op == CALLCODE || op == DELEGATECALL || op == STATICCALL }
  predicate IsCopy(op: Byte) {
    op == CALLDATACOPY || op == CODECOPY || op == RETURNDATACOPY || op == EXTCODECOPY
  }

  /** Opcodes that replace their operands by one word and touch no memory. */
  predicate IsValue(op: Byte) {
    || ADD <= op <= SIGNEXTEND
    || LT <= op <= SAR
    || (ADDRESS <= op <= RETURNDATASIZE && !IsCopy(op))
    || BLOCKHASH <= op <= GASLIMIT
    || op == SLOAD
    || PC <= op <= GAS
  }

  /** Opcodes with a case of their own in the interpreter. */
  predicate Defined(op: Byte) {
    || op == STOP || IsValue(op) || op == SHA3 || IsCopy(op)
    || POP <= op <= JUMPDEST
    || IsPush(op) || IsDup(op) || IsSwap(op) || IsLog(op)
    || op == CREATE || IsCall(op) || op == RETURN || op == REVERT || op == SUICIDE
  }

  /** The revision checks of the individual cases. */
  predicate Available(rev: nat, op: Byte) {
    && Defined(op)
    && (SHL <= op <= SAR ==> rev >= CONSTANTINOPLE)
    && (op == RETURNDATASIZE || op == RETURNDATACOPY || op == REVERT || op == STATICCALL ==> rev >= BYZANTIUM)
    && (op == DELEGATECALL ==> rev >= HOMESTEAD)
  }

  /** The interpreter's own opcodes. */
  predicate IsSynthetic(op: Byte) { op == PUSHC || op == JUMPC || op == JUMPCI }

  /** Operands of the subroutine and vector opcodes.  This build rejects them,
      but not before their stack check.  (XOOR has no entry of its own.) */
  function ExtendedArgs(op: Byte): nat {
    if op == 0xb1 then 2
    else if 0xb0 <= op <= 0xb8 && op != 0xb5 && op != 0xb6 then 1
    else if 0xc2 <= op <= 0xc7 then 2
    else if op == 0xd6 then 1
    else if 0xd0 <= op <= 0xdf && op != 0xd7 && op != 0xda then 2
    else if op == 0xe0 || op == 0xe1 || op == 0xe4 || op == 0xe6 || op == 0xe7 then 1
    else if op == 0xe2 || op == 0xe5 || op == 0xe8 || op == 0xea then 2
    else if op == 0xe9 || op == 0xeb then 3
    else 0
  }

  function ExtendedRets(op: Byte): nat {
    if op == 0xb9 || 0xc2 <= op <= 0xc7 then 1
    else if 0xd0 <= op <= 0xdf && op != 0xd7 && op != 0xda then 1
    else if op == 0xe0 || op == 0xe1 || op == 0xe4 || 0xe6 <= op <= 0xeb then 1
    else 0
  }

  /** Operands taken. */
  function Args(op: Byte): nat {
    if ADD <= op <= 0x07 || op == EXP || op == SIGNEXTEND then 2
    else if op == ADDMOD || op == MULMOD then 3
    else if op == ISZERO || op == NOT then 1
    else if LT <= op <= SAR || op == SHA3 then 2
    else if op == BALANCE || op == CALLDATALOAD || op == EXTCODESIZE || op == BLOCKHASH then 1
    else if op == EXTCODECOPY then 4
    else if IsCopy(op) then 3
    else if op == POP || op == MLOAD || op == SLOAD || op == JUMP || op == JUMPC || op == SUICIDE then 1
    else if op == MSTORE || op == MSTORE8 || op == SSTORE || op == JUMPI || op == JUMPCI then 2
    else if IsDup(op) then (op - DUP1) as nat + 1
    else if IsSwap(op) then (op - SWAP1) as nat + 2
    else if IsLog(op) then (op - LOG0) as nat + 2
    else if op == CREATE then 3
    else if op == CREATE2 then 4
    else if op == CALL || op == CALLCODE then 7
    else if op == DELEGATECALL || op == STATICCALL then 6
    else if op == RETURN || op == REVERT then 2
    else ExtendedArgs(op)
  }

  /** Results left. */
  function Rets(op: Byte): nat {
    if IsValue(op) || op == SHA3 || op == MLOAD || IsPush(op) || op == PUSHC then 1
    else if IsDup(op) then (op - DUP1) as nat + 2
    else if IsSwap(op) then (op - SWAP1) as nat + 2
    else if op == CREATE || op == CREATE2 || IsCall(op) then 1
    else ExtendedRets(op)
  }

  /** The gas of the opcode's tier; zero for the special tier, and for opcodes
      that are rejected before anything is charged. */
  function TierGas(op: Byte): nat {
    if op == MUL || op == DIV || op == 0x05 || op == MOD || op == 0x07 || op == SIGNEXTEND then 5
    else if op == ADDMOD || op == MULMOD || op == JUMP || op == JUMPC then 8
    else if op == JUMPI || op == JUMPCI then 10
    else if op == ADD || op == SUB || LT <= op <= SAR then 3
    else if op == BALANCE || op == EXTCODESIZE || op == EXTCODECOPY || op == BLOCKHASH then 0
    else if op == CALLDATALOAD || IsCopy(op) then 3
    else if ADDRESS <= op <= RETURNDATASIZE || BLOCKHASH <= op <= GASLIMIT then 2
    else if op == POP || PC <= op <= GAS then 2
    else if op == MLOAD || op == MSTORE || op == MSTORE8 then 3
    else if IsPush(op) || IsDup(op) || IsSwap(op) || op == PUSHC then 3
    else 0
  }

  datatype Kind = KindCall | KindDelegateCall | KindCallCode | KindCreate

  datatype Message = Message(kind: Kind, isStatic: bool, depth: nat, gas: nat, destination: Word,
                             sender: Word, value: Word, input: Bytes)

  datatype Reply = Reply(success: bool, gasLeft: nat, output: Bytes, address: Word)

  /** What a run did to the world, in order. */
  datatype Event =
    | Called(message: Message)
    | Stored(key: Word, value: Word)
    | Logged(data: Bytes, topics: seq<Word>)
    | Destroyed(heir: Word)

  type History = seq<Event>

  /** The message being executed and the world around it.  The world answers
      every question as a function of what the run has done so far.  `cut`
      says whether MLOAD, MSTORE and MSTORE8 cast their offset to 32 bits, as
      the interpreter does, or use all of it. */
  datatype Env = Env(
    rev: nat, isStatic: bool, depth: nat, self: Word, sender: Word, value: Word, input: Bytes,
    word: (Byte, seq<Word>, History) -> Word,
    storage: (Word, History) -> Word,
    exists_: (Word, History) -> bool,
    balance: History -> Word,
    codeOf: (Word, History) -> Bytes,
    call: (Message, History) -> Reply,
    cut: bool)
  {
    /** A callee gives back no more gas than it was given. */
    ghost predicate Honest() {
      forall m: Message, h: History :: call(m, h).gasLeft <= m.gas
    }

    /** Every byte string handed to the machine has a size that fits size_t. */
    ghost predicate Addressable() {
      && |input| < SIZE_LIMIT
      && (forall a: Word, h: History :: |codeOf(a, h)| < SIZE_LIMIT)
      && (forall m: Message, h: History :: |call(m, h).output| < SIZE_LIMIT)
    }
  }

  datatype State = State(pc: nat, stack: seq<Word>, mem: Bytes, gas: nat, returnData: Bytes, history: History)

  datatype Error =
    | OutOfGas | BadInstruction | BadJumpDestination | StackUnderflow | OutOfStack
    | DisallowedStateChange | BufferOverrun

  datatype Status =
    | Running(state: State)
    | Ended(output: Bytes, gas: nat, history: History)
    | Reverted(output: Bytes, gas: nat)
    | Failed(error: Error)
  {
    predicate IsFailure() { !Running? }
    function PropagateFailure(): Status requires !Running? { this }
    function Extract(): State requires Running? { state }
  }

  // Code.

  /** Bytes past the end of the code read as zero, which is STOP. */
  function ByteAt(code: Bytes, p: nat): Byte { if p < |code| then code[p] else 0 }

  /** size bytes of data from the given index on, zeros past its end. */
  function Padded(data: Bytes, from: nat, size: nat): (b: Bytes)
    ensures |b| == size
  {
    seq(size, i requires 0 <= i < size => ByteAt(data, from + i))
  }

  function PushValue(code: Bytes, p: nat): Word {
    Wrap(FromBigEndian(Padded(code, p + 1, PushSize(ByteAt(code, p)))))
  }

  /** Where the instruction after the one at p starts. */
  function Next(code: Bytes, p: nat): nat { p + 1 + PushSize(ByteAt(code, p)) }

  /** Reading instructions from `from` on, one of them starts at p. */
  predicate Reaches(code: Bytes, from: nat, p: nat)
    decreases |code| - from
  {
    from == p || (from < |code| && Reaches(code, Next(code, from), p))
  }

  /** p starts an instruction and that instruction is JUMPDEST. */
  predicate IsJumpDest(code: Bytes, p: nat) {
    p < |code| && code[p] == JUMPDEST && Reaches(code, 0, p)
  }

  // Memory and gas.

  function Words(n: nat): nat { (n + 31) / 32 }

  /** The price of a memory of n bytes. */
  function GasForMem(n: nat): nat { 3 * (n / 32) + (n / 32) * (n / 32) / 512 }

  /** Bytes of memory that must exist to access size bytes at offset. */
  function MemNeed(offset: nat, size: nat): nat { if size == 0 then 0 else offset + size }

  /** Memory grows to a whole number of words and never shrinks. */
  function Grown(current: nat, need: nat): (n: nat)
    ensures n >= current && n >= need
  {
    if Words(need) * 32 > current then Words(need) * 32 else current
  }

  lemma GasForMemMonotone(a: nat, b: nat)
    requires a <= b
    ensures GasForMem(a) <= GasForMem(b)
  {
    var x, y := a / 32, b / 32;
    assert x <= y;
    assert x * x <= y * y;
  }

  /** Charge a fee and the growth of memory to `need` bytes. */
  function Pay(s: State, fee: nat, need: nat): Status {
    var grown := Grown(|s.mem|, need);
    var cost := fee + GasForMem(grown) - GasForMem(|s.mem|);
    if s.gas < cost then Failed(OutOfGas)
    else
      GasForMemMonotone(|s.mem|, grown);
      Running(s.(gas := s.gas - cost, mem := s.mem + Zeros(grown - |s.mem|)))
  }

  /** Overwrite memory from offset on. */
  function Write(mem: Bytes, offset: nat, data: Bytes): (m: Bytes)
    requires data != [] ==> offset + |data| <= |mem|
    ensures |m| == |mem|
  {
    if data == [] then mem else mem[..offset] + data + mem[offset + |data|..]
  }

  function Read(mem: Bytes, offset: nat, size: nat): (b: Bytes)
    requires size > 0 ==> offset + size <= |mem|
    ensures |b| == size
  {
    if size == 0 then [] else mem[offset..offset + size]
  }

  /** A word as 32 bytes, most significant first. */
  function WordBytes(w: Word): (b: Bytes)
    ensures |b| == 32
  {
    WordBytesFit(w);
    var b := BigEndian(w as nat);
    Zeros(32 - |b|) + b
  }

  function WordOf(b: Bytes): Word { Wrap(FromBigEndian(b)) }

  lemma WordBytesFit(w: Word)
    ensures |BigEndian(w as nat)| <= 32
  {
    Pow256Of32();
    BigEndianLength(w as nat, 32);
  }

  lemma Pow256Of32()
    ensures Pow256(32) == WORD_LIMIT
  {
    Pow256Of8();
    Pow256Adds(8, 8);
    Pow256Adds(8, 16);
    Pow256Adds(8, 24);
  }

  lemma {:induction false} Pow256Adds(a: nat, b: nat)
    ensures Pow256(a + b) == Pow256(a) * Pow256(b)
  {
    if a > 0 { Pow256Adds(a - 1, b); }
  }

  lemma {:induction false} LeadingZeros(n: nat, b: Bytes)
    ensures FromBigEndian(Zeros(n) + b) == FromBigEndian(b)
  {
    var z := Zeros(n) + b;
    if b != [] {
      LeadingZeros(n, b[..|b| - 1]);
      assert z[..|z| - 1] == Zeros(n) + b[..|b| - 1];
    } else if n > 0 {
      LeadingZeros(n - 1, b);
      assert z[..|z| - 1] == Zeros(n - 1) + b;
    }
  }

  /** What MSTORE lays out, MLOAD reads back. */
  lemma WordRoundTrip(w: Word)
    ensures WordOf(WordBytes(w)) == w
  {
    WordBytesFit(w);
    LeadingZeros(32 - |BigEndian(w as nat)|, BigEndian(w as nat));
    FromBigEndianInverts(w as nat);
  }

  function Power(base: int, exponent: nat): int {
    if exponent == 0 then 1 else base * Power(base, exponent - 1)
  }

  // One instruction.

  /** The word an IsValue opcode leaves, from the state after its fee.  The
      opcodes not spelled out are left to the environment. */
  function Value(e: Env, code: Bytes, op: Byte, s: State): Word
    requires IsValue(op) && Args(op) <= |s.stack|
  {
    var a := s.stack;
    if op == ADD then Wrap(a[0] as int + a[1] as int)
    else if op == MUL then Wrap(a[0] as int * a[1] as int)
    else if op == SUB then Wrap(a[0] as int - a[1] as int)
    else if op == DIV then (if a[1] == 0 then 0 else a[0] / a[1])
    else if op == MOD then (if a[1] == 0 then 0 else a[0] % a[1])
    else if op == ADDMOD then (if a[2] == 0 then 0 else Wrap((a[0] as int + a[1] as int) % a[2] as int))
    else if op == MULMOD then (if a[2] == 0 then 0 else Wrap((a[0] as int * a[1] as int) % a[2] as int))
    else if op == EXP then Wrap(Power(a[0] as int, a[1] as nat))
    else if op == LT then Flag(a[0] < a[1])
    else if op == GT then Flag(a[0] > a[1])
    else if op == EQ then Flag(a[0] == a[1])
    else if op == ISZERO then Flag(a[0] == 0)
    else if op == CALLDATALOAD then WordOf(Padded(e.input, a[0] as nat, 32))
    else if op == CALLDATASIZE then Wrap(|e.input|)
    else if op == CODESIZE then Wrap(|code|)
    else if op == RETURNDATASIZE then Wrap(|s.returnData|)
    else if op == SLOAD then e.storage(a[0], s.history)
    else if op == PC then Wrap(s.pc)
    else if op == MSIZE then Wrap(|s.mem|)
    else if op == GAS then Wrap(s.gas)
    else e.word(op, a[..Args(op)], s.history)
  }

  function ValueFee(e: Env, op: Byte, a: seq<Word>): nat
    requires Args(op) <= |a|
  {
    if op == EXP then 10 + (if e.rev >= SPURIOUS_DRAGON then 50 else 10) * |BigEndian(a[1] as nat)|
    else if op == BALANCE then (if e.rev >= TANGERINE_WHISTLE then 400 else 20)
    else if op == EXTCODESIZE then (if e.rev >= TANGERINE_WHISTLE then 700 else 20)
    else if op == SLOAD then (if e.rev >= TANGERINE_WHISTLE then 200 else 50)
    else if op == BLOCKHASH then 20
    else TierGas(op)
  }

  /** Where the three operands of a copy start: after the address, if any. */
  function CopyBase(op: Byte): nat { if op == EXTCODECOPY then 1 else 0 }

  function CopySource(e: Env, code: Bytes, op: Byte, s: State): Bytes
    requires IsCopy(op) && Args(op) <= |s.stack|
  {
    if op == CALLDATACOPY then e.input
    else if op == CODECOPY then code
    else if op == RETURNDATACOPY then s.returnData
    else e.codeOf(AddressOf(s.stack[0]), s.history)
  }

  function CopyFee(e: Env, op: Byte): nat
    requires IsCopy(op)
  {
    if op != EXTCODECOPY then TierGas(op) else if e.rev >= TANGERINE_WHISTLE then 700 else 20
  }

  /** Copy size bytes of data, from an index on, to memory; `rest` is the stack
      below the operands. */
  function CopyFrom(s: State, fee: nat, data: Bytes, to: Word, from: Word, size: Word, rest: seq<Word>): Status {
    var p :- Pay(s, fee + 3 * Words(size as nat), MemNeed(to as nat, size as nat));
    Running(p.(pc := s.pc + 1, stack := rest, mem := Write(p.mem, to as nat, Padded(data, from as nat, size as nat))))
  }

  function Copy(e: Env, code: Bytes, op: Byte, s: State): Status
    requires IsCopy(op) && Args(op) <= |s.stack|
  {
    var k := CopyBase(op);
    if op == RETURNDATACOPY && |s.returnData| < s.stack[1] as nat + s.stack[2] as nat then Failed(BufferOverrun)
    else CopyFrom(s, CopyFee(e, op), CopySource(e, code, op, s), s.stack[k], s.stack[k + 1], s.stack[k + 2],
                  s.stack[Args(op)..])
  }

  function Jump(code: Bytes, s: State, dest: Word): Status {
    if IsJumpDest(code, dest as nat) then Running(s.(pc := dest as nat)) else Failed(BadJumpDestination)
  }

  function Branch(code: Bytes, op: Byte, s: State): Status
    requires (op == JUMP || op == JUMPI) && Args(op) <= |s.stack|
  {
    var p :- Pay(s, TierGas(op), 0);
    var t := p.(stack := s.stack[Args(op)..]);
    if op == JUMP || s.stack[1] != 0 then Jump(code, t, s.stack[0])
    else Running(t.(pc := s.pc + 1))
  }

  const CAST_LIMIT := 0x1_0000_0000

  /** Where an offset on the stack leads. */
  function Place(e: Env, w: Word): (n: nat)
    ensures n <= w as nat
    ensures w as nat < CAST_LIMIT ==> n == w as nat
  {
    if e.cut then w as nat % CAST_LIMIT else w as nat
  }

  function Load(e: Env, s: State): Status
    requires Args(MLOAD) <= |s.stack|
  {
    var offset := Place(e, s.stack[0]);
    var p :- Pay(s, TierGas(MLOAD), s.stack[0] as nat + 32);
    Running(p.(pc := s.pc + 1, stack := [WordOf(p.mem[offset..offset + 32])] + s.stack[1..]))
  }

  /** MSTORE with the 32 bytes of a word, MSTORE8 with its lowest byte. */
  function Store(e: Env, s: State, data: Bytes): Status
    requires 2 <= |s.stack|
  {
    var offset := Place(e, s.stack[0]);
    var p :- Pay(s, TierGas(MSTORE), s.stack[0] as nat + |data|);
    Running(p.(pc := s.pc + 1, stack := s.stack[2..], mem := Write(p.mem, offset, data)))
  }

  function Hash(s: State): Status
    requires Args(SHA3) <= |s.stack|
  {
    var offset, size := s.stack[0] as nat, s.stack[1] as nat;
    var p :- Pay(s, 30 + 6 * Words(size), MemNeed(offset, size));
    Running(p.(pc := s.pc + 1, stack := [WordOf(Sha3(Read(p.mem, offset, size)))] + s.stack[2..]))
  }

  function Exchange(a: seq<Word>, n: nat): seq<Word>
    requires 0 < n < |a|
  {
    a[0 := a[n]][n := a[0]]
  }

  function SetStorage(e: Env, s: State): Status
    requires Args(SSTORE) <= |s.stack|
  {
    var key, value := s.stack[0], s.stack[1];
    if e.isStatic then Failed(DisallowedStateChange)
    else
      var p :- Pay(s, if e.storage(key, s.history) == 0 && value != 0 then 20000 else 5000, 0);
      Running(p.(pc := s.pc + 1, stack := s.stack[2..], history := s.history + [Stored(key, value)]))
  }

  function Log(e: Env, op: Byte, s: State): Status
    requires IsLog(op) && Args(op) <= |s.stack|
  {
    var offset, size := s.stack[0] as nat, s.stack[1] as nat;
    if e.isStatic then Failed(DisallowedStateChange)
    else
      var p :- Pay(s, 375 + 375 * (op - LOG0) as nat + 8 * size, MemNeed(offset, size));
      Running(p.(pc := s.pc + 1, stack := s.stack[Args(op)..],
              history := s.history + [Logged(Read(p.mem, offset, size), s.stack[2..Args(op)])]))
  }

  /** All but one 64th, from Tangerine Whistle on. */
  function Forwardable(e: Env, gas: nat): (g: nat)
    ensures g <= gas
  {
    if e.rev >= TANGERINE_WHISTLE then gas - gas / 64 else gas
  }

  /** CREATE once it is paid for, the operands still on the stack. */
  function CreateFrom(e: Env, p: State): State
    requires Args(CREATE) <= |p.stack| && MemNeed(p.stack[1] as nat, p.stack[2] as nat) <= |p.mem|
  {
    var endowment, offset, size := p.stack[0], p.stack[1] as nat, p.stack[2] as nat;
    var rest := p.(pc := p.pc + 1);
    if e.balance(p.history) >= endowment && e.depth < DEPTH_LIMIT then
      var m := Message(KindCreate, false, e.depth + 1, Forwardable(e, p.gas), 0, e.self, endowment,
                       Read(p.mem, offset, size));
      var reply := e.call(m, p.history);
      rest.(stack := [if reply.success then reply.address else 0] + p.stack[3..],
            returnData := reply.output, history := p.history + [Called(m)],
            gas := p.gas - m.gas + reply.gasLeft)
    else rest.(stack := [0 as Word] + p.stack[3..], returnData := [])
  }

  function Create(e: Env, s: State): Status
    requires Args(CREATE) <= |s.stack|
  {
    if e.isStatic then Failed(DisallowedStateChange)
    else
      var p :- Pay(s, 32000, MemNeed(s.stack[1] as nat, s.stack[2] as nat));
      Running(CreateFrom(e, p))
  }

  predicate HasValue(op: Byte) { op == CALL || op == CALLCODE }

  function CallFee(e: Env, op: Byte, a: seq<Word>, h: History): nat
    requires IsCall(op) && Args(op) <= |a|
  {
    (if e.rev >= TANGERINE_WHISTLE then 700 else 40)
    + (if op == CALL && !e.exists_(AddressOf(a[1]), h) && (a[2] > 0 || e.rev < SPURIOUS_DRAGON) then 25000 else 0)
    + (if HasValue(op) && a[2] > 0 then 9000 else 0)
  }

  /** Offset and size of the input, then of the output. */
  function CallRanges(op: Byte, a: seq<Word>): (r: seq<nat>)
    requires IsCall(op) && Args(op) <= |a|
    ensures |r| == 4
  {
    var k := if HasValue(op) then 3 else 2;
    [a[k] as nat, a[k + 1] as nat, a[k + 2] as nat, a[k + 3] as nat]
  }

  function Max(a: nat, b: nat): nat { if a < b then b else a }

  function CallNeed(op: Byte, a: seq<Word>): nat
    requires IsCall(op) && Args(op) <= |a|
  {
    var r := CallRanges(op, a);
    Max(MemNeed(r[0], r[1]), MemNeed(r[2], r[3]))
  }

  /** The gas given to the callee, before the stipend. */
  function CallGas(e: Env, asked: Word, gas: nat): nat {
    if e.rev >= TANGERINE_WHISTLE && asked as nat > Forwardable(e, gas) then Forwardable(e, gas) else asked as nat
  }

  function CallMessage(e: Env, op: Byte, a: seq<Word>, given: nat, input: Bytes): (m: Message)
    requires IsCall(op) && Args(op) <= |a|
    ensures given <= m.gas <= given + 2300
  {
    var value := if HasValue(op) then a[2] else if op == DELEGATECALL then e.value else 0;
    Message(
      if op == CALLCODE then KindCallCode else if op == DELEGATECALL then KindDelegateCall else KindCall,
      op == STATICCALL || e.isStatic, 0,
      given + (if HasValue(op) && value > 0 then 2300 else 0),
      AddressOf(a[1]), if op == DELEGATECALL then e.sender else e.self, value, input)
  }

  function CallInput(op: Byte, a: seq<Word>, mem: Bytes): Bytes
    requires IsCall(op) && Args(op) <= |a| && CallNeed(op, a) <= |mem|
  {
    Read(mem, CallRanges(op, a)[0], CallRanges(op, a)[1])
  }

  /** The value exceeds the balance, or the call is too deep. */
  predicate Refused(e: Env, op: Byte, a: seq<Word>, h: History)
    requires IsCall(op) && Args(op) <= |a|
  {
    (HasValue(op) && a[2] > e.balance(h)) || e.depth >= DEPTH_LIMIT
  }

  /** As much of the callee's output as the caller made room for. */
  function Fitting(output: Bytes, size: nat): Bytes { if size < |output| then output[..size] else output }

  /** The state after a call once the callee's gas has been set aside; `rest`
      is the stack below the operands.  A refused call gives its gas back. */
  function AfterCall(e: Env, pc: nat, rest: seq<Word>, mem: Bytes, gas: nat, h: History,
                     m: Message, refused: bool, outOff: nat, outSize: nat): State
    requires outSize > 0 ==> outOff + outSize <= |mem|
  {
    if refused then State(pc + 1, [0 as Word] + rest, mem, gas + m.gas, [], h)
    else
      var reply := e.call(m, h);
      State(pc + 1, [Flag(reply.success)] + rest, Write(mem, outOff, Fitting(reply.output, outSize)),
            gas + reply.gasLeft, reply.output, h + [Called(m)])
  }

  /** Where a call leaves the caller that has set `given` gas aside for it. */
  function CallWith(e: Env, op: Byte, p: State, given: nat): State
    requires IsCall(op) && Args(op) <= |p.stack| && CallNeed(op, p.stack) <= |p.mem| && given <= p.gas
  {
    var m := CallMessage(e, op, p.stack, given, CallInput(op, p.stack, p.mem));
    var r := CallRanges(op, p.stack);
    AfterCall(e, p.pc, p.stack[Args(op)..], p.mem, p.gas - given, p.history,
              m, Refused(e, op, p.stack, p.history), r[2], r[3])
  }

  /** The calls once their static cost is paid, the operands still on the
      stack. */
  function CallFrom(e: Env, op: Byte, p: State): Status
    requires IsCall(op) && Args(op) <= |p.stack| && CallNeed(op, p.stack) <= |p.mem|
  {
    var given := CallGas(e, p.stack[0], p.gas);
    if p.gas < given then Failed(OutOfGas) else Running(CallWith(e, op, p, given))
  }

  function Call(e: Env, op: Byte, s: State): Status
    requires IsCall(op) && Args(op) <= |s.stack|
  {
    if op == CALL && e.isStatic && s.stack[2] != 0 then Failed(DisallowedStateChange)
    else
      var p :- Pay(s, CallFee(e, op, s.stack, s.history), CallNeed(op, s.stack));
      CallFrom(e, op, p)
  }

  /** RETURN and REVERT. */
  function Leave(op: Byte, s: State): (r: Status)
    requires (op == RETURN || op == REVERT) && Args(op) <= |s.stack|
    ensures !r.Running?
  {
    var offset, size := s.stack[0] as nat, s.stack[1] as nat;
    var p :- Pay(s, 0, MemNeed(offset, size));
    if op == RETURN then Ended(Read(p.mem, offset, size), p.gas, s.history)
    else Reverted(Read(p.mem, offset, size), p.gas)
  }

  function SuicideFee(e: Env, heir: Word, h: History): nat {
    if e.rev < TANGERINE_WHISTLE then 0
    else if (e.balance(h) > 0 || e.rev < SPURIOUS_DRAGON) && !e.exists_(heir, h) then 5000 + 25000
    else 5000
  }

  function SelfDestruct(e: Env, s: State): (r: Status)
    requires Args(SUICIDE) <= |s.stack|
    ensures !r.Running?
  {
    var heir := AddressOf(s.stack[0]);
    if e.isStatic then Failed(DisallowedStateChange)
    else
      var p :- Pay(s, SuicideFee(e, heir, s.history), 0);
      Ended([], p.gas, s.history + [Destroyed(heir)])
  }

  function Push(code: Bytes, s: State): Status {
    var p :- Pay(s, TierGas(PUSH1), 0);
    Running(p.(pc := Next(code, s.pc), stack := [PushValue(code, s.pc)] + s.stack))
  }

  function Dup(s: State, n: nat): Status
    requires n < |s.stack|
  {
    var p :- Pay(s, TierGas(DUP1), 0);
    Running(p.(pc := s.pc + 1, stack := [s.stack[n]] + s.stack))
  }

  function Swap(s: State, n: nat): Status
    requires 0 < n < |s.stack|
  {
    var p :- Pay(s, TierGas(SWAP1), 0);
    Running(p.(pc := s.pc + 1, stack := Exchange(s.stack, n)))
  }

  /** POP and JUMPDEST. */
  function Drop(s: State, fee: nat, n: nat): Status
    requires n <= |s.stack|
  {
    var p :- Pay(s, fee, 0);
    Running(p.(pc := s.pc + 1, stack := s.stack[n..]))
  }

  function Evaluate(e: Env, code: Bytes, op: Byte, s: State): Status
    requires IsValue(op) && Args(op) <= |s.stack|
  {
    var p :- Pay(s, ValueFee(e, op, s.stack), 0);
    Running(p.(pc := s.pc + 1, stack := [Value(e, code, op, p)] + s.stack[Args(op)..]))
  }

  function Execute(e: Env, code: Bytes, op: Byte, s: State): Status
    requires Available(e.rev, op) && op == ByteAt(code, s.pc) && Args(op) <= |s.stack|
  {
    if op == STOP then Ended([], s.gas, s.history)
    else if IsValue(op) then Evaluate(e, code, op, s)
    else if IsPush(op) then Push(code, s)
    else if IsDup(op) then Dup(s, (op - DUP1) as nat)
    else if IsSwap(op) then Swap(s, (op - SWAP1) as nat + 1)
    else if op == POP then Drop(s, TierGas(op), 1)
    else if op == JUMPDEST then Drop(s, 1, 0)
    else if op == JUMP || op == JUMPI then Branch(code, op, s)
    else if op == MLOAD then Load(e, s)
    else if op == MSTORE then Store(e, s, WordBytes(s.stack[1]))
    else if op == MSTORE8 then Store(e, s, [(s.stack[1] % 256) as Byte])
    else if op == SHA3 then Hash(s)
    else if IsCopy(op) then Copy(e, code, op, s)
    else if op == SSTORE then SetStorage(e, s)
    else if IsLog(op) then Log(e, op, s)
    else if op == CREATE then Create(e, s)
    else if IsCall(op) then Call(e, op, s)
    else if op == SUICIDE then SelfDestruct(e, s)
    else Leave(op, s)
  }

  /** One step of the user's code. */
  function Step(e: Env, code: Bytes, s: State): Status {
    var op := ByteAt(code, s.pc);
    if IsSynthetic(op) then Failed(BadInstruction)
    else if |s.stack| < Args(op) then Failed(StackUnderflow)
    else if |s.stack| - Args(op) + Rets(op) > STACK_LIMIT then Failed(OutOfStack)
    else if !Available(e.rev, op) then Failed(BadInstruction)
    else Execute(e, code, op, s)
  }
}
