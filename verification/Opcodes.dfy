/** The opcode table of igra-eip4788-modifications/scripts/bytecode-to-hex.py, grouped as
    in Appendix H of the Ethereum Yellow Paper. */
module Opcodes {
  import opened Types

  datatype Arithmetic =
    | Stop | Add | Mul | Sub | Div | Sdiv | Mod | Smod | Addmod
    | Mulmod | Exp | Signextend

  datatype Comparison =
    | Lt | Gt | Slt | Sgt | Eq | Iszero | And | Or | Xor
    | Not | Byte | Shl | Shr | Sar

  datatype Environment =
    | Address | Balance | Origin | Caller | Callvalue | Calldataload | Calldatasize | Calldatacopy | Codesize
    | Codecopy | Gasprice | Extcodesize | Extcodecopy | Returndatasize | Returndatacopy | Extcodehash

  datatype Block =
    | Blockhash | Coinbase | Timestamp | Number | Prevrandao | Gaslimit | Chainid | Selfbalance | Basefee
    | Blobhash | Blobbasefee

  datatype Flow =
    | Pop | Mload | Mstore | Mstore8 | Sload | Sstore | Jump | Jumpi | Msize
    | Gas | Jumpdest | Push0

  datatype System =
    | Create | Call | Callcode | Return | Delegatecall | Create2 | Staticcall | Revert | Selfdestruct

  /** dup, swap and log carry their number. */
  datatype Mnemonic =
    | Arithmetic(arithmetic: Arithmetic) | Comparison(comparison: Comparison) | Keccak256
    | Environment(environment: Environment) | Block(block: Block) | Flow(flow: Flow)
    | Dup(n: nat) | Swap(n: nat) | Log(n: nat) | System(system: System)
  {
    /** The table has dup1 to dup16, swap1 to swap16 and log0 to log4. */
    predicate Known() {
      match this
      case Dup(n) => 1 <= n <= 16
      case Swap(n) => 1 <= n <= 16
      case Log(n) => n <= 4
      case _ => true
    }
  }

  function ArithmeticCode(m: Arithmetic): nat {
    match m
    case Stop => 0x00 case Add => 0x01 case Mul => 0x02 case Sub => 0x03 case Div => 0x04
    case Sdiv => 0x05 case Mod => 0x06 case Smod => 0x07 case Addmod => 0x08 case Mulmod => 0x09
    case Exp => 0x0a case Signextend => 0x0b
  }

  function ArithmeticOf(b: nat): (m: Option<Arithmetic>)
    ensures m.Some? ==> ArithmeticCode(m.value) == b
  {
    match b
    case 0x00 => Some(Stop) case 0x01 => Some(Add) case 0x02 => Some(Mul) case 0x03 => Some(Sub)
    case 0x04 => Some(Div) case 0x05 => Some(Sdiv) case 0x06 => Some(Mod) case 0x07 => Some(Smod)
    case 0x08 => Some(Addmod) case 0x09 => Some(Mulmod) case 0x0a => Some(Exp) case 0x0b => Some(Signextend)
    case _ => None
  }

  function ComparisonCode(m: Comparison): nat {
    match m
    case Lt => 0x10 case Gt => 0x11 case Slt => 0x12 case Sgt => 0x13 case Eq => 0x14
    case Iszero => 0x15 case And => 0x16 case Or => 0x17 case Xor => 0x18 case Not => 0x19
    case Byte => 0x1a case Shl => 0x1b case Shr => 0x1c case Sar => 0x1d
  }

  function ComparisonOf(b: nat): (m: Option<Comparison>)
    ensures m.Some? ==> ComparisonCode(m.value) == b
  {
    match b
    case 0x10 => Some(Lt) case 0x11 => Some(Gt) case 0x12 => Some(Slt) case 0x13 => Some(Sgt)
    case 0x14 => Some(Eq) case 0x15 => Some(Iszero) case 0x16 => Some(And) case 0x17 => Some(Or)
    case 0x18 => Some(Xor) case 0x19 => Some(Not) case 0x1a => Some(Byte) case 0x1b => Some(Shl)
    case 0x1c => Some(Shr) case 0x1d => Some(Sar)
    case _ => None
  }

  function EnvironmentCode(m: Environment): nat {
    match m
    case Address => 0x30 case Balance => 0x31 case Origin => 0x32 case Caller => 0x33 case Callvalue => 0x34
    case Calldataload => 0x35 case Calldatasize => 0x36 case Calldatacopy => 0x37
    case Codesize => 0x38 case Codecopy => 0x39
    case Gasprice => 0x3a case Extcodesize => 0x3b case Extcodecopy => 0x3c
    case Returndatasize => 0x3d case Returndatacopy => 0x3e
    case Extcodehash => 0x3f
  }

  function EnvironmentOf(b: nat): (m: Option<Environment>)
    ensures m.Some? ==> EnvironmentCode(m.value) == b
  {
    match b
    case 0x30 => Some(Address) case 0x31 => Some(Balance) case 0x32 => Some(Origin) case 0x33 => Some(Caller)
    case 0x34 => Some(Callvalue) case 0x35 => Some(Calldataload)
    case 0x36 => Some(Calldatasize) case 0x37 => Some(Calldatacopy)
    case 0x38 => Some(Codesize) case 0x39 => Some(Codecopy) case 0x3a => Some(Gasprice) case 0x3b => Some(Extcodesize)
    case 0x3c => Some(Extcodecopy) case 0x3d => Some(Returndatasize)
    case 0x3e => Some(Returndatacopy) case 0x3f => Some(Extcodehash)
    case _ => None
  }

  function BlockCode(m: Block): nat {
    match m
    case Blockhash => 0x40 case Coinbase => 0x41 case Timestamp => 0x42 case Number => 0x43 case Prevrandao => 0x44
    case Gaslimit => 0x45 case Chainid => 0x46 case Selfbalance => 0x47 case Basefee => 0x48 case Blobhash => 0x49
    case Blobbasefee => 0x4a
  }

  function BlockOf(b: nat): (m: Option<Block>)
    ensures m.Some? ==> BlockCode(m.value) == b
  {
    match b
    case 0x40 => Some(Blockhash) case 0x41 => Some(Coinbase) case 0x42 => Some(Timestamp) case 0x43 => Some(Number)
    case 0x44 => Some(Prevrandao) case 0x45 => Some(Gaslimit) case 0x46 => Some(Chainid) case 0x47 => Some(Selfbalance)
    case 0x48 => Some(Basefee) case 0x49 => Some(Blobhash) case 0x4a => Some(Blobbasefee)
    case _ => None
  }

  function FlowCode(m: Flow): nat {
    match m
    case Pop => 0x50 case Mload => 0x51 case Mstore => 0x52 case Mstore8 => 0x53 case Sload => 0x54
    case Sstore => 0x55 case Jump => 0x56 case Jumpi => 0x57 case Msize => 0x59 case Gas => 0x5a
    case Jumpdest => 0x5b case Push0 => 0x5f
  }

  function FlowOf(b: nat): (m: Option<Flow>)
    ensures m.Some? ==> FlowCode(m.value) == b
  {
    match b
    case 0x50 => Some(Pop) case 0x51 => Some(Mload) case 0x52 => Some(Mstore) case 0x53 => Some(Mstore8)
    case 0x54 => Some(Sload) case 0x55 => Some(Sstore) case 0x56 => Some(Jump) case 0x57 => Some(Jumpi)
    case 0x59 => Some(Msize) case 0x5a => Some(Gas) case 0x5b => Some(Jumpdest) case 0x5f => Some(Push0)
    case _ => None
  }

  function SystemCode(m: System): nat {
    match m
    case Create => 0xf0 case Call => 0xf1 case Callcode => 0xf2 case Return => 0xf3 case Delegatecall => 0xf4
    case Create2 => 0xf5 case Staticcall => 0xfa case Revert => 0xfd case Selfdestruct => 0xff
  }

  function SystemOf(b: nat): (m: Option<System>)
    ensures m.Some? ==> SystemCode(m.value) == b
  {
    match b
    case 0xf0 => Some(Create) case 0xf1 => Some(Call) case 0xf2 => Some(Callcode) case 0xf3 => Some(Return)
    case 0xf4 => Some(Delegatecall) case 0xf5 => Some(Create2) case 0xfa => Some(Staticcall) case 0xfd => Some(Revert)
    case 0xff => Some(Selfdestruct)
    case _ => None
  }

  /** OPCODES */
  function Opcode(m: Mnemonic): nat {
    match m
    case Arithmetic(a) => ArithmeticCode(a)
    case Comparison(c) => ComparisonCode(c)
    case Keccak256 => 0x20
    case Environment(e) => EnvironmentCode(e)
    case Block(b) => BlockCode(b)
    case Flow(f) => FlowCode(f)
    case Dup(n) => 0x7f + n
    case Swap(n) => 0x8f + n
    case Log(n) => 0xa0 + n
    case System(s) => SystemCode(s)
  }

  /** The table read backwards. */
  function NameOf(b: nat): (m: Option<Mnemonic>)
    ensures m.Some? ==> m.value.Known() && Opcode(m.value) == b
  {
    if b < 0x10 then (match ArithmeticOf(b) case Some(a) => Some(Arithmetic(a)) case None => None)
    else if b < 0x20 then (match ComparisonOf(b) case Some(c) => Some(Comparison(c)) case None => None)
    else if b == 0x20 then Some(Keccak256)
    else if b < 0x40 then (match EnvironmentOf(b) case Some(e) => Some(Environment(e)) case None => None)
    else if b < 0x50 then (match BlockOf(b) case Some(k) => Some(Block(k)) case None => None)
    else if b < 0x60 then (match FlowOf(b) case Some(f) => Some(Flow(f)) case None => None)
    else if 0x80 <= b < 0x90 then Some(Dup(b - 0x7f))
    else if 0x90 <= b < 0xa0 then Some(Swap(b - 0x8f))
    else if 0xa0 <= b <= 0xa4 then Some(Log(b - 0xa0))
    else (match SystemOf(b) case Some(s) => Some(System(s)) case None => None)
  }

  /** No two names of the table share an opcode, and none takes a push opcode. */
  lemma {:induction false} NameOfOpcode(m: Mnemonic)
    requires m.Known()
    ensures NameOf(Opcode(m)) == Some(m) && Opcode(m) < 0x100 && !(0x60 <= Opcode(m) <= 0x7f)
  {
  }

  // --- the table again, in the order of the bytes ---

  const FROM_00: seq<Arithmetic> := [Stop, Add, Mul, Sub, Div, Sdiv, Mod, Smod, Addmod, Mulmod, Exp, Signextend]

  const FROM_10: seq<Comparison> := [Lt, Gt, Slt, Sgt, Eq, Iszero, And, Or, Xor, Not, Byte, Shl, Shr, Sar]

  const FROM_30: seq<Environment> := [
    Address, Balance, Origin, Caller, Callvalue, Calldataload, Calldatasize, Calldatacopy, Codesize, Codecopy,
    Gasprice, Extcodesize, Extcodecopy, Returndatasize, Returndatacopy, Extcodehash]

  const FROM_40: seq<Block> := [
    Blockhash, Coinbase, Timestamp, Number, Prevrandao, Gaslimit, Chainid, Selfbalance, Basefee, Blobhash, Blobbasefee]

  const FROM_50: seq<Flow> := [Pop, Mload, Mstore, Mstore8, Sload, Sstore, Jump, Jumpi]

  const FROM_F0: seq<System> := [Create, Call, Callcode, Return, Delegatecall, Create2]

  lemma {:induction false} ArithmeticInOrder(i: nat)
    requires i < |FROM_00|
    ensures ArithmeticCode(FROM_00[i]) == i
  {
  }

  lemma {:induction false} ComparisonInOrder(i: nat)
    requires i < |FROM_10|
    ensures ComparisonCode(FROM_10[i]) == 0x10 + i
  {
  }

  lemma {:induction false} EnvironmentInOrder(i: nat)
    requires i < |FROM_30|
    ensures EnvironmentCode(FROM_30[i]) == 0x30 + i
  {
  }

  lemma {:induction false} BlockInOrder(i: nat)
    requires i < |FROM_40|
    ensures BlockCode(FROM_40[i]) == 0x40 + i
  {
  }

  lemma {:induction false} FlowInOrder(i: nat)
    requires i < |FROM_50|
    ensures FlowCode(FROM_50[i]) == 0x50 + i
  {
  }

  lemma {:induction false} SystemInOrder(i: nat)
    requires i < |FROM_F0|
    ensures SystemCode(FROM_F0[i]) == 0xf0 + i
  {
  }

  /** The names of the table follow each other as the bytes do. */
  lemma {:induction false} TableInOrder()
    ensures forall i :: 0 <= i < |FROM_00| ==> Opcode(Arithmetic(FROM_00[i])) == i
    ensures forall i :: 0 <= i < |FROM_10| ==> Opcode(Comparison(FROM_10[i])) == 0x10 + i
    ensures Opcode(Keccak256) == 0x20
    ensures forall i :: 0 <= i < |FROM_30| ==> Opcode(Environment(FROM_30[i])) == 0x30 + i
    ensures forall i :: 0 <= i < |FROM_40| ==> Opcode(Block(FROM_40[i])) == 0x40 + i
    ensures forall i :: 0 <= i < |FROM_50| ==> Opcode(Flow(FROM_50[i])) == 0x50 + i
    ensures forall n :: 1 <= n <= 16 ==> Opcode(Dup(n)) == 0x80 + n - 1 && Opcode(Swap(n)) == 0x90 + n - 1
    ensures forall n :: 0 <= n <= 4 ==> Opcode(Log(n)) == 0xa0 + n
    ensures forall i :: 0 <= i < |FROM_F0| ==> Opcode(System(FROM_F0[i])) == 0xf0 + i
  {
    forall i | 0 <= i < |FROM_00| ensures Opcode(Arithmetic(FROM_00[i])) == i {
      ArithmeticInOrder(i);
    }
    forall i | 0 <= i < |FROM_10| ensures Opcode(Comparison(FROM_10[i])) == 0x10 + i {
      ComparisonInOrder(i);
    }
    forall i | 0 <= i < |FROM_30| ensures Opcode(Environment(FROM_30[i])) == 0x30 + i {
      EnvironmentInOrder(i);
    }
    forall i | 0 <= i < |FROM_40| ensures Opcode(Block(FROM_40[i])) == 0x40 + i {
      BlockInOrder(i);
    }
    forall i | 0 <= i < |FROM_50| ensures Opcode(Flow(FROM_50[i])) == 0x50 + i {
      FlowInOrder(i);
    }
    forall i | 0 <= i < |FROM_F0| ensures Opcode(System(FROM_F0[i])) == 0xf0 + i {
      SystemInOrder(i);
    }
  }

  /** The names with a gap before them. */
  lemma {:induction false} AfterGaps()
    ensures Opcode(Flow(Msize)) == 0x59 && Opcode(Flow(Gas)) == 0x5a && Opcode(Flow(Jumpdest)) == 0x5b
    ensures Opcode(Flow(Push0)) == 0x5f
    ensures Opcode(System(Staticcall)) == 0xfa && Opcode(System(Revert)) == 0xfd && Opcode(System(Selfdestruct)) == 0xff
  {
  }
}
