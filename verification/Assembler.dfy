/** The assembler script for the EVM (igra-eip4788-modifications/scripts/bytecode-to-hex.py),
    from parsed instructions to hex digits, and a decoder for them. */
module Assembler {
  import opened Types
  import opened Opcodes
  import opened Powers

  /** A line of the program: a name of the table, a push of any size with any value, a push
      without a proper operand, or any other word. */
  datatype Instruction = Named(name: Mnemonic) | Push(size: nat, value: nat) | BadPush | Unknown

  datatype Result = Hex(digits: seq<nat>) | ValueError

  /** hex(v)[2:] */
  function HexDigits(v: nat): (s: seq<nat>)
    ensures s != []
  {
    if v < 16 then [v] else HexDigits(v / 16) + [v % 16]
  }

  /** rjust(width, '0') */
  function Justify(s: seq<nat>, width: nat): seq<nat>
    decreases width - |s|
  {
    if |s| >= width then s else Justify([0] + s, width)
  }

  /** The size is not checked, and a value that is too wide is not cut. */
  function ParsePush(size: nat, value: nat): seq<nat> {
    HexDigits(0x5f + size) + Justify(HexDigits(value), 2 * size)
  }

  function Encode(i: Instruction): Option<seq<nat>> {
    match i
    case Named(m) => if m.Known() then Some([Opcode(m) / 16, Opcode(m) % 16]) else None
    case Push(size, value) => Some(ParsePush(size, value))
    case _ => None
  }

  function Assemble(program: seq<Instruction>): Result {
    if program == [] then Hex([])
    else
      var first := Encode(program[0]);
      if first.None? then ValueError
      else
        var rest := Assemble(program[1..]);
        if rest.ValueError? then ValueError else Hex(first.value + rest.digits)
  }

  lemma {:induction false} AssembleParts(a: seq<Instruction>, b: seq<Instruction>)
    ensures Assemble(a + b) == if Assemble(a).Hex? && Assemble(b).Hex? then Hex(Assemble(a).digits + Assemble(b).digits)
                               else ValueError
  {
    if a == [] {
      assert a + b == b;
    } else {
      AssembleParts(a[1..], b);
      assert (a + b)[1..] == a[1..] + b;
    }
  }

  /** A line that is no instruction: a malformed push, another word, or a name whose number the
      table does not have. */
  predicate NoInstruction(i: Instruction) {
    match i
    case BadPush => true
    case Unknown => true
    case Named(Dup(n)) => n == 0 || n > 16
    case Named(Swap(n)) => n == 0 || n > 16
    case Named(Log(n)) => n > 4
    case _ => false
  }

  /** The script fails exactly on programs with such a line. */
  lemma {:induction false} FailsIff(program: seq<Instruction>)
    ensures Assemble(program).ValueError? <==> exists k :: 0 <= k < |program| && NoInstruction(program[k])
  {
    if program != [] {
      FailsIff(program[1..]);
      assert NoInstruction(program[0]) <==> Encode(program[0]).None?;
      assert forall k :: 1 <= k < |program| ==> program[k] == program[1..][k - 1];
      if Assemble(program[1..]).ValueError? {
        var k :| 0 <= k < |program[1..]| && NoInstruction(program[1..][k]);
        assert NoInstruction(program[k + 1]);
      }
    }
  }

  method BytecodeToHex(program: seq<Instruction>) returns (r: Result)
    ensures r == Assemble(program)
  {
    var hexOutput: seq<nat> := [];
    for k := 0 to |program|
      invariant Assemble(program[..k]) == Hex(hexOutput)
    {
      var code := Encode(program[k]);
      var i := program[k];
      assert Assemble([i]) == if code.None? then ValueError else Hex(code.value + []);
      AssembleParts(program[..k], [i]);
      assert program[..k + 1] == program[..k] + [i];
      if code.None? {
        AssembleParts(program[..k + 1], program[k + 1..]);
        assert program == program[..k + 1] + program[k + 1..];
        return ValueError;
      }
      hexOutput := hexOutput + code.value;
    }
    assert program[..|program|] == program;
    r := Hex(hexOutput);
  }

  // --- decoding: an opcode byte, then N operand bytes after 0x60 to 0x7f ---

  function Value(s: seq<nat>): nat {
    if s == [] then 0 else 16 * Value(s[..|s| - 1]) + s[|s| - 1]
  }

  /** How many operand bytes follow the first one. */
  function OperandSize(s: seq<nat>): nat
    requires |s| >= 2
  {
    var b := 16 * s[0] + s[1];
    if 0x60 <= b <= 0x7f then b - 0x5f else 0
  }

  function Decode(s: seq<nat>): Option<seq<Instruction>>
    decreases |s|
  {
    if s == [] then Some([])
    else if |s| < 2 then None
    else
      var b, size := 16 * s[0] + s[1], OperandSize(s);
      if |s| < 2 + 2 * size || (size == 0 && NameOf(b).None?) then None
      else
        var i := if size == 0 then Named(NameOf(b).value) else Push(size, Value(s[2..2 + 2 * size]));
        var rest := Decode(s[2 + 2 * size..]);
        if rest.None? then None else Some([i] + rest.value)
  }

  /** A name of the table, or push1 to push32 with a value that fits. */
  predicate WellFormed(i: Instruction) {
    match i
    case Named(m) => m.Known()
    case Push(size, value) => 1 <= size <= 32 && value < Pow(256, size)
    case _ => false
  }

  predicate Digits(s: seq<nat>) {
    forall d :: d in s ==> d < 16
  }

  // --- hex numerals ---

  lemma {:induction false} DivMod16(q: nat, r: nat)
    requires r < 16
    ensures (16 * q + r) / 16 == q && (16 * q + r) % 16 == r
  {
  }

  lemma {:induction false} ValuePush(s: seq<nat>, d: nat)
    ensures Value(s + [d]) == 16 * Value(s) + d
  {
    assert (s + [d])[..|s|] == s;
  }

  lemma {:induction false} HexDigitsExact(v: nat)
    ensures Digits(HexDigits(v)) && Value(HexDigits(v)) == v
  {
    if v >= 16 {
      HexDigitsExact(v / 16);
      ValuePush(HexDigits(v / 16), v % 16);
    } else {
      ValuePush([], v);
      assert [] + [v] == [v];
    }
  }

  lemma {:induction false} HexLength(v: nat, k: nat)
    requires k >= 1
    ensures |HexDigits(v)| <= k <==> v < Pow(16, k)
  {
    if k == 1 {
      assert Pow(16, 1) == 16;
    } else {
      PowerPositive(k - 1);
      HexLength(v / 16, k - 1);
    }
  }

  lemma {:induction false} PowerPositive(k: nat)
    ensures Pow(16, k) >= 1 && (k >= 1 ==> Pow(16, k) >= 16)
  {
    if k > 0 {
      PowerPositive(k - 1);
    }
  }

  lemma {:induction false} LeadingZero(s: seq<nat>)
    ensures Value([0] + s) == Value(s)
  {
    if s == [] {
      assert ([0] + s)[..0] == [];
    } else {
      var front := s[..|s| - 1];
      LeadingZero(front);
      assert [0] + s == ([0] + front) + [s[|s| - 1]];
      ValuePush([0] + front, s[|s| - 1]);
    }
  }

  lemma {:induction false} JustifyExact(s: seq<nat>, width: nat)
    ensures var t := Justify(s, width);
      && |t| == (if |s| < width then width else |s|) && Value(t) == Value(s) && (Digits(s) ==> Digits(t))
    decreases width - |s|
  {
    if |s| < width {
      LeadingZero(s);
      JustifyExact([0] + s, width);
    }
  }

  lemma {:induction false} BytesAreDigitPairs(n: nat)
    ensures Pow(256, n) == Pow(16, 2 * n)
  {
    if n > 0 {
      BytesAreDigitPairs(n - 1);
      assert Pow(16, 2 * n) == 16 * Pow(16, 2 * n - 1) == 16 * (16 * Pow(16, 2 * n - 2));
    }
  }

  lemma {:induction false} DigitsPart(s: seq<nat>, lo: nat, hi: nat)
    requires Digits(s) && lo <= hi <= |s|
    ensures Digits(s[lo..hi])
  {
    forall d | d in s[lo..hi] ensures d < 16 {
      var k :| 0 <= k < hi - lo && s[lo..hi][k] == d;
      assert s[lo + k] in s;
    }
  }

  lemma {:induction false} ValueBound(s: seq<nat>)
    requires Digits(s)
    ensures Value(s) < Pow(16, |s|)
  {
    if s != [] {
      DigitsPart(s, 0, |s| - 1);
      ValueBound(s[..|s| - 1]);
      assert s[|s| - 1] in s;
    }
  }

  /** Digits of the same length with the same value are the same. */
  lemma {:induction false} ValueInjective(s: seq<nat>, t: seq<nat>)
    requires Digits(s) && Digits(t) && |s| == |t| && Value(s) == Value(t)
    ensures s == t
  {
    if s != [] {
      var k := |s| - 1;
      assert s[k] in s && t[k] in t;
      DivMod16(Value(s[..k]), s[k]);
      DivMod16(Value(t[..k]), t[k]);
      DigitsPart(s, 0, k);
      DigitsPart(t, 0, k);
      ValueInjective(s[..k], t[..k]);
      assert s == s[..k] + [s[k]] && t == t[..k] + [t[k]];
    }
  }

  // --- one instruction ---

  /** The push opcode takes two digits when the size is at most 32. */
  lemma {:induction false} PushOpcode(size: nat)
    requires 1 <= size <= 32
    ensures HexDigits(0x5f + size) == [(0x5f + size) / 16, (0x5f + size) % 16]
  {
    var q := (0x5f + size) / 16;
    assert 6 <= q < 16;
    assert HexDigits(q) == [q];
  }

  lemma {:induction false} OperandExact(size: nat, value: nat)
    requires size >= 1
    ensures var t := Justify(HexDigits(value), 2 * size);
      Digits(t) && Value(t) == value && (|t| == 2 * size <==> value < Pow(256, size))
  {
    HexDigitsExact(value);
    HexLength(value, 2 * size);
    BytesAreDigitPairs(size);
    JustifyExact(HexDigits(value), 2 * size);
  }

  lemma {:induction false} DecodeOne(i: Instruction, rest: seq<nat>)
    requires WellFormed(i)
    ensures Encode(i).Some?
    ensures Decode(Encode(i).value + rest)
         == if Decode(rest).None? then None else Some([i] + Decode(rest).value)
  {
    if i.Named? {
      NameOfOpcode(i.name);
      DecodeName(i.name, Encode(i).value + rest);
      assert (Encode(i).value + rest)[2..] == rest;
    } else {
      PushOpcode(i.size);
      OperandExact(i.size, i.value);
      var operand := Justify(HexDigits(i.value), 2 * i.size);
      var s := Encode(i).value + rest;
      assert s == HexDigits(0x5f + i.size) + operand + rest;
      DecodePush(i.size, operand, s);
      assert s[2 + 2 * i.size..] == rest;
    }
  }

  lemma {:induction false} DecodePush(size: nat, operand: seq<nat>, s: seq<nat>)
    requires 1 <= size <= 32 && |operand| == 2 * size && |s| >= 2 + 2 * size
    requires 16 * s[0] + s[1] == 0x5f + size && s[2..2 + 2 * size] == operand
    ensures
      var rest := Decode(s[2 + 2 * size..]);
      Decode(s) == if rest.None? then None else Some([Push(size, Value(operand))] + rest.value)
  {
  }

  lemma {:induction false} DecodeName(m: Mnemonic, s: seq<nat>)
    requires |s| >= 2 && 16 * s[0] + s[1] == Opcode(m) && m.Known()
    ensures Decode(s) == if Decode(s[2..]).None? then None else Some([Named(m)] + Decode(s[2..]).value)
  {
    NameOfOpcode(m);
  }

  // --- programs ---

  lemma {:induction false} RoundTrip(program: seq<Instruction>)
    requires forall i :: i in program ==> WellFormed(i)
    ensures Assemble(program).Hex? && Decode(Assemble(program).digits) == Some(program)
  {
    if program != [] {
      assert program[0] in program;
      RoundTrip(program[1..]);
      DecodeOne(program[0], Assemble(program[1..]).digits);
      assert program == [program[0]] + program[1..];
    }
  }

  /** What the decoder reads assembles to the same digits, and is well-formed. */
  lemma {:induction false} Reassembles(s: seq<nat>)
    requires Digits(s) && Decode(s).Some?
    ensures forall i :: i in Decode(s).value ==> WellFormed(i)
    ensures Assemble(Decode(s).value) == Hex(s)
    decreases |s|
  {
    if s != [] {
      FirstReassembles(s);
      var n, program := 2 + 2 * OperandSize(s), Decode(s).value;
      DigitsPart(s, n, |s|);
      assert s[n..|s|] == s[n..] && s == s[..n] + s[n..];
      Reassembles(s[n..]);
      assert program == [program[0]] + program[1..];
    }
  }

  /** The first instruction that is decoded encodes to the digits it was read from. */
  lemma {:induction false} FirstReassembles(s: seq<nat>)
    requires Digits(s) && s != [] && Decode(s).Some?
    ensures |s| >= 2 && 2 + 2 * OperandSize(s) <= |s| && Decode(s).value != []
    ensures
      var n, i := 2 + 2 * OperandSize(s), Decode(s).value[0];
      WellFormed(i) && Encode(i) == Some(s[..n]) && Decode(s[n..]) == Some(Decode(s).value[1..])
  {
    var size := DecodedFirst(s);
    assert s[0] in s && s[1] in s;
    DivMod16(s[0], s[1]);
    if size > 0 {
      assert 0x5f + size == 16 * s[0] + s[1];
      DigitsPart(s, 2, 2 + 2 * size);
      PushReassembles(size, s[2..2 + 2 * size]);
      assert s[..2 + 2 * size] == [s[0], s[1]] + s[2..2 + 2 * size];
    } else {
      NameReassembles(16 * s[0] + s[1]);
      assert s[..2] == [s[0], s[1]];
    }
  }

  lemma {:induction false} NameReassembles(b: nat)
    requires NameOf(b).Some?
    ensures WellFormed(Named(NameOf(b).value))
    ensures Encode(Named(NameOf(b).value)) == Some([b / 16, b % 16])
  {
  }

  lemma {:induction false} DecodedFirst(s: seq<nat>) returns (size: nat)
    requires s != [] && Decode(s).Some?
    ensures |s| >= 2 && size == OperandSize(s) <= 32 && 2 + 2 * size <= |s|
    ensures Decode(s[2 + 2 * size..]).Some?
    ensures
      var b, first := 16 * s[0] + s[1], if size == 0 then s[..2] else s[2..2 + 2 * size];
      && (size == 0 ==> NameOf(b).Some?)
      && Decode(s).value == [if size == 0 then Named(NameOf(b).value) else Push(size, Value(first))]
                            + Decode(s[2 + 2 * size..]).value
  {
    size := OperandSize(s);
  }

  lemma {:induction false} PushReassembles(size: nat, operand: seq<nat>)
    requires 1 <= size <= 32 && |operand| == 2 * size && Digits(operand)
    ensures WellFormed(Push(size, Value(operand)))
    ensures Encode(Push(size, Value(operand))) == Some([(0x5f + size) / 16, (0x5f + size) % 16] + operand)
  {
    ValueBound(operand);
    BytesAreDigitPairs(size);
    OperandExact(size, Value(operand));
    ValueInjective(operand, Justify(HexDigits(Value(operand)), 2 * size));
    PushOpcode(size);
  }

  /** Decoding the output gives back the program exactly when every name is in the table
      and every push has 1 to 32 bytes and a value that fits them. */
  lemma {:induction false} RoundTripIff(program: seq<Instruction>)
    ensures (Assemble(program).Hex? && Decode(Assemble(program).digits) == Some(program))
       <==> forall i :: i in program ==> WellFormed(i)
  {
    if forall i :: i in program ==> WellFormed(i) {
      RoundTrip(program);
    } else if Assemble(program).Hex? && Decode(Assemble(program).digits) == Some(program) {
      AssembledDigits(program);
      Reassembles(Assemble(program).digits);
    }
  }

  lemma {:induction false} AssembledDigits(program: seq<Instruction>)
    requires Assemble(program).Hex?
    ensures Digits(Assemble(program).digits)
  {
    if program != [] {
      AssembledDigits(program[1..]);
      var i := program[0];
      if i.Named? {
        NameOfOpcode(i.name);
      } else {
        HexDigitsExact(0x5f + i.size);
        HexDigitsExact(i.value);
        JustifyExact(HexDigits(i.value), 2 * i.size);
      }
    }
  }

  /** push33 1 is assembled without an error, into something that reads as dup1 and stops. */
  lemma {:induction false} WidePush()
    ensures var r := Assemble([Push(33, 1)]);
      r.Hex? && r.digits[..2] == HexDigits(0x80) && NameOf(0x80) == Some(Dup(1))
  {
    var code := ParsePush(33, 1);
    assert Assemble([Push(33, 1)]) == Hex(code + []);
    assert HexDigits(0x80) == [8, 0];
  }
}
