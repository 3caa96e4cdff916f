/** What one instruction, one trap and the fetch loop do to the machine
    (lc3-alt.cpp:221-389, 416-426), written opcode by opcode as the
    instruction set defines it. The class in machine.dfy follows the
    source's mask-driven code and is proved to agree with these functions. */
module Semantics {
  import opened Bits
  import opened Wrappers
  import opened MachineState
  import opened Decoder

  const TRAP_GETC: Word := 0x20
  const TRAP_OUT: Word := 0x21
  const TRAP_PUTS: Word := 0x22
  const TRAP_IN: Word := 0x23
  const TRAP_PUTSP: Word := 0x24
  const TRAP_HALT: Word := 0x25

  /** The program counter `main` starts from. */
  const PC_START: Word := 0x3000

  /** What `printf("Enter a character: ")` writes. */
  const PROMPT: seq<Byte> := Ascii("Enter a character: ")

  /** What `puts("HALT")` writes. */
  const HALT_LINE: seq<Byte> := Ascii("HALT\n")

  /** The words from address `a` up to, not including, the first zero word;
      `None` when no zero word comes before the end of `memory`, so that
      the source's `while (*c)` walk reads past the array. */
  function Text(mem: seq<Word>, a: nat): (w: Option<seq<Word>>)
    requires a <= |mem|
    ensures w.Some? ==>
      && a + |w.value| < |mem| && mem[a + |w.value|] == 0
      && (forall i :: 0 <= i < |w.value| ==> w.value[i] == mem[a + i] && w.value[i] != 0)
    decreases |mem| - a
  {
    if a == |mem| then None
    else if mem[a] == 0 then Some([])
    else match Text(mem, a + 1)
      case None => None
      case Some(rest) => Some([mem[a]] + rest)
  }

  /** `Text` finds the string that ends at the first zero word from `a`. */
  lemma {:induction false} TextFound(mem: seq<Word>, a: nat, w: seq<Word>)
    requires a <= |mem|
    ensures Text(mem, a) == Some(w) <==>
      && a + |w| < |mem|
      && mem[a..a + |w|] == w
      && mem[a + |w|] == 0
      && (forall i :: 0 <= i < |w| ==> w[i] != 0)
    decreases |mem| - a
  {
    if a == |mem| {
    } else if mem[a] == 0 {
    } else {
      if w != [] {
        TextFound(mem, a + 1, w[1..]);
        assert w == [w[0]] + w[1..];
        if a + |w| < |mem| {
          assert mem[a..a + |w|] == [mem[a]] + mem[a + 1..a + 1 + |w[1..]|];
        }
      }
    }
  }

  /** `Text` fails exactly when every word from `a` to the end is nonzero. */
  lemma {:induction false} TextRunsOff(mem: seq<Word>, a: nat)
    requires a <= |mem|
    ensures Text(mem, a).None? <==> forall i :: a <= i < |mem| ==> mem[i] != 0
    decreases |mem| - a
  {
    if a < |mem| && mem[a] != 0 {
      TextRunsOff(mem, a + 1);
    }
  }

  /** PUTS output: the low byte of every word. */
  function PutsBytes(words: seq<Word>): (out: seq<Byte>)
    ensures |out| == |words|
    ensures forall i :: 0 <= i < |words| ==> out[i] == words[i] % 0x100
  {
    seq(|words|, i requires 0 <= i < |words| => LowByte(words[i]))
  }

  /** PUTSP output of one word: the low byte, then the high byte when it is
      not zero. */
  function PackedChars(w: Word): seq<Byte>
  {
    var hi := HighByte(w);
    [LowByte(w)] + (if hi != 0 then [hi] else [])
  }

  /** PUTSP output of a sequence of words: the output of all but the last
      word, then the packed characters of the last. */
  function PutspBytes(words: seq<Word>): seq<Byte>
  {
    if words == [] then [] else PutspBytes(words[..|words| - 1]) + PackedChars(words[|words| - 1])
  }

  /** PUTSP output of the words `mem[a..c]`, built one word at a time as
      the walk visits them. */
  function PutspRange(mem: seq<Word>, a: nat, c: nat): seq<Byte>
    requires a <= c <= |mem|
    decreases c - a
  {
    if c == a then [] else PutspRange(mem, a, c - 1) + PackedChars(mem[c - 1])
  }

  /** The word-at-a-time output of the walk is the output of the string. */
  lemma {:induction false} PutspRangeIsString(mem: seq<Word>, a: nat, c: nat)
    requires a <= c <= |mem|
    ensures PutspRange(mem, a, c) == PutspBytes(mem[a..c])
    decreases c - a
  {
    if c > a {
      PutspRangeIsString(mem, a, c - 1);
      assert mem[a..c][..c - 1 - a] == mem[a..c - 1];
    }
  }

  /** TRAP PUTS: the string at R0, one character per word. */
  function Puts(s: State): (o: Outcome)
    requires s.Valid()
    ensures o.Crash? ==> o.fault == OutOfBounds(0xFFFF)
    ensures o.Next? ==> o.next == s.(output := o.next.output) && s.output <= o.next.output
  {
    match Text(s.mem, s.reg[R_R0] as nat)
    case None => Crash(OutOfBounds(0xFFFF))
    case Some(words) => Next(s.(output := s.output + PutsBytes(words)))
  }

  /** TRAP PUTSP: the string at R0, two characters per word. */
  function Putsp(s: State): (o: Outcome)
    requires s.Valid()
    ensures o.Crash? ==> o.fault == OutOfBounds(0xFFFF)
    ensures o.Next? ==> o.next == s.(output := o.next.output) && s.output <= o.next.output
  {
    match Text(s.mem, s.reg[R_R0] as nat)
    case None => Crash(OutOfBounds(0xFFFF))
    case Some(words) => Next(s.(output := s.output + PutspBytes(words)))
  }

  /** The outcome of PUTS and PUTSP once the walk from R0 has stopped at
      `c`: at the end of memory, or at the first zero word. */
  lemma StringWalked(s: State, c: nat)
    requires s.Valid() && s.reg[R_R0] <= c <= MEMORY_SIZE
    requires forall i :: s.reg[R_R0] <= i < c ==> s.mem[i] != 0
    requires c < MEMORY_SIZE ==> s.mem[c] == 0
    ensures var words := s.mem[s.reg[R_R0]..c];
      && Puts(s) == (if c == MEMORY_SIZE then Crash(OutOfBounds(0xFFFF))
                     else Next(s.(output := s.output + PutsBytes(words))))
      && Putsp(s) == (if c == MEMORY_SIZE then Crash(OutOfBounds(0xFFFF))
                      else Next(s.(output := s.output + PutspBytes(words))))
  {
    var start: nat := s.reg[R_R0];
    if c == MEMORY_SIZE {
      TextRunsOff(s.mem, start);
    } else {
      TextFound(s.mem, start, s.mem[start..c]);
    }
  }

  /** The effect of a trap with vector `v`: the `switch` at
      lc3-alt.cpp:309-376, which has no `default`. */
  function Trap(s: State, v: Word): (o: Outcome)
    requires s.Valid()
    ensures o.Next? ==> o.next.Valid()
  {
    var r0 := s.reg[R_R0];
    if v == TRAP_GETC then
      var (c, t) := GetChar(s);
      Next(SetFlags(SetReg(t, R_R0, ToWord(c)), R_R0))
    else if v == TRAP_OUT then
      Next(s.(output := s.output + [LowByte(r0)]))
    else if v == TRAP_PUTS then
      Puts(s)
    else if v == TRAP_IN then
      var (c, t) := GetChar(s.(output := s.output + PROMPT));
      var ch := ToSignedChar(c);
      Next(SetFlags(SetReg(t.(output := t.output + [ToByte(ch)]), R_R0, ToWord(ch)), R_R0))
    else if v == TRAP_PUTSP then
      Putsp(s)
    else if v == TRAP_HALT then
      Next(s.(output := s.output + HALT_LINE, running := false))
    else
      Next(s)
  }

  /** LD and LDR: register `dr` receives the word read at `a`. */
  function LoadRegister(s: State, dr: nat, a: Word): (o: Outcome)
    requires s.Valid() && dr < 8
    ensures o.Next? ==> o.next.Valid()
  {
    if !InBounds(a) then Crash(OutOfBounds(a))
    else
      var (v, t) := Read(s, a);
      Next(SetReg(t, dr, v))
  }

  /** ST and STR: the word `v` is written at `a`. */
  function Store(s: State, a: Word, v: Word): (o: Outcome)
    requires s.Valid()
    ensures o.Next? ==> o.next.Valid()
  {
    if !InBounds(a) then Crash(OutOfBounds(a)) else Next(Write(s, a, v))
  }

  /** The second operand of ADD and AND. */
  function Operand2(s: State, instr: Word): Word
    requires s.Valid()
  {
    if ImmMode(instr) then Imm5(instr) else s.reg[Sr2(instr)]
  }

  /** `PC + PCoffset9`, modulo 2^16. */
  function PcRelative(s: State, instr: Word): Word
    requires s.Valid()
  {
    ToWord(s.reg[R_PC] + PcOffset9(instr))
  }

  /** `BaseR + offset6`, modulo 2^16. */
  function BaseRelative(s: State, instr: Word): Word
    requires s.Valid()
  {
    ToWord(s.reg[Sr1(instr)] + Offset6(instr))
  }

  /** What the handler of an opcode does before its final `update_flags`,
      once the fetch has advanced PC. */
  function Step(s: State, instr: Word): (o: Outcome)
    requires s.Valid()
    ensures o.Next? ==> o.next.Valid()
  {
    var op := Opcode(instr);
    var pc := s.reg[R_PC];
    var dr := Dr(instr);
    if op == OP_BR then
      Next(if And(dr, s.reg[R_COND]) != 0 then SetReg(s, R_PC, PcRelative(s, instr)) else s)
    else if op == OP_ADD then
      Next(SetReg(s, dr, ToWord(s.reg[Sr1(instr)] + Operand2(s, instr))))
    else if op == OP_AND then
      Next(SetReg(s, dr, And(s.reg[Sr1(instr)], Operand2(s, instr))))
    else if op == OP_NOT then
      Next(SetReg(s, dr, Not(s.reg[Sr1(instr)])))
    else if op == OP_JMP then
      Next(SetReg(s, R_PC, s.reg[Sr1(instr)]))
    else if op == OP_JSR then
      var t := SetReg(s, R_R7, pc);
      Next(SetReg(t, R_PC, if LongFlag(instr) then ToWord(pc + PcOffset11(instr)) else t.reg[Sr1(instr)]))
    else if op == OP_LD then
      LoadRegister(s, dr, PcRelative(s, instr))
    else if op == OP_LDI then
      var a := PcRelative(s, instr);
      if !InBounds(a) then Crash(OutOfBounds(a))
      else
        var (p, t) := Read(s, a);
        LoadRegister(t, dr, p)
    else if op == OP_LDR then
      LoadRegister(s, dr, BaseRelative(s, instr))
    else if op == OP_LEA then
      Next(SetReg(s, dr, PcRelative(s, instr)))
    else if op == OP_ST then
      Store(s, PcRelative(s, instr), s.reg[dr])
    else if op == OP_STI then
      var a := PcRelative(s, instr);
      if !InBounds(a) then Crash(OutOfBounds(a))
      else
        var (p, t) := Read(s, a);
        Store(t, p, s.reg[dr])
    else if op == OP_STR then
      Store(s, BaseRelative(s, instr), s.reg[dr])
    else if op == OP_TRAP then
      Trap(s, TrapVector(instr))
    else
      // RTI and the reserved opcode: a NULL entry of `op_table`.
      Crash(NoHandler(op))
  }

  /** Executes one instruction whose fetch has already advanced PC: the step
      of its opcode, then, for the opcodes of the flag mask, COND from the
      destination register. */
  function Execute(s: State, instr: Word): (o: Outcome)
    requires s.Valid()
    ensures o.Next? ==> o.next.Valid()
  {
    match Step(s, instr)
    case Crash(f) => Crash(f)
    case Next(t) => Next(if SetsFlags(Opcode(instr)) then SetFlags(t, Dr(instr)) else t)
  }

  /** One turn of the `while (running)` loop: fetch at PC, advance PC
      modulo 2^16, execute. */
  function Cycle(s: State): (o: Outcome)
    requires s.Valid()
    ensures o.Next? ==> o.next.Valid()
  {
    var pc := s.reg[R_PC];
    if !InBounds(pc) then Crash(OutOfBounds(pc))
    else
      var (instr, t) := Read(s, pc);
      Execute(SetReg(t, R_PC, ToWord(pc + 1)), instr)
  }

  /** The fetch loop, run for at most `fuel` turns or until `running` is
      cleared. */
  function Run(s: State, fuel: nat): (o: Outcome)
    requires s.Valid()
    ensures o.Next? ==> o.next.Valid()
    decreases fuel, 1
  {
    if !s.running || fuel == 0 then Next(s) else RunTurn(s, fuel)
  }

  /** A turn of the fetch loop that is allowed to run, then the rest of the
      loop with one turn less. */
  function RunTurn(s: State, fuel: nat): (o: Outcome)
    requires s.Valid() && fuel > 0
    ensures o.Next? ==> o.next.Valid()
    decreases fuel, 0
  {
    match Cycle(s)
    case Crash(f) => Crash(f)
    case Next(t) => Run(t, fuel - 1)
  }

  /** The state `main` reaches before its loop (lc3-alt.cpp:416-419): COND
      holds Z and PC the start address. */
  function Boot(s: State): (b: State)
    requires s.Valid()
    ensures b.Valid()
  {
    s.(reg := s.reg[R_COND := FL_ZRO][R_PC := PC_START])
  }
}
