/** The stock optional value. */
module Wrappers {
  datatype Option<+T> = None | Some(value: T)
}

/** Machine state of the LC-3 virtual machine and its memory access: the
    register file, the 65535-word memory with the memory-mapped keyboard
    registers, the console streams and the condition flags
    (lc3-alt.cpp:18-122, 168-191). */
module MachineState {
  import opened Bits

  /** `uint16_t memory[UINT16_MAX]`: 65535 cells, so index 0xFFFF lies one
      past the end of the array. */
  const MEMORY_SIZE: nat := 65535

  /** Register numbers: R0 to R7, then the program counter and the condition
      register. */
  const R_R0: nat := 0
  const R_R7: nat := 7
  const R_PC: nat := 8
  const R_COND: nat := 9
  const R_COUNT: nat := 10

  /** Condition flags. */
  const FL_POS: Word := 1
  const FL_ZRO: Word := 2
  const FL_NEG: Word := 4

  /** Memory-mapped keyboard status and data registers. */
  const MR_KBSR: Word := 0xFE00
  const MR_KBDR: Word := 0xFE02

  /** What `getchar` returns at the end of the input. */
  const EOF: int := -1

  /** The whole machine: memory, registers, the `running` flag, the
      keystrokes not yet read and the bytes written to standard output. */
  datatype State = State(
    mem: seq<Word>,
    reg: seq<Word>,
    running: bool,
    input: seq<Byte>,
    output: seq<Byte>)
  {
    predicate Valid()
    {
      |mem| == MEMORY_SIZE && |reg| == R_COUNT
    }
  }

  /** Why execution went wrong: calling a missing handler of the opcode table,
      or touching the memory cell past the end of the array. The source's
      behaviour is undefined in both cases, so the model stops. */
  datatype Fault = NoHandler(opcode: Word) | OutOfBounds(address: Word)

  /** The result of one machine operation. */
  datatype Outcome = Next(next: State) | Crash(fault: Fault)

  /** An address has a cell of `memory` behind it. */
  predicate InBounds(a: Word)
  {
    a < MEMORY_SIZE
  }

  /** `check_key()` and the latch in `mem_read`: when a key is waiting, KBSR
      becomes 0x8000 and KBDR receives the key; otherwise KBSR becomes 0. */
  function Poll(s: State): (t: State)
    requires s.Valid()
    ensures t.Valid()
    ensures t.mem[MR_KBSR] == 0x8000 <==> |s.input| > 0
    ensures |t.input| + (if |s.input| > 0 then 1 else 0) == |s.input|
    ensures t.reg == s.reg && t.running == s.running && t.output == s.output
  {
    if |s.input| > 0 then
      s.(mem := s.mem[MR_KBSR := 0x8000][MR_KBDR := s.input[0]],
         input := s.input[1..])
    else
      s.(mem := s.mem[MR_KBSR := 0])
  }

  /** `mem_read(address)`: the word read and the state after the read. */
  function Read(s: State, a: Word): (r: (Word, State))
    requires s.Valid() && InBounds(a)
    ensures r.1.Valid() && r.0 == r.1.mem[a]
    ensures r.1.reg == s.reg && r.1.running == s.running && r.1.output == s.output
    ensures a != MR_KBSR ==> r.1 == s
  {
    var t := if a == MR_KBSR then Poll(s) else s;
    (t.mem[a], t)
  }

  /** Reading an ordinary address returns the stored word and changes
      nothing. */
  lemma ReadPlain(s: State, a: Word)
    requires s.Valid() && InBounds(a) && a != MR_KBSR
    ensures Read(s, a) == (s.mem[a], s)
  {
  }

  /** Reading KBSR polls the keyboard every time: with a key waiting it
      returns the ready bit, latches the key into KBDR and consumes it; with
      none it returns 0. Nothing but those two cells and the input changes. */
  lemma ReadKeyboardStatus(s: State)
    requires s.Valid()
    ensures var (v, t) := Read(s, MR_KBSR);
      && t.Valid()
      && (|s.input| > 0 ==> v == 0x8000 && t.mem[MR_KBDR] == s.input[0]
                            && t.input == s.input[1..])
      && (|s.input| == 0 ==> v == 0 && t.input == s.input)
      && t.mem[MR_KBSR] == v
      && (forall i :: 0 <= i < MEMORY_SIZE && i != MR_KBSR && i != MR_KBDR
                      ==> t.mem[i] == s.mem[i])
      && (|s.input| == 0 ==> t.mem[MR_KBDR] == s.mem[MR_KBDR])
      && t.reg == s.reg && t.running == s.running && t.output == s.output
  {
  }

  /** Reading KBSR and then KBDR delivers a waiting key. */
  lemma KeyboardDelivers(s: State, c: Byte)
    requires s.Valid() && |s.input| > 0 && s.input[0] == c
    ensures var (status, t) := Read(s, MR_KBSR);
      && status == 0x8000
      && Read(t, MR_KBDR).0 == c
  {
  }

  /** `mem_write(address, val)`. */
  function Write(s: State, a: Word, v: Word): (t: State)
    requires s.Valid() && InBounds(a)
    ensures t.Valid()
  {
    s.(mem := s.mem[a := v])
  }

  /** `mem_write` changes exactly one cell and nothing else. */
  lemma WriteOneCell(s: State, a: Word, v: Word)
    requires s.Valid() && InBounds(a)
    ensures var t := Write(s, a, v);
      && t.mem[a] == v
      && (forall i :: 0 <= i < MEMORY_SIZE && i != a ==> t.mem[i] == s.mem[i])
      && t.reg == s.reg && t.running == s.running
      && t.input == s.input && t.output == s.output
  {
  }

  /** Sets register `r` to `v`. */
  function SetReg(s: State, r: nat, v: Word): (t: State)
    requires s.Valid() && r < R_COUNT
    ensures t.Valid()
  {
    s.(reg := s.reg[r := v])
  }

  /** The flag `update_flags` chooses for a register value. */
  function FlagFor(v: Word): (c: Word)
    ensures c == FL_POS || c == FL_ZRO || c == FL_NEG
    ensures c == FL_ZRO <==> v == 0
    ensures c == FL_NEG <==> v >= 0x8000
    ensures c == FL_POS <==> 0 < v < 0x8000
  {
    if v == 0 then FL_ZRO else if v / 0x8000 != 0 then FL_NEG else FL_POS
  }

  /** `update_flags(r)`: COND reflects the sign of register `r`. */
  function SetFlags(s: State, r: nat): (t: State)
    requires s.Valid() && r < R_COUNT
    ensures t.Valid()
  {
    s.(reg := s.reg[R_COND := FlagFor(s.reg[r])])
  }

  /** `update_flags(r)` sets COND to exactly one of P, Z and N, as the value
      of register `r` dictates, and changes no other register and no memory
      cell. */
  lemma SetFlagsOnlyCond(s: State, r: nat)
    requires s.Valid() && r < R_COUNT
    ensures var t := SetFlags(s, r);
      && (t.reg[R_COND] == FL_POS || t.reg[R_COND] == FL_ZRO || t.reg[R_COND] == FL_NEG)
      && (t.reg[R_COND] == FL_ZRO <==> s.reg[r] == 0)
      && (t.reg[R_COND] == FL_NEG <==> s.reg[r] >= 0x8000)
      && (forall i :: 0 <= i < R_COUNT && i != R_COND ==> t.reg[i] == s.reg[i])
      && t.mem == s.mem && t.running == s.running
      && t.input == s.input && t.output == s.output
  {
  }

  /** `getchar()`: the next key as a value 0..255, or EOF when the input is
      exhausted, and the state with that key consumed. */
  function GetChar(s: State): (r: (int, State))
    ensures -1 <= r.0 <= 255
    ensures r.0 == EOF <==> |s.input| == 0
    ensures |s.input| > 0 ==> r.0 == s.input[0] as int && r.1 == s.(input := s.input[1..])
    ensures |s.input| == 0 ==> r.1 == s
  {
    if |s.input| == 0 then (EOF, s) else (s.input[0] as int, s.(input := s.input[1..]))
  }

  /** C's conversion of an `int` to a signed `char` (two's complement,
      eight bits). */
  function ToSignedChar(i: int): (c: int)
    ensures -128 <= c < 128 && (c - i) % 256 == 0
  {
    (i + 128) % 256 - 128
  }

  /** What `putc` writes for an `int` argument: the value converted to
      `unsigned char`. */
  function ToByte(i: int): Byte
  {
    i % 0x100
  }

  /** The bytes of an ASCII string literal. */
  function Ascii(s: string): (b: seq<Byte>)
    requires forall i :: 0 <= i < |s| ==> s[i] as int < 256
    ensures |b| == |s|
    ensures forall i :: 0 <= i < |s| ==> b[i] as int == s[i] as int
  {
    seq(|s|, i requires 0 <= i < |s| => s[i] as int)
  }
}
