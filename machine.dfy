/** The virtual machine as the source runs it: the global `memory` and `reg`
    arrays, the `running` flag and the console, updated in place by
    `mem_read`, `mem_write`, `update_flags`, `ins<op>`, the loader and the
    fetch loop in `main`. Every method is proved against the functions of
    modules MachineState, Semantics and Loader. */
module Vm {
  import opened Bits
  import opened Wrappers
  import opened MachineState
  import opened Decoder
  import opened Semantics
  import Loader

  class Machine {
    /** `uint16_t memory[UINT16_MAX]`. */
    const memory: array<Word>
    /** `uint16_t reg[R_COUNT]`. */
    const reg: array<Word>
    /** `int running`. */
    var running: bool
    /** Keystrokes not yet read from standard input. */
    var input: seq<Byte>
    /** Bytes written to standard output so far. */
    var output: seq<Byte>

    ghost predicate Valid()
    {
      memory.Length == MEMORY_SIZE && reg.Length == R_COUNT && memory != reg
    }

    /** The machine as a value. */
    ghost function Model(): State
      reads this, memory, reg
    {
      State(memory[..], reg[..], running, input, output)
    }

    /** The value-level outcome a method that reports `fault` has produced. */
    ghost function Result(fault: Option<Fault>): Outcome
      reads this, memory, reg
    {
      if fault.None? then Next(Model()) else Crash(fault.value)
    }

    /** Zero-initialised globals, `running = 1`, and the keys the user will
        type. */
    constructor (keys: seq<Byte>)
      ensures Valid()
      ensures Model() == State(seq(MEMORY_SIZE, _ => 0), seq(R_COUNT, _ => 0), true, keys, [])
    {
      memory := new Word[MEMORY_SIZE](_ => 0);
      reg := new Word[R_COUNT](_ => 0);
      running := true;
      input := keys;
      output := [];
    }

    /** `check_key()`: whether a key is waiting. */
    method CheckKey() returns (ready: bool)
      ensures ready <==> |input| > 0
    {
      ready := |input| > 0;
    }

    /** `getchar()`. */
    method ReadChar() returns (c: int)
      requires Valid()
      modifies this
      ensures (c, Model()) == GetChar(old(Model()))
    {
      if |input| == 0 {
        c := EOF;
      } else {
        c := input[0] as int;
        input := input[1..];
      }
    }

    /** `mem_write`. */
    method MemWrite(address: Word, val: Word)
      requires Valid() && InBounds(address)
      modifies memory
      ensures Model() == Write(old(Model()), address, val)
    {
      memory[address] := val;
    }

    /** `mem_read`, with the keyboard latch on KBSR. */
    method MemRead(address: Word) returns (v: Word)
      requires Valid() && InBounds(address)
      modifies this, memory
      ensures (v, Model()) == Read(old(Model()), address)
    {
      if address == MR_KBSR {
        var ready := CheckKey();
        if ready {
          memory[MR_KBSR] := 0x8000;
          var c := ReadChar();
          memory[MR_KBDR] := ToWord(c);
        } else {
          memory[MR_KBSR] := 0;
        }
      }
      v := memory[address];
    }

    /** `update_flags(r)`. */
    method UpdateFlags(r: nat)
      requires Valid() && r < R_COUNT
      modifies reg
      ensures Model() == SetFlags(old(Model()), r)
    {
      if reg[r] == 0 {
        reg[R_COND] := FL_ZRO;
      } else if reg[r] / 0x8000 != 0 {
        reg[R_COND] := FL_NEG;
      } else {
        reg[R_COND] := FL_POS;
      }
    }

    /** TRAP PUTS: the `while (*c)` walk from R0, one character per word. */
    method Puts() returns (fault: Option<Fault>)
      requires Valid()
      modifies this
      ensures Result(fault) == Semantics.Puts(old(Model()))
    {
      var c: nat := reg[R_R0];
      ghost var start := c;
      ghost var mem := memory[..];
      while c < MEMORY_SIZE && memory[c] != 0
        invariant start <= c <= MEMORY_SIZE
        invariant forall i :: start <= i < c ==> mem[i] != 0
        invariant output == old(output) + PutsBytes(mem[start..c])
        invariant input == old(input) && running == old(running)
        decreases MEMORY_SIZE - c
      {
        assert mem[start..c + 1] == mem[start..c] + [mem[c]];
        output := output + [LowByte(memory[c])];
        c := c + 1;
      }
      StringWalked(old(Model()), c);
      if c == MEMORY_SIZE {
        return Some(OutOfBounds(0xFFFF));
      }
      fault := None;
    }

    /** The body of the PUTSP loop: `putc` of the low byte, then of the high
        byte unless it is zero. */
    method PutPacked(w: Word)
      modifies this
      ensures output == old(output) + PackedChars(w)
      ensures input == old(input) && running == old(running)
    {
      var char1 := LowByte(w);
      output := output + [char1];
      var char2 := HighByte(w);
      if char2 != 0 {
        output := output + [char2];
      }
    }

    /** The `while (*c)` walk of PUTSP from R0: stops at the first zero word
        or at the end of `memory`, having written the packed characters of
        every word before it. */
    method PutspWalk() returns (c: nat)
      requires Valid()
      modifies this
      ensures reg[R_R0] <= c <= MEMORY_SIZE
      ensures forall i :: reg[R_R0] <= i < c ==> memory[i] != 0
      ensures c < MEMORY_SIZE ==> memory[c] == 0
      ensures output == old(output) + PutspBytes(memory[reg[R_R0]..c])
      ensures input == old(input) && running == old(running)
    {
      var start: nat := reg[R_R0];
      ghost var mem := memory[..];
      c := start;
      while c < MEMORY_SIZE && memory[c] != 0
        invariant start <= c <= MEMORY_SIZE
        invariant forall i :: start <= i < c ==> memory[i] != 0
        invariant output == old(output) + PutspRange(mem, start, c)
        invariant input == old(input) && running == old(running)
        decreases MEMORY_SIZE - c
      {
        PutPacked(memory[c]);
        c := c + 1;
      }
      PutspRangeIsString(mem, start, c);
    }

    /** TRAP PUTSP: the string at R0, two characters per word. */
    method Putsp() returns (fault: Option<Fault>)
      requires Valid()
      modifies this
      ensures Result(fault) == Semantics.Putsp(old(Model()))
    {
      var c := PutspWalk();
      StringWalked(old(Model()), c);
      if c == MEMORY_SIZE {
        return Some(OutOfBounds(0xFFFF));
      }
      fault := None;
    }

    /** The TRAP case of `ins<op>`: the `switch` on the trap vector. */
    method TrapRoutine(vector: Word) returns (fault: Option<Fault>)
      requires Valid()
      modifies this, reg
      ensures Result(fault) == Trap(old(Model()), vector)
    {
      fault := None;
      if vector == TRAP_GETC {
        var c := ReadChar();
        reg[R_R0] := ToWord(c);
        UpdateFlags(R_R0);
      } else if vector == TRAP_OUT {
        output := output + [LowByte(reg[R_R0])];
      } else if vector == TRAP_PUTS {
        fault := Puts();
      } else if vector == TRAP_IN {
        output := output + PROMPT;
        var got := ReadChar();
        var c := ToSignedChar(got);
        output := output + [ToByte(c)];
        reg[R_R0] := ToWord(c);
        UpdateFlags(R_R0);
      } else if vector == TRAP_PUTSP {
        fault := Putsp();
      } else if vector == TRAP_HALT {
        output := output + HALT_LINE;
        running := false;
      }
    }

    /** The steps of `ins<op>` that change only PC and R7: BR (mask 0x0001),
        JMP (0x1000) and JSR/JSRR (0x0010). JSRR saves the return address
        in R7 before it reads the base register, so `JSRR R7` jumps to
        the return address. */
    method ControlStep(op: Word, instr: Word, f: Fields)
      requires Valid() && op == Opcode(instr) && op in {OP_BR, OP_JMP, OP_JSR}
      requires f == Decode(op, instr, reg[..])
      modifies reg
      ensures Next(Model()) == Step(old(Model()), instr)
    {
      MaskTable(op);
      if op == OP_BR {
        var cond := instr / 0x200 % 8;
        if And(cond, reg[R_COND]) != 0 {
          reg[R_PC] := f.pcPlusOff.value;
        }
      } else if op == OP_JMP {
        reg[R_PC] := reg[f.r1.value];
      } else {
        var longFlag := instr / 0x800 % 2;
        reg[R_R7] := reg[R_PC];
        if longFlag != 0 {
          var pcPlusOff := ToWord(reg[R_PC] as int + PcOffset11(instr));
          reg[R_PC] := pcPlusOff;
        } else {
          reg[R_PC] := reg[f.r1.value];
        }
      }
    }

    /** The steps of `ins<op>` that compute into `r0`: ADD (mask 0x0002),
        AND (0x0020) and NOT (0x0200). */
    method OperateStep(op: Word, instr: Word, f: Fields)
      requires Valid() && op == Opcode(instr) && op in {OP_ADD, OP_AND, OP_NOT}
      requires f == Decode(op, instr, reg[..])
      modifies reg
      ensures Next(Model()) == Step(old(Model()), instr)
    {
      MaskTable(op);
      if op == OP_ADD {
        if f.immFlag.value {
          reg[f.r0.value] := ToWord(reg[f.r1.value] as int + f.imm5.value);
        } else {
          reg[f.r0.value] := ToWord(reg[f.r1.value] as int + reg[f.r2.value]);
        }
      } else if op == OP_AND {
        if f.immFlag.value {
          reg[f.r0.value] := And(reg[f.r1.value], f.imm5.value);
        } else {
          reg[f.r0.value] := And(reg[f.r1.value], reg[f.r2.value]);
        }
      } else {
        reg[f.r0.value] := Not(reg[f.r1.value]);
      }
    }

    /** The steps of `ins<op>` that load into `r0`: LD (mask 0x0004), LDI
        (0x0400), LDR (0x0040) and LEA (0x4000). */
    method LoadStep(op: Word, instr: Word, f: Fields) returns (fault: Option<Fault>)
      requires Valid() && op == Opcode(instr) && op in {OP_LD, OP_LDI, OP_LDR, OP_LEA}
      requires f == Decode(op, instr, reg[..])
      modifies this, memory, reg
      ensures Result(fault) == Step(old(Model()), instr)
    {
      MaskTable(op);
      fault := None;
      if op == OP_LD {
        if !InBounds(f.pcPlusOff.value) {
          return Some(OutOfBounds(f.pcPlusOff.value));
        }
        var v := MemRead(f.pcPlusOff.value);
        reg[f.r0.value] := v;
      } else if op == OP_LDI {
        if !InBounds(f.pcPlusOff.value) {
          return Some(OutOfBounds(f.pcPlusOff.value));
        }
        var p := MemRead(f.pcPlusOff.value);
        if !InBounds(p) {
          return Some(OutOfBounds(p));
        }
        var v := MemRead(p);
        reg[f.r0.value] := v;
      } else if op == OP_LDR {
        if !InBounds(f.basePlusOff.value) {
          return Some(OutOfBounds(f.basePlusOff.value));
        }
        var v := MemRead(f.basePlusOff.value);
        reg[f.r0.value] := v;
      } else {
        reg[f.r0.value] := f.pcPlusOff.value;
      }
    }

    /** The steps of `ins<op>` that store `r0`: ST (mask 0x0008), STI
        (0x0800) and STR (0x0080). */
    method StoreStep(op: Word, instr: Word, f: Fields) returns (fault: Option<Fault>)
      requires Valid() && op == Opcode(instr) && op in {OP_ST, OP_STI, OP_STR}
      requires f == Decode(op, instr, reg[..])
      modifies this, memory
      ensures Result(fault) == Step(old(Model()), instr)
    {
      MaskTable(op);
      fault := None;
      if op == OP_ST {
        if !InBounds(f.pcPlusOff.value) {
          return Some(OutOfBounds(f.pcPlusOff.value));
        }
        MemWrite(f.pcPlusOff.value, reg[f.r0.value]);
      } else if op == OP_STI {
        if !InBounds(f.pcPlusOff.value) {
          return Some(OutOfBounds(f.pcPlusOff.value));
        }
        var p := MemRead(f.pcPlusOff.value);
        if !InBounds(p) {
          return Some(OutOfBounds(p));
        }
        MemWrite(p, reg[f.r0.value]);
      } else {
        if !InBounds(f.basePlusOff.value) {
          return Some(OutOfBounds(f.basePlusOff.value));
        }
        MemWrite(f.basePlusOff.value, reg[f.r0.value]);
      }
    }

    /** `ins<op>(instr)` for an opcode with a handler: the fields named by
        the decoding masks are extracted first, then the step whose
        single-bit mask is bit `op` runs (each of the masks 0x0001 to 0x8000
        selects exactly one opcode), then `update_flags(r0)` for the opcodes
        of mask 0x4666. */
    method Ins(op: Word, instr: Word) returns (fault: Option<Fault>)
      requires Valid() && op == Opcode(instr) && op != OP_RTI && op != OP_RES
      modifies this, memory, reg
      ensures Result(fault) == Execute(old(Model()), instr)
    {
      fault := None;
      var f := Decode(op, instr, reg[..]);
      FieldsDecodedForUse(op, instr, reg[..]);
      if op in {OP_BR, OP_JMP, OP_JSR} {
        ControlStep(op, instr, f);
      } else if op in {OP_ADD, OP_AND, OP_NOT} {
        OperateStep(op, instr, f);
      } else if op in {OP_LD, OP_LDI, OP_LDR, OP_LEA} {
        fault := LoadStep(op, instr, f);
      } else if op in {OP_ST, OP_STI, OP_STR} {
        fault := StoreStep(op, instr, f);
      } else {
        assert op == OP_TRAP;
        fault := TrapRoutine(TrapVector(instr));
      }
      if fault.Some? {
        return;
      }
      if Selects(MASK_FLAGS, op) {
        UpdateFlags(f.r0.value);
      }
    }

    /** Lines 416-419 of `main`: COND := Z, PC := 0x3000. */
    method Boot()
      requires Valid()
      modifies reg
      ensures Model() == Semantics.Boot(old(Model()))
    {
      reg[R_COND] := FL_ZRO;
      reg[R_PC] := PC_START;
    }

    /** One turn of `while (running)`: `mem_read(reg[R_PC]++)`, then the
        handler `op_table[instr >> 12]`, which is NULL for RTI and the
        reserved opcode. */
    method Cycle() returns (fault: Option<Fault>)
      requires Valid()
      modifies this, memory, reg
      ensures Result(fault) == Semantics.Cycle(old(Model()))
    {
      var pc := reg[R_PC];
      reg[R_PC] := ToWord(pc as int + 1);
      if !InBounds(pc) {
        return Some(OutOfBounds(pc));
      }
      var instr := MemRead(pc);
      var op: Word := instr / 0x1000;
      if op == OP_RTI || op == OP_RES {
        return Some(NoHandler(op));
      }
      fault := Ins(op, instr);
    }

    /** One turn of the fetch loop, as the `k`-turn run of the machine sees
        it: the turn crashes the run or leaves `k - 1` turns to go. */
    method Turn(ghost k: nat) returns (fault: Option<Fault>)
      requires Valid() && running && k > 0
      modifies this, memory, reg
      ensures fault.Some? ==> Semantics.Run(old(Model()), k) == Crash(fault.value)
      ensures fault.None? ==> Semantics.Run(old(Model()), k) == Semantics.Run(Model(), k - 1)
    {
      fault := Cycle();
    }

    /** The fetch loop, for at most `fuel` turns. */
    method Run(fuel: nat) returns (fault: Option<Fault>)
      requires Valid()
      modifies this, memory, reg
      ensures Result(fault) == Semantics.Run(old(Model()), fuel)
    {
      var steps := 0;
      while running && steps < fuel
        invariant steps <= fuel
        invariant Semantics.Run(old(Model()), fuel) == Semantics.Run(Model(), fuel - steps)
        decreases fuel - steps
      {
        fault := Turn(fuel - steps);
        if fault.Some? {
          return;
        }
        steps := steps + 1;
      }
      fault := None;
    }

    /** `fread(p, sizeof(uint16_t), n, file)` on a little-endian host: cell
        `o + k` receives word `k` of the body with its bytes in file order as
        the low and then the high byte. */
    method ReadWords(o: nat, image: seq<Byte>, n: nat)
      requires Valid() && o + n <= MEMORY_SIZE && 2 * n + 2 <= |image|
      modifies memory
      ensures forall a :: 0 <= a < MEMORY_SIZE ==>
                memory[a] == (if o <= a < o + n
                              then LittleEndian(image[2 * (a - o) + 2], image[2 * (a - o) + 3])
                              else old(memory[a]))
    {
      var i := 0;
      while i < n
        invariant 0 <= i <= n
        invariant forall a :: 0 <= a < MEMORY_SIZE ==>
                    memory[a] == (if o <= a < o + i
                                  then LittleEndian(image[2 * (a - o) + 2], image[2 * (a - o) + 3])
                                  else old(memory[a]))
      {
        memory[o + i] := LittleEndian(image[2 * i + 2], image[2 * i + 3]);
        i := i + 1;
      }
    }

    /** The `swap16` loop of `read_image_file` over the `n` words read from
        `o` on. */
    method SwapWords(o: nat, n: nat)
      requires Valid() && o + n <= MEMORY_SIZE
      modifies memory
      ensures forall a :: 0 <= a < MEMORY_SIZE ==>
                memory[a] == (if o <= a < o + n then SwapBytes(old(memory[a])) else old(memory[a]))
    {
      var p := o;
      var read := n;
      while read > 0
        invariant o <= p && p + read == o + n
        invariant forall a :: 0 <= a < MEMORY_SIZE ==>
                    memory[a] == (if o <= a < p then SwapBytes(old(memory[a])) else old(memory[a]))
      {
        memory[p] := SwapBytes(memory[p]);
        p := p + 1;
        read := read - 1;
      }
    }

    /** `read_image_file` over the bytes of the file: `fread` of the origin,
        `fread` of up to `UINT16_MAX - origin` words in host (little-endian)
        order, then the `swap16` loop over the words read. */
    method LoadImage(image: seq<Byte>)
      requires Valid()
      modifies memory
      ensures Model() == old(Model()).(mem := Loader.Load(old(memory[..]), image))
    {
      if |image| < 2 {
        return;
      }
      var origin := SwapBytes(LittleEndian(image[0], image[1]));
      SwapLittleToBig(image[0], image[1]);
      var maxRead: Word := 0xFFFF - origin;
      var available := (|image| - 2) / 2;
      var read := if available < maxRead then available else maxRead;
      assert origin == Loader.Origin(image) && read == Loader.WordCount(image);
      ghost var m0 := memory[..];
      ReadWords(origin, image, read);
      ghost var m1 := memory[..];
      SwapWords(origin, read);
      Loader.LoadInHostOrder(m0, image, origin, read, m1, memory[..]);
      assert memory[..] == Loader.Load(m0, image);
    }

    /** The `for (j = 1; j < argc; ++j)` loop of `main`: every image, in
        the order given. */
    method LoadImages(images: seq<seq<Byte>>)
      requires Valid()
      modifies memory
      ensures Model() == old(Model()).(mem := Loader.LoadAll(old(memory[..]), images))
    {
      var j := 0;
      while j < |images|
        invariant j <= |images|
        invariant Model() == old(Model()).(mem := Loader.LoadAll(old(memory[..]), images[..j]))
      {
        LoadImage(images[j]);
        assert images[..j + 1][..j] == images[..j];
        j := j + 1;
      }
      assert images[..j] == images;
    }

    /** `main` from the loading of the images to the end of the loop, for at
        most `fuel` turns. */
    method Start(images: seq<seq<Byte>>, fuel: nat) returns (fault: Option<Fault>)
      requires Valid()
      modifies this, memory, reg
      ensures Result(fault) ==
        Semantics.Run(Semantics.Boot(old(Model()).(mem := Loader.LoadAll(old(memory[..]), images))), fuel)
    {
      LoadImages(images);
      Boot();
      fault := Run(fuel);
    }
  }
}
