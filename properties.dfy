/** What the instructions, traps and the fetch loop promise, stated against
    the machine state rather than against the handler code: which registers
    and cells each instruction changes, when a branch is taken, how COND
    evolves, and what the fetch loop does over several turns. */
module Properties {
  import opened Bits
  import opened Wrappers
  import opened MachineState
  import opened Decoder
  import opened Semantics

  /** COND holds one of the three flags. */
  predicate IsFlag(c: Word)
  {
    c == FL_POS || c == FL_ZRO || c == FL_NEG
  }

  /** The n, z and p bits of BR select the negative, zero and positive
      flags: with COND holding one flag, `cond & reg[R_COND]` is nonzero
      exactly when the bit of that flag is set in bits 11-9. */
  lemma BranchTakenIff(nzp: nat, cond: Word)
    requires nzp < 8 && IsFlag(cond)
    ensures And(nzp, cond) != 0 <==>
      || (cond == FL_NEG && nzp / 4 == 1)
      || (cond == FL_ZRO && nzp / 2 % 2 == 1)
      || (cond == FL_POS && nzp % 2 == 1)
  {
    assert And(nzp / 4, 0) == 0 && And(nzp / 2 / 2, 0) == 0;
    assert And(nzp / 2, 0) == 0 && And(nzp / 2, 1) == nzp / 2 % 2;
    assert And(nzp / 2 / 2, 1) == nzp / 4;
    assert And(nzp / 2, 2) == 2 * And(nzp / 2 / 2, 1);
  }

  /** BR changes at most PC: it jumps to `PC + PCoffset9` when one of its
      n, z, p bits names the flag in COND, and otherwise falls through. No
      other register, no memory cell and no stream changes. */
  lemma BranchChangesOnlyPc(s: State, instr: Word)
    requires s.Valid() && Opcode(instr) == OP_BR && IsFlag(s.reg[R_COND])
    ensures Execute(s, instr).Next?
    ensures var t := Execute(s, instr).next;
      var nzp, cond := Dr(instr), s.reg[R_COND];
      var taken := (cond == FL_NEG && nzp / 4 == 1) || (cond == FL_ZRO && nzp / 2 % 2 == 1)
                   || (cond == FL_POS && nzp % 2 == 1);
      && t.reg[R_PC] == (if taken then ToWord(s.reg[R_PC] + PcOffset9(instr)) else s.reg[R_PC])
      && (forall r :: 0 <= r < R_COUNT && r != R_PC ==> t.reg[r] == s.reg[r])
      && t.mem == s.mem && t.running == s.running
      && t.input == s.input && t.output == s.output
  {
    MaskTable(OP_BR);
    BranchTakenIff(Dr(instr), s.reg[R_COND]);
  }

  /** JMP copies the base register into PC and changes nothing else; with
      base R7 it is RET. */
  lemma JumpStep(s: State, instr: Word)
    requires s.Valid() && Opcode(instr) == OP_JMP
    ensures Execute(s, instr) == Next(s.(reg := s.reg[R_PC := s.reg[Sr1(instr)]]))
  {
    MaskTable(OP_JMP);
  }

  /** JSR and JSRR save the incremented PC in R7 and jump: JSR to
      `PC + PCoffset11`, JSRR to the base register as it reads after R7 has
      been written. Only R7 and PC change; COND keeps its value. */
  lemma SubroutineCall(s: State, instr: Word)
    requires s.Valid() && Opcode(instr) == OP_JSR
    ensures Execute(s, instr).Next?
    ensures var t := Execute(s, instr).next;
      var pc := s.reg[R_PC];
      var base := if Sr1(instr) == R_R7 then pc else s.reg[Sr1(instr)];
      && t.reg[R_R7] == pc
      && t.reg[R_PC] == (if LongFlag(instr) then ToWord(pc + PcOffset11(instr)) else base)
      && (forall r :: 0 <= r < R_COUNT && r != R_PC && r != R_R7 ==> t.reg[r] == s.reg[r])
      && t.mem == s.mem && t.running == s.running
      && t.input == s.input && t.output == s.output
  {
    MaskTable(OP_JSR);
  }

  /** `JSRR R7` does not jump: R7 already holds the return address when the
      base register is read, so PC stays at the instruction after it. */
  lemma JsrrThroughR7(s: State, instr: Word)
    requires s.Valid() && Opcode(instr) == OP_JSR && !LongFlag(instr) && Sr1(instr) == R_R7
    ensures Execute(s, instr).Next?
    ensures Execute(s, instr).next.reg[R_PC] == s.reg[R_PC]
    ensures Execute(s, instr).next.reg[R_R7] == s.reg[R_PC]
  {
    SubroutineCall(s, instr);
  }

  /** The register an instruction writes and COND afterwards: the opcodes of
      the flag mask leave the flag of their destination register in COND,
      every other opcode but TRAP leaves COND alone, and no instruction
      leaves anything but a flag in COND when it held one before. */
  lemma CondAfterInstruction(s: State, instr: Word)
    requires s.Valid()
    ensures var op := Opcode(instr);
      Execute(s, instr).Next? ==>
        var t := Execute(s, instr).next;
        && (SetsFlags(op) ==> t.reg[R_COND] == FlagFor(t.reg[Dr(instr)]))
        && (!SetsFlags(op) && op != OP_TRAP ==> t.reg[R_COND] == s.reg[R_COND])
        && (IsFlag(s.reg[R_COND]) ==> IsFlag(t.reg[R_COND]))
  {
    var op := Opcode(instr);
    MaskTable(op);
    if Step(s, instr).Next? {
      var u := Step(s, instr).next;
      StepKeepsCond(s, instr);
      if SetsFlags(op) {
        SetFlagsOnlyCond(u, Dr(instr));
      }
    }
  }

  /** Apart from the traps that read a key, no step writes COND: every
      register an instruction writes lies among R0-R7 and PC. */
  lemma StepKeepsCond(s: State, instr: Word)
    requires s.Valid()
    ensures Step(s, instr).Next? ==>
      var t := Step(s, instr).next;
      if Opcode(instr) == OP_TRAP && TrapVector(instr) in {TRAP_GETC, TRAP_IN}
      then t.reg[R_COND] == FlagFor(t.reg[R_R0])
      else t.reg[R_COND] == s.reg[R_COND]
  {
    var op := Opcode(instr);
    if op == OP_TRAP {
      var v := TrapVector(instr);
      if v == TRAP_PUTS || v == TRAP_PUTSP {
        var start: nat := s.reg[R_R0];
        TextRunsOff(s.mem, start);
      }
    }
  }

  /** LD and LDR from an ordinary address: the destination register receives
      the word stored there, COND its flag, and memory is left as it was. */
  lemma LoadReadsCell(s: State, instr: Word, a: Word)
    requires s.Valid() && InBounds(a) && a != MR_KBSR
    requires || (Opcode(instr) == OP_LD && a == ToWord(s.reg[R_PC] + PcOffset9(instr)))
             || (Opcode(instr) == OP_LDR && a == ToWord(s.reg[Sr1(instr)] + Offset6(instr)))
    ensures var v := s.mem[a];
      Execute(s, instr) == Next(s.(reg := s.reg[Dr(instr) := v][R_COND := FlagFor(v)]))
  {
    MaskTable(Opcode(instr));
  }

  /** LDI reads twice: the destination register receives the word at the
      address stored at `PC + PCoffset9`. */
  lemma LoadIndirectReadsTwice(s: State, instr: Word)
    requires s.Valid() && Opcode(instr) == OP_LDI
    requires var a := ToWord(s.reg[R_PC] + PcOffset9(instr));
      InBounds(a) && a != MR_KBSR && InBounds(s.mem[a]) && s.mem[a] != MR_KBSR
    ensures var v := s.mem[s.mem[ToWord(s.reg[R_PC] + PcOffset9(instr))]];
      Execute(s, instr) == Next(s.(reg := s.reg[Dr(instr) := v][R_COND := FlagFor(v)]))
  {
    MaskTable(OP_LDI);
  }

  /** LEA loads the address itself, touches no memory, and sets COND from
      it. */
  lemma LoadEffectiveAddress(s: State, instr: Word)
    requires s.Valid() && Opcode(instr) == OP_LEA
    ensures var a := ToWord(s.reg[R_PC] + PcOffset9(instr));
      Execute(s, instr) == Next(s.(reg := s.reg[Dr(instr) := a][R_COND := FlagFor(a)]))
  {
    MaskTable(OP_LEA);
  }

  /** ST and STR write the source register into exactly one cell and leave
      every register, and every other cell, as they were. */
  lemma StoreWritesOneCell(s: State, instr: Word, a: Word)
    requires s.Valid() && InBounds(a)
    requires || (Opcode(instr) == OP_ST && a == ToWord(s.reg[R_PC] + PcOffset9(instr)))
             || (Opcode(instr) == OP_STR && a == ToWord(s.reg[Sr1(instr)] + Offset6(instr)))
    ensures Execute(s, instr).Next?
    ensures var t := Execute(s, instr).next;
      && t.mem[a] == s.reg[Dr(instr)]
      && (forall i :: 0 <= i < MEMORY_SIZE && i != a ==> t.mem[i] == s.mem[i])
      && t.reg == s.reg && t.running == s.running
      && t.input == s.input && t.output == s.output
  {
    MaskTable(Opcode(instr));
    WriteOneCell(s, a, s.reg[Dr(instr)]);
  }

  /** STI reads an indirect address at `PC + PCoffset9` through `mem_read` and
      writes the source register at the address it points to, and only
      there. That read is an ordinary one except at KBSR, where it
      polls the keyboard first; then the address is KBSR's new word. */
  lemma StoreIndirectWritesOneCell(s: State, instr: Word)
    requires s.Valid() && Opcode(instr) == OP_STI
    requires var a := ToWord(s.reg[R_PC] + PcOffset9(instr));
      InBounds(a) && InBounds(Read(s, a).0)
    ensures Execute(s, instr).Next?
    ensures var a := ToWord(s.reg[R_PC] + PcOffset9(instr));
      var (p, u) := Read(s, a);
      var t := Execute(s, instr).next;
      && t.mem[p] == s.reg[Dr(instr)]
      && (forall i :: 0 <= i < MEMORY_SIZE && i != p ==> t.mem[i] == u.mem[i])
      && t.reg == s.reg && t.running == s.running
      && t.input == u.input && t.output == s.output
      && (a != MR_KBSR ==> p == s.mem[a] && u == s)
  {
    MaskTable(OP_STI);
    var (p, u) := Read(s, ToWord(s.reg[R_PC] + PcOffset9(instr)));
    WriteOneCell(u, p, s.reg[Dr(instr)]);
  }

  /** Address 0xFFFF lies past the end of the 65535-word memory: a load or
      store that computes it stops the machine. */
  lemma LastAddressFaults(s: State, instr: Word)
    requires s.Valid()
    requires Opcode(instr) in {OP_LD, OP_LDI, OP_ST, OP_STI}
    requires ToWord(s.reg[R_PC] + PcOffset9(instr)) == 0xFFFF
    ensures Execute(s, instr) == Crash(OutOfBounds(0xFFFF))
  {
    MaskTable(Opcode(instr));
  }

  /** LDR and STR whose base plus offset is 0xFFFF read or write past the
      end of memory. */
  lemma BaseAddressFaults(s: State, instr: Word)
    requires s.Valid() && Opcode(instr) in {OP_LDR, OP_STR}
    requires ToWord(s.reg[Sr1(instr)] + Offset6(instr)) == 0xFFFF
    ensures Execute(s, instr) == Crash(OutOfBounds(0xFFFF))
  {
    MaskTable(Opcode(instr));
  }

  /** LDI and STI whose indirect address, read at `PC + PCoffset9`, is 0xFFFF
      dereference past the end of memory. */
  lemma IndirectAddressFaults(s: State, instr: Word)
    requires s.Valid() && Opcode(instr) in {OP_LDI, OP_STI}
    requires var a := ToWord(s.reg[R_PC] + PcOffset9(instr));
      InBounds(a) && Read(s, a).0 == 0xFFFF
    ensures Execute(s, instr) == Crash(OutOfBounds(0xFFFF))
  {
    MaskTable(Opcode(instr));
  }

  /** Opcodes 8 (RTI) and 13 (reserved) have no handler: the machine stops
      with a fault. */
  lemma MissingHandlers(s: State, instr: Word)
    requires s.Valid() && Opcode(instr) in {OP_RTI, OP_RES}
    ensures Execute(s, instr) == Crash(NoHandler(Opcode(instr)))
  {
    MaskTable(Opcode(instr));
  }

  /** ADD with bit 5 set adds the 5-bit two's-complement immediate to the
      source register modulo 2^16; the sign extension is what makes a
      negative immediate subtract. */
  lemma AddImmediate(s: State, instr: Word)
    requires s.Valid() && Opcode(instr) == OP_ADD && ImmMode(instr)
    ensures var sum := (s.reg[Sr1(instr)] + TwosComplement(instr % 0x20, 5)) % 0x1_0000;
      Execute(s, instr) == Next(s.(reg := s.reg[Dr(instr) := sum][R_COND := FlagFor(sum)]))
  {
    MaskTable(OP_ADD);
    Imm5Value(instr);
    var x, i := s.reg[Sr1(instr)], Imm5(instr);
    assert ToWord(x + i) == (x + ToSigned(i)) % 0x1_0000;
  }

  /** ADD, AND and NOT write their result into the destination register and
      its flag into COND, and change nothing else. */
  lemma OperateResult(s: State, instr: Word)
    requires s.Valid() && Opcode(instr) in {OP_ADD, OP_AND, OP_NOT}
    ensures var a := s.reg[Sr1(instr)];
      var b := if ImmMode(instr) then Imm5(instr) else s.reg[Sr2(instr)];
      var op := Opcode(instr);
      var v := if op == OP_ADD then (a + b) % 0x1_0000 else if op == OP_AND then And(a, b) else 0xFFFF - a;
      Execute(s, instr) == Next(s.(reg := s.reg[Dr(instr) := v][R_COND := FlagFor(v)]))
  {
    MaskTable(Opcode(instr));
  }

  /** TRAP HALT writes "HALT" and a newline and clears `running`. */
  lemma HaltStops(s: State, instr: Word)
    requires s.Valid() && Opcode(instr) == OP_TRAP && TrapVector(instr) == TRAP_HALT
    ensures Execute(s, instr) == Next(s.(output := s.output + HALT_LINE, running := false))
    ensures !Execute(s, instr).next.running
  {
    MaskTable(OP_TRAP);
  }

  /** A trap vector outside 0x20-0x25 matches no case of the switch and the
      trap does nothing. */
  lemma UnknownTrapIgnored(s: State, instr: Word)
    requires s.Valid() && Opcode(instr) == OP_TRAP
    requires !(TRAP_GETC <= TrapVector(instr) <= TRAP_HALT)
    ensures Execute(s, instr) == Next(s)
  {
    MaskTable(OP_TRAP);
  }

  /** TRAP OUT writes the low byte of R0. */
  lemma OutWritesLowByte(s: State, instr: Word)
    requires s.Valid() && Opcode(instr) == OP_TRAP && TrapVector(instr) == TRAP_OUT
    ensures Execute(s, instr) == Next(s.(output := s.output + [s.reg[R_R0] % 0x100]))
  {
    MaskTable(OP_TRAP);
  }

  /** TRAP GETC consumes one key into R0, with COND from it; at the end of
      the input R0 receives `(uint16_t)EOF`, 0xFFFF, and COND is N. */
  lemma GetcReadsKey(s: State, instr: Word)
    requires s.Valid() && Opcode(instr) == OP_TRAP && TrapVector(instr) == TRAP_GETC
    ensures Execute(s, instr).Next?
    ensures var t := Execute(s, instr).next;
      && (forall r :: 0 <= r < R_COUNT && r != R_R0 && r != R_COND ==> t.reg[r] == s.reg[r])
      && t.mem == s.mem && t.output == s.output && t.running == s.running
      && (|s.input| > 0 ==> t.reg[R_R0] == s.input[0] && t.input == s.input[1..]
                            && t.reg[R_COND] == (if s.input[0] == 0 then FL_ZRO else FL_POS))
      && (|s.input| == 0 ==> t.reg[R_R0] == 0xFFFF && t.reg[R_COND] == FL_NEG && t.input == [])
  {
    MaskTable(OP_TRAP);
    var (c, u) := GetChar(s);
    SetFlagsOnlyCond(SetReg(u, R_R0, ToWord(c)), R_R0);
  }

  /** TRAP IN writes the prompt, reads a key into a signed `char`, echoes
      it, and stores it into R0 through that `char`: a key of 0x80 or more
      arrives sign-extended, with COND N. At the end of the input the
      `char` is -1: byte 0xFF is echoed and R0 receives 0xFFFF. */
  lemma InReadsSignedChar(s: State, instr: Word)
    requires s.Valid() && Opcode(instr) == OP_TRAP && TrapVector(instr) == TRAP_IN
    ensures Execute(s, instr).Next?
    ensures var t := Execute(s, instr).next;
      && (|s.input| > 0 ==>
            var c: int := s.input[0];
            && t.output == s.output + PROMPT + [s.input[0]]
            && t.input == s.input[1..]
            && t.reg[R_R0] == (if c < 0x80 then c else c + 0xFF00)
            && t.reg[R_COND] == (if c == 0 then FL_ZRO else if c < 0x80 then FL_POS else FL_NEG))
      && (|s.input| == 0 ==>
            && t.output == s.output + PROMPT + [0xFF]
            && t.input == []
            && t.reg[R_R0] == 0xFFFF && t.reg[R_COND] == FL_NEG)
      && (forall r :: 0 <= r < R_COUNT && r != R_R0 && r != R_COND ==> t.reg[r] == s.reg[r])
      && t.mem == s.mem && t.running == s.running
  {
    MaskTable(OP_TRAP);
    var (c, u) := GetChar(s.(output := s.output + PROMPT));
    var ch := ToSignedChar(c);
    assert ch == if c < 0x80 then c else c - 0x100;
    var w := u.(output := u.output + [ToByte(ch)]);
    SetFlagsOnlyCond(SetReg(w, R_R0, ToWord(ch)), R_R0);
  }

  /** TRAP PUTS writes the low byte of each word from the address in R0 up
      to the first zero word, and stops the machine when no zero word comes
      before the end of memory. */
  lemma PutsWritesString(s: State, instr: Word, n: nat)
    requires s.Valid() && Opcode(instr) == OP_TRAP && TrapVector(instr) == TRAP_PUTS
    requires s.reg[R_R0] + n < MEMORY_SIZE && s.mem[s.reg[R_R0] + n] == 0
    requires forall i :: s.reg[R_R0] <= i < s.reg[R_R0] + n ==> s.mem[i] != 0
    ensures var words := s.mem[s.reg[R_R0]..s.reg[R_R0] + n];
      Execute(s, instr) == Next(s.(output := s.output + PutsBytes(words)))
  {
    MaskTable(OP_TRAP);
    StringWalked(s, s.reg[R_R0] + n);
  }

  /** PUTSP writes two characters per word, low byte first, and omits a
      zero high byte. */
  lemma PutspWritesString(s: State, instr: Word, n: nat)
    requires s.Valid() && Opcode(instr) == OP_TRAP && TrapVector(instr) == TRAP_PUTSP
    requires s.reg[R_R0] + n < MEMORY_SIZE && s.mem[s.reg[R_R0] + n] == 0
    requires forall i :: s.reg[R_R0] <= i < s.reg[R_R0] + n ==> s.mem[i] != 0
    ensures var words := s.mem[s.reg[R_R0]..s.reg[R_R0] + n];
      Execute(s, instr) == Next(s.(output := s.output + PutspBytes(words)))
  {
    MaskTable(OP_TRAP);
    StringWalked(s, s.reg[R_R0] + n);
  }

  /** A string walk that meets no zero word before the end of memory runs
      off the array. */
  lemma UnterminatedStringFaults(s: State, instr: Word)
    requires s.Valid() && Opcode(instr) == OP_TRAP
    requires TrapVector(instr) == TRAP_PUTS || TrapVector(instr) == TRAP_PUTSP
    requires forall i :: s.reg[R_R0] <= i < MEMORY_SIZE ==> s.mem[i] != 0
    ensures Execute(s, instr) == Crash(OutOfBounds(0xFFFF))
  {
    MaskTable(OP_TRAP);
    StringWalked(s, MEMORY_SIZE);
  }

  /** One turn of the loop fetches the word at PC from an ordinary address,
      advances PC modulo 2^16 before executing it, and executes it. */
  lemma CycleFetches(s: State)
    requires s.Valid() && InBounds(s.reg[R_PC]) && s.reg[R_PC] != MR_KBSR
    ensures var pc := s.reg[R_PC];
      Cycle(s) == Execute(s.(reg := s.reg[R_PC := (pc + 1) % 0x1_0000]), s.mem[pc])
  {
  }

  /** Fetching at KBSR polls the keyboard like any read of it. With a key
      waiting, the word fetched is the ready bit 0x8000, which is RTI, and
      the machine stops on its missing handler. With none, the word fetched
      is 0, a BR that never branches, so the turn only clears KBSR and
      advances PC. */
  lemma FetchAtKeyboardStatus(s: State)
    requires s.Valid() && s.reg[R_PC] == MR_KBSR
    ensures |s.input| > 0 ==> Cycle(s) == Crash(NoHandler(OP_RTI))
    ensures |s.input| == 0 ==>
      Cycle(s) == Next(s.(mem := s.mem[MR_KBSR := 0], reg := s.reg[R_PC := MR_KBSR + 1]))
  {
    ReadKeyboardStatus(s);
  }

  /** Fetching at 0xFFFF reads past the end of memory. */
  lemma FetchPastEndFaults(s: State)
    requires s.Valid() && s.reg[R_PC] == 0xFFFF
    ensures Cycle(s) == Crash(OutOfBounds(0xFFFF))
  {
  }

  /** Once `running` is cleared the loop does not turn again. */
  lemma HaltedStaysHalted(s: State, fuel: nat)
    requires s.Valid() && !s.running
    ensures Run(s, fuel) == Next(s)
  {
  }

  /** Running for `a + b` turns is running for `a` turns and then for `b`
      more from where the first run stopped. */
  lemma {:induction false} RunSplits(s: State, a: nat, b: nat)
    requires s.Valid()
    ensures Run(s, a + b) == match Run(s, a)
      case Crash(f) => Crash(f)
      case Next(t) => Run(t, b)
    decreases a
  {
    if a == 0 || !s.running {
      HaltedOrDone(s, a, b);
    } else {
      match Cycle(s)
      case Crash(f) =>
      case Next(t) =>
        RunSplits(t, a - 1, b);
        assert a + b - 1 == (a - 1) + b;
    }
  }

  /** A run with no turns, or of a halted machine, changes nothing. */
  lemma HaltedOrDone(s: State, a: nat, b: nat)
    requires s.Valid() && (a == 0 || !s.running)
    ensures Run(s, a) == Next(s)
    ensures !s.running ==> Run(s, a + b) == Next(s) && Run(s, b) == Next(s)
  {
  }

  /** COND holds one of P, Z and N at the start of the loop and keeps
      holding one through every turn. */
  lemma {:induction false} RunKeepsFlag(s: State, fuel: nat)
    requires s.Valid() && IsFlag(s.reg[R_COND])
    ensures Run(s, fuel).Next? ==> IsFlag(Run(s, fuel).next.reg[R_COND])
    decreases fuel
  {
    if s.running && fuel > 0 {
      var pc := s.reg[R_PC];
      if InBounds(pc) {
        var (instr, u) := Read(s, pc);
        var v := SetReg(u, R_PC, ToWord(pc + 1));
        assert v.reg[R_COND] == s.reg[R_COND];
        CondAfterInstruction(v, instr);
        match Cycle(s)
        case Crash(_) =>
        case Next(t) =>
          RunKeepsFlag(t, fuel - 1);
      }
    }
  }

  /** The state `main` starts the loop from: COND is Z, PC is 0x3000, and
      memory, the other registers and the streams are those of the
      loaded machine. */
  lemma BootSetsCondAndPc(s: State)
    requires s.Valid()
    ensures var b := Boot(s);
      && b.Valid() && b.reg[R_COND] == FL_ZRO && IsFlag(b.reg[R_COND]) && b.reg[R_PC] == 0x3000
      && (forall r :: 0 <= r < R_PC ==> b.reg[r] == s.reg[r])
      && b.mem == s.mem && b.running == s.running
      && b.input == s.input && b.output == s.output
  {
  }

  /** A turn that fetches HALT ends the loop: whatever fuel is left, the
      run stops with PC past the HALT, "HALT" written and `running`
      cleared. */
  lemma HaltEndsRun(s: State, fuel: nat)
    requires s.Valid() && s.running && fuel > 0 && s.reg[R_PC] < 0xFFFF && s.reg[R_PC] != MR_KBSR
    requires s.mem[s.reg[R_PC]] == 0xF025
    ensures Run(s, fuel) ==
      Next(s.(reg := s.reg[R_PC := s.reg[R_PC] + 1], output := s.output + HALT_LINE, running := false))
  {
    CycleFetches(s);
    var t := s.(reg := s.reg[R_PC := s.reg[R_PC] + 1]);
    HaltStops(t, 0xF025);
    HaltedStaysHalted(t.(output := t.output + HALT_LINE, running := false), fuel - 1);
  }
}
