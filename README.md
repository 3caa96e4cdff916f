# LC-3 virtual machine, modelled in Dafny

This project models the interpreter in `lc3-alt.cpp`. The interpreter runs
programs for the LC-3, the 16-bit teaching machine of Patt and Patel's
*Introduction to Computing Systems*. The program keeps global state: an
array `memory` of `UINT16_MAX` (65535) words and a register file `reg`
holding R0-R7, PC and COND. A `running` flag and the console complete it.
One handler `ins<op>` per opcode decodes operand fields through bitmask
tables and then executes. `main` loads image files and runs a
fetch-decode-execute loop until a HALT trap.

The model is in layers:

- `Bits` (bits.dfy): 16-bit words as integers `0 .. 0xFFFF`, with C's
  truncation to `uint16_t` written out.
  - `sign_extend` and `swap16`.
  - `&` and `~` on words.
  - Big-endian and little-endian byte pairs.
- `MachineState` (state.dfy): the machine as a value.
  - `State` holds memory, registers, `running`, the keys not yet read and
    the bytes written so far.
  - `mem_read` includes the keyboard latch on KBSR.
  - Also `mem_write`, `update_flags` and `getchar`.
  - Undefined behaviour stops the model with a `Fault`. This covers a
    NULL handler and an access to index 0xFFFF, which lies one past the
    end of `memory`.
- `Decoder` (decoder.dfy): instruction fields. The source's decoding
  masks (0x4EEE, 0x12F3, 0x0022, 0x00C0, 0x4C0D, 0x4666) are written as
  bit tables. `Decode` is the decoding prologue of `ins<op>`.
- `Semantics` (semantics.dfy): each opcode and trap, written opcode by
  opcode as the instruction set defines it.
  - `Execute` is one instruction and `Cycle` is one turn of the loop.
  - `Run` is the loop, bounded by a fuel count.
- `Loader` (loader.dfy): `read_image_file` over the bytes of an image
  file, and several images loaded in order.
- `Vm` (machine.dfy): class `Machine`, the program as it runs.
  - It holds the `memory` and `reg` arrays, `running`, the input and the
    output.
  - Its methods update them in place: `MemRead`, `MemWrite`,
    `UpdateFlags`, the `while (*c)` loops of PUTS and PUTSP, `Ins`,
    `Cycle`, the `while (running)` loop, and the loader's `swap16` loop.
  - Each method is proved to produce exactly the state the functions of
    `Semantics`, `MachineState` and `Loader` give.
  - `Ins` dispatches per opcode group, with the same decoded fields the
    masks select.
- `Properties` (properties.dfy): what each instruction does, stated in
  the instruction set's own terms. These lemmas connect the
  specification functions to the source's promises.

The source's quirks are modelled as written:
- Address 0xFFFF is outside `memory`.
- Opcodes 8 (RTI) and 13 have NULL handlers.
- `JSRR R7` saves the return address before it reads R7, so it does not
  jump.
- LEA sets the condition codes.
- A trap vector without a case does nothing.
- `IN` stores a `char` that the host treats as signed.

## Model

| member | source | states |
|---|---|---|
| Bits.ToWord | lc3-alt.cpp:264 | The conversion to `uint16_t` is the identity on 0..0xFFFF and otherwise differs from its argument by a multiple of 2^16. |
| Bits.And | lc3-alt.cpp:271-281 | `&` on words, bit by bit from the lowest: the result is no larger than either operand. `Bits.AndBits` states its meaning bit by bit. |
| Bits.AndBits | lc3-alt.cpp:271-281 | Each of the sixteen bits of `x & y` is set exactly when that bit is set in both `x` and `y`. |
| Bits.NotFlipsBits | lc3-alt.cpp:282 | `~x` flips every one of the sixteen bits of `x`. |
| Bits.SignExtend | lc3-alt.cpp:92-98 | `sign_extend` returns `x` unchanged, or a word whose bits from `bit_count` up are all set, so it is at least `0x10000 - 2^bit_count`. `Bits.SignExtendKeepsLowBits` states that the low bits are `x`'s, at widths 5, 6, 9 and 11. |
| Bits.SignExtendKeepsLowBits | lc3-alt.cpp:92-98 | At widths 5, 6, 9 and 11, the low `n` bits of the result equal those of `x`. |
| Bits.SignExtendSetsHighBits | lc3-alt.cpp:92-98 | At widths 5, 6, 9 and 11, when bit `n-1` of `x` is set, every bit from `n` to 15 of the result is set. When it is clear, the result is `x` unchanged. |
| Bits.SwapBytes | lc3-alt.cpp:101-104 | `swap16` exchanges the low and the high byte. |
| Bits.SwapBytesInvolution | lc3-alt.cpp:101-104 | Applying `swap16` twice gives back the word. |
| Bits.BigEndian | lc3-alt.cpp:130 | A word from two file bytes, big-endian: the first byte is the high byte. |
| Bits.LittleEndian | lc3-alt.cpp:129 | A word as `fread` stores two file bytes on a little-endian host: the first byte is the low byte. |
| Bits.SwapLittleToBig | lc3-alt.cpp:129-130 | `swap16` of the host-order word is the big-endian word of the same two bytes. |
| MachineState.Poll | lc3-alt.cpp:178-188 | The keyboard poll sets KBSR to 0x8000 exactly when a key is waiting, and then consumes one key. Registers, `running` and the output are unchanged. |
| MachineState.Read | lc3-alt.cpp:176-191 | `mem_read` returns the word the cell holds after the read. Only a read of KBSR changes the state, and never a register, `running` or the output. |
| MachineState.ReadPlain | lc3-alt.cpp:176-191 | Reading any address other than KBSR returns the stored word and changes nothing. |
| MachineState.ReadKeyboardStatus | lc3-alt.cpp:176-191 | Every read of KBSR polls the keyboard. With a key waiting, KBSR becomes 0x8000 and the key goes to KBDR and is consumed. With none, KBSR becomes 0 and KBDR keeps its word. The word returned is KBSR's new word. No other cell or register changes. |
| MachineState.KeyboardDelivers | lc3-alt.cpp:178-190 | Reading KBSR and then KBDR returns the ready bit and then the waiting key. |
| MachineState.Write | lc3-alt.cpp:170-173 | `mem_write` leaves a well-formed state. `MachineState.WriteOneCell` states its effect. |
| MachineState.WriteOneCell | lc3-alt.cpp:170-173 | `mem_write` changes exactly the addressed cell and nothing else. |
| MachineState.FlagFor | lc3-alt.cpp:108-122 | The flag is exactly one of P, Z and N. It is Z iff the value is 0, N iff bit 15 is set, and P otherwise. |
| MachineState.SetFlags | lc3-alt.cpp:108-122 | `update_flags` leaves a well-formed state. `MachineState.SetFlagsOnlyCond` states its effect. |
| MachineState.SetFlagsOnlyCond | lc3-alt.cpp:108-122 | `update_flags(r)` sets COND to the flag of `reg[r]` and changes no other register, cell, stream or `running`. |
| MachineState.ToSignedChar | lc3-alt.cpp:342 | Converting to `char` gives a value in -128..127 that agrees with the argument modulo 256. |
| Decoder.MaskValues | lc3-alt.cpp:229-252 | The bit tables are the source's masks 0x4EEE, 0x12F3, 0x0022, 0x00C0, 0x4C0D and 0x4666 (line 380). |
| Decoder.Opcode | lc3-alt.cpp:424 | `instr >> 12` is an opcode below 16. |
| Decoder.Dr | lc3-alt.cpp:229 | The register field in bits 11-9 names one of R0-R7. |
| Decoder.Sr1 | lc3-alt.cpp:230 | The register field in bits 8-6 names one of R0-R7. |
| Decoder.Sr2 | lc3-alt.cpp:241 | The register field in bits 2-0 names one of R0-R7. |
| Decoder.Imm5Value | lc3-alt.cpp:237 | imm5 as a signed word is bits 4-0 read as a 5-bit two's-complement number. |
| Decoder.Offset6Value | lc3-alt.cpp:246 | offset6 as a signed word is bits 5-0 read as a 6-bit two's-complement number. |
| Decoder.PcOffset9Value | lc3-alt.cpp:251 | PCoffset9 as a signed word is bits 8-0 read as a 9-bit two's-complement number. |
| Decoder.PcOffset11Value | lc3-alt.cpp:290 | PCoffset11 as a signed word is bits 10-0 read as an 11-bit two's-complement number. |
| Decoder.Decode | lc3-alt.cpp:227-252 | Each decoded field holds the bits the instruction set assigns to it. Of imm5 and the second register, at most one is decoded, and neither without the immediate flag. `base_plus_off` is `reg[r1] + offset6` with `r1` decoded, and `pc_plus_off` is `PC + PCoffset9`, both modulo 2^16. |
| Decoder.MaskTable | lc3-alt.cpp:228-252 | For each decoding mask and the flag mask of line 380, the exact set of opcodes it selects. COND is updated exactly for ADD, AND, NOT, LD, LDI, LDR and LEA. |
| Decoder.FieldsDecodedForUse | lc3-alt.cpp:228-252 | Every field an opcode's step uses is decoded for that opcode. The flag and store users have `r0`, the base users have `r1`, ADD and AND have `imm_flag` and an operand, and the PC-relative users have `pc_plus_off`. |
| Decoder.SecondOperandIsolated | lc3-alt.cpp:231-243 | For ADD and AND, bit 5 selects the sign-extended imm5, and otherwise `reg[instr & 7]`; exactly one of the two is decoded. |
| Semantics.Text | lc3-alt.cpp:328-333 | A string found from `a` lies inside `memory`, ends at a zero word, and consists of the non-zero words stored from `a` on. |
| Semantics.TextFound | lc3-alt.cpp:328-333 | The walk from R0 returns `w` iff `w` is the run of non-zero words ending just before a zero word inside `memory`. |
| Semantics.TextRunsOff | lc3-alt.cpp:328-333 | The walk finds no string iff every word from R0 to the end of `memory` is non-zero, so that `while (*c)` reads past the array. |
| Semantics.Puts | lc3-alt.cpp:324-337 | PUTS only appends to the output, and faults only by reading past the end of `memory`. `Properties.PutsWritesString` states what it appends: the low byte of each word. |
| Semantics.Putsp | lc3-alt.cpp:350-368 | PUTSP only appends to the output, and faults only by reading past the end of `memory`. `Properties.PutspWritesString` states what it appends. |
| Semantics.PutspRangeIsString | lc3-alt.cpp:357-364 | The bytes PUTSP writes one word at a time are the packed-character output of the whole string. |
| Semantics.StringWalked | lc3-alt.cpp:324-368 | Once the walk from R0 stops at `c`, PUTS and PUTSP fault if `c` is the end of memory. Otherwise they append the output of the words `R0 .. c-1`. |
| Semantics.Trap | lc3-alt.cpp:309-376 | The trap `switch`. The contract states only that a completed trap leaves a well-formed state; the behaviour of each case is stated by the `Properties` trap lemmas. |
| Semantics.Step | lc3-alt.cpp:253-378 | The step of each opcode, with a fault for the NULL handlers. The contract states only well-formedness; the behaviour is stated by the `Properties` lemmas. |
| Semantics.Execute | lc3-alt.cpp:221-381 | One instruction: the step, then `update_flags(r0)` for the flag mask. The contract states only well-formedness; see `Properties.CondAfterInstruction` and the per-opcode lemmas. |
| Semantics.Cycle | lc3-alt.cpp:423-425 | One turn of the loop: fetch at PC, advance PC, execute. The contract states only well-formedness; see `Properties.CycleFetches`. |
| Semantics.Run | lc3-alt.cpp:421-426 | The loop, for at most `fuel` turns or until `running` is cleared. The contract states only well-formedness; see `Properties.RunSplits`, `Properties.RunKeepsFlag` and `Properties.HaltEndsRun`. |
| Loader.Origin | lc3-alt.cpp:129-130 | The origin's high byte is the file's first byte and its low byte the second. |
| Loader.WordCount | lc3-alt.cpp:133-135 | At most `UINT16_MAX - origin` words are read, and no more than the whole words the file holds. Nothing is read from a file of fewer than two bytes. |
| Loader.Load | lc3-alt.cpp:125-143 | `read_image_file` over an image's bytes. A file too short for an origin changes nothing. `Loader.LoadPlacesWords` states where the words go. |
| Loader.LoadPlacesWords | lc3-alt.cpp:125-143 | The number of words placed is min(whole words in the file, 65535 - origin). Word `i` lands at `origin + i`, and nothing below the origin or from `origin + count` on changes. |
| Loader.LoadInHostOrder | lc3-alt.cpp:135-142 | Reading the body in host order and then applying `swap16` to every word read gives the big-endian load. |
| Loader.LoadAll | lc3-alt.cpp:402-409 | The images loaded one after the other, each over the memory the previous ones left. `Loader.LoadAllUncovered` and `Loader.LoadAllLastWins` state the result. |
| Loader.LoadUncovered | lc3-alt.cpp:133-135 | Loading an image whose loaded range does not include a cell keeps that cell. |
| Loader.LoadAllUncovered | lc3-alt.cpp:402-409 | After loading several images in order, a cell that no image covers keeps its word. |
| Loader.LoadAllLastWins | lc3-alt.cpp:402-409 | After loading several images in order, a cell holds the word of the last image that covers it. |
| Loader.ImageOrigin | lc3-alt.cpp:129-130 | The origin read from an image built from `origin` and `words` is `origin`. |
| Loader.ImageWordIs | lc3-alt.cpp:135-141 | Word `i` read from such an image is `words[i]`. |
| Loader.ImageWordCount | lc3-alt.cpp:133-135 | The word count of such an image is all of `words`, cut at the end of memory. |
| Loader.LoadImageRoundTrip | lc3-alt.cpp:125-143 | Loading an image of `words` at `origin` that fits puts exactly `words` at `origin` and keeps every other cell. |
| Loader.LoadTruncates | lc3-alt.cpp:133-135 | Loading an image that does not fit places the words that fit and writes nothing below the origin. |
| Vm.Machine.constructor | lc3-alt.cpp:85-88 | Memory and registers start zeroed, `running` starts true (line 218), no output has been written, and the input holds the keys given. |
| Vm.Machine.ReadChar | lc3-alt.cpp:314 | `getchar` on the machine agrees with `MachineState.GetChar`. |
| Vm.Machine.MemWrite | lc3-alt.cpp:170-173 | The new state is `MachineState.Write` of the old one. |
| Vm.Machine.MemRead | lc3-alt.cpp:176-191 | The word returned and the new state, keyboard latch included, are `MachineState.Read` of the old state. |
| Vm.Machine.UpdateFlags | lc3-alt.cpp:108-122 | The new state is `MachineState.SetFlags` of the old one. |
| Vm.Machine.Puts | lc3-alt.cpp:324-337 | The `while (*c)` loop produces the outcome of `Semantics.Puts`: the low bytes of the string, or a fault when it runs off the end of memory. |
| Vm.Machine.PutPacked | lc3-alt.cpp:359-362 | One word writes its low byte and then its high byte when that byte is not zero. |
| Vm.Machine.PutspWalk | lc3-alt.cpp:356-364 | The walk stops at the first zero word from R0 or at the end of memory, having written the packed characters of every word before it. |
| Vm.Machine.Putsp | lc3-alt.cpp:350-368 | The outcome is `Semantics.Putsp`. |
| Vm.Machine.TrapRoutine | lc3-alt.cpp:306-378 | The `switch` on the vector produces `Semantics.Trap`. |
| Vm.Machine.ControlStep | lc3-alt.cpp:253-259 | BR, JMP and JSR/JSRR on the fields the masks decoded give the state `Semantics.Step` gives (JMP and JSR at lines 283-297). |
| Vm.Machine.OperateStep | lc3-alt.cpp:260-282 | ADD, AND and NOT on the decoded fields give the state `Semantics.Step` gives. |
| Vm.Machine.LoadStep | lc3-alt.cpp:299-302 | LD, LDI, LDR and LEA on the decoded addresses give the outcome of `Semantics.Step`. |
| Vm.Machine.StoreStep | lc3-alt.cpp:303-305 | ST, STI and STR on the decoded addresses give the outcome of `Semantics.Step`. |
| Vm.Machine.Ins | lc3-alt.cpp:221-381 | The handler of an opcode, with its decoding prologue and its final `update_flags`, gives the outcome of `Semantics.Execute`. |
| Vm.Machine.Boot | lc3-alt.cpp:416-419 | The new state is `Semantics.Boot`: COND is Z and PC is 0x3000. |
| Vm.Machine.Cycle | lc3-alt.cpp:423-425 | `mem_read(reg[R_PC]++)` and the call through `op_table` give the outcome of `Semantics.Cycle`. This includes the fault for the NULL entries (lines 384-389). |
| Vm.Machine.Turn | lc3-alt.cpp:421-426 | A turn either crashes the `k`-turn run, or leaves a state whose `k-1`-turn run is the same run. |
| Vm.Machine.Run | lc3-alt.cpp:421-426 | The `while (running)` loop, for at most `fuel` turns, gives the outcome of `Semantics.Run`. |
| Vm.Machine.ReadWords | lc3-alt.cpp:135 | `fread` places word `k` of the body at `origin + k` in host byte order and leaves every other cell. |
| Vm.Machine.SwapWords | lc3-alt.cpp:138-142 | The `while (read-- > 0)` loop applies `swap16` to exactly the cells read. |
| Vm.Machine.LoadImage | lc3-alt.cpp:125-143 | `read_image_file` leaves memory as `Loader.Load` and changes nothing else. |
| Vm.Machine.LoadImages | lc3-alt.cpp:402-409 | Loading the images in the order given leaves memory as `Loader.LoadAll`. |
| Vm.Machine.Start | lc3-alt.cpp:402-426 | Loading, the setup of COND and PC, and the loop give `Semantics.Run` from the booted, loaded state. |
| Properties.BranchTakenIff | lc3-alt.cpp:257-258 | `cond & reg[R_COND]` is non-zero iff COND is N with n set, Z with z set, or P with p set. |
| Properties.BranchChangesOnlyPc | lc3-alt.cpp:251-259 | BR sets PC to `PC + sext(PCoffset9)` exactly when its condition matches COND, and changes nothing else, COND included. |
| Properties.JumpStep | lc3-alt.cpp:283 | JMP sets PC to the base register and changes nothing else. |
| Properties.SubroutineCall | lc3-alt.cpp:284-297 | JSR/JSRR set R7 to the incremented PC. PC becomes `PC + sext(PCoffset11)`, or the base register read after R7 was written. Nothing else changes. |
| Properties.JsrrThroughR7 | lc3-alt.cpp:287-295 | `JSRR R7` leaves PC at the return address: it does not jump. |
| Properties.CondAfterInstruction | lc3-alt.cpp:380 | After an instruction of the flag mask, COND is the flag of the destination register. Any other non-TRAP instruction keeps COND. A valid flag stays a valid flag. |
| Properties.StepKeepsCond | lc3-alt.cpp:253-378 | Before the final `update_flags`, only GETC and IN touch COND, and they set it from R0. Every other step keeps it. |
| Properties.LoadReadsCell | lc3-alt.cpp:299-301 | LD and LDR from an ordinary address set DR to the stored word and COND to its flag, and change nothing else. |
| Properties.LoadIndirectReadsTwice | lc3-alt.cpp:300 | LDI sets DR to the word at the address stored at `PC + offset9`, and COND to its flag. |
| Properties.LoadEffectiveAddress | lc3-alt.cpp:302 | LEA sets DR to the address itself and sets COND from it. |
| Properties.StoreWritesOneCell | lc3-alt.cpp:303-305 | ST and STR write DR's word to exactly the addressed cell and change no register. |
| Properties.StoreIndirectWritesOneCell | lc3-alt.cpp:304 | STI writes DR's word to the cell whose address `mem_read` returns at `PC + offset9`, and to no other cell. That read is the stored word and changes nothing, except at KBSR, where it polls the keyboard. |
| Properties.LastAddressFaults | lc3-alt.cpp:85 | LD, LDI, ST and STI at effective address 0xFFFF touch the cell past the end of `memory`, and the model faults. |
| Properties.BaseAddressFaults | lc3-alt.cpp:301-305 | LDR and STR whose base plus offset6 is 0xFFFF touch the cell past the end of `memory`, and the model faults. |
| Properties.IndirectAddressFaults | lc3-alt.cpp:300-304 | LDI and STI whose indirect address is 0xFFFF dereference the cell past the end of `memory`, and the model faults. |
| Properties.MissingHandlers | lc3-alt.cpp:384-389 | RTI and opcode 13 reach a NULL entry of `op_table`, and the model faults. |
| Properties.AddImmediate | lc3-alt.cpp:262-264 | ADD with an immediate adds the 5-bit two's-complement value modulo 2^16 and sets COND from the sum. |
| Properties.OperateResult | lc3-alt.cpp:260-282 | ADD, AND and NOT compute `a + b` modulo 2^16, `a & b` and `~a` into DR, with COND from the result. |
| Properties.HaltStops | lc3-alt.cpp:369-373 | HALT appends "HALT\n" and clears `running`, and changes nothing else. |
| Properties.UnknownTrapIgnored | lc3-alt.cpp:309-376 | A vector outside 0x20-0x25 changes nothing. |
| Properties.OutWritesLowByte | lc3-alt.cpp:318-321 | OUT appends the low byte of R0. |
| Properties.GetcReadsKey | lc3-alt.cpp:311-315 | GETC puts the next key in R0 and sets COND from it. At the end of input it puts 0xFFFF (EOF) in R0 and sets COND to N. Memory, the output, `running` and the other registers are unchanged. |
| Properties.InReadsSignedChar | lc3-alt.cpp:338-347 | IN writes the prompt and echoes the key. R0 gets the key as a signed `char` widened to 16 bits, and COND is set from R0. At the end of input the `char` is -1: byte 0xFF is echoed, R0 gets 0xFFFF and COND is N. Memory, `running` and the other registers are unchanged. |
| Properties.PutsWritesString | lc3-alt.cpp:324-335 | PUTS appends the low byte of every word from R0 up to the first zero word. |
| Properties.PutspWritesString | lc3-alt.cpp:350-366 | PUTSP appends the packed characters of every word from R0 up to the first zero word. |
| Properties.UnterminatedStringFaults | lc3-alt.cpp:328-364 | A string with no zero word before the end of memory makes PUTS and PUTSP read past the array, and the model faults. |
| Properties.CycleFetches | lc3-alt.cpp:423-425 | A turn executes the word at PC with PC already advanced modulo 2^16. |
| Properties.FetchAtKeyboardStatus | lc3-alt.cpp:176-191 | A fetch at KBSR (line 423) polls the keyboard. With a key waiting, it executes 0x8000 (RTI) and faults. With none, it executes 0 (a BR that never branches), so the turn only clears KBSR and advances PC. |
| Properties.FetchPastEndFaults | lc3-alt.cpp:423 | Fetching at PC 0xFFFF faults. |
| Properties.HaltedStaysHalted | lc3-alt.cpp:421 | Once `running` is cleared, the loop does nothing. |
| Properties.RunSplits | lc3-alt.cpp:421-426 | Running `a + b` turns is running `a` turns and then `b` more. |
| Properties.HaltedOrDone | lc3-alt.cpp:421 | With no turns left, or with `running` cleared, the loop leaves the state as it is. |
| Properties.RunKeepsFlag | lc3-alt.cpp:421-426 | If COND holds one of P, Z and N, it still does after any number of turns. |
| Semantics.Boot | lc3-alt.cpp:416-419 | Setup leaves a well-formed state. `Properties.BootSetsCondAndPc` states its effect. |
| Properties.BootSetsCondAndPc | lc3-alt.cpp:416-419 | Setup sets COND to Z and PC to 0x3000 and changes nothing else. |
| Properties.HaltEndsRun | lc3-alt.cpp:369-373 | With `TRAP HALT` (0xF025) at PC, the loop runs one turn, writes "HALT\n" and stops, whatever the fuel. |

## Left out

- Terminal raw mode and the SIGINT handler (lines 194-215) are left out. They only configure the terminal and end the process.
- `check_key`'s `select` (lines 156-166) becomes "a key is waiting iff input remains". A `select` that reports end of file as readable is not modelled; there `getchar` would return EOF and KBDR would receive 0xFFFF.
- `read_image`'s `fopen`/`fclose` (lines 146-153), the usage message and the exit codes of `main` (lines 395-408) are left out. An image is given as the sequence of its bytes, and a file that fails to open is not modelled.
- `getchar`, `putc`, `printf`, `puts` and `fflush` become the input sequence and the appended output bytes. Buffering is not modelled.
- Loader.Load: a trailing odd byte of an image leaves its cell unchanged, because `fread` reads whole items. C leaves a partly read item indeterminate.
- Loader.Load: a file of fewer than two bytes changes nothing. In the source, `origin` is then uninitialised.
- Semantics.Run: the `while (running)` loop is modelled for a bounded number of turns (`fuel`), because an unbounded loop has no terminating model. A run that never halts is observed only up to that bound.
- What the program does after undefined behaviour is not modelled. Such behaviour is a read or write at index 0xFFFF, a `while (*c)` walk past the array, or a call through a NULL entry of `op_table`. The model stops with a `Fault` instead.
- MachineState.ToSignedChar assumes a signed, 8-bit `char` (as on x86-64 Linux). On a host whose `char` is unsigned, IN stores keys 0x80-0xFF unextended.
- Loader.Origin, Vm.Machine.ReadWords and Vm.Machine.SwapWords assume a little-endian host, as on x86-64. On a big-endian host `fread` stores each byte pair high byte first, so the `swap16` calls at lines 130 and 138-142 would byte-reverse the origin and every word.
- The C++ template instantiation and the handler table `op_table` are not modelled as such. `Vm.Machine.Ins` receives the opcode and dispatches on it, and the single-bit step masks become a choice among opcode groups.
- Bits.SignExtendKeepsLowBits: stated at the four widths the source uses (5, 6, 9, 11) rather than for every `bit_count`.
- Bits.SignExtendSetsHighBits: stated at the four widths the source uses (5, 6, 9, 11) rather than for every `bit_count`.
- Properties.LoadReadsCell: excludes KBSR as the address. A load from KBSR is covered by `MachineState.ReadKeyboardStatus` together with `Semantics.Step`.
- Properties.LoadIndirectReadsTwice: excludes KBSR as either address. The keyboard latch on those reads is covered by `MachineState.ReadKeyboardStatus`.
- Properties.CycleFetches: excludes a PC of KBSR, where the fetch polls the keyboard. `Properties.FetchAtKeyboardStatus` states that case.
- Properties.BranchChangesOnlyPc: requires COND to hold one of P, Z and N. `Properties.BootSetsCondAndPc` and `Properties.RunKeepsFlag` show this always holds after setup.
