/** The start-up code an AP runs from low memory: patching it, and reading it back as the
    processor will. */
module Trampoline {
  import opened Words
  import opened Bytes

  // ----- the code and its operands

  /** The 16-bit part of ap_start_up_code, with zeros where operands are patched in: mov ax,
      segment; mov ds, ax; lea si, gdtr; lgdt [si]; mov eax, cr0; or al, 1; mov cr0, eax;
      far jump. */
  function NarrowByte(k: nat): byte {
    match k
    case 0 => 0xB8 case 3 => 0x8E case 4 => 0xD8 case 5 => 0x8D case 6 => 0x36
    case 9 => 0x0F case 10 => 0x01 case 11 => 0x14
    case 12 => 0x0F case 13 => 0x20 case 14 => 0xC0 case 15 => 0x0C case 16 => 0x01
    case 17 => 0x0F case 18 => 0x22 case 19 => 0xC0 case 20 => 0x66 case 21 => 0xEA
    case _ => 0
  }

  /** mov ax, value; mov segment, ax; in 32-bit code. */
  function MoveByte(k: nat, modrm: byte): byte {
    match k
    case 0 => 0x66 case 1 => 0xB8 case 4 => 0x66 case 5 => 0x8E case 6 => modrm
    case _ => 0
  }

  /** ap_start_up_code byte by byte.  The 32-bit part is cli; the moves to ds, es, gs, fs and
      ss; mov eax, wake-up code; jmp eax. */
  function CodeByte(k: nat): byte {
    if k < 28 then NarrowByte(k)
    else if k == 28 then 0xFA
    else if k < 36 then MoveByte(k - 29, 0xD8)
    else if k < 43 then MoveByte(k - 36, 0xC0)
    else if k < 50 then MoveByte(k - 43, 0xE8)
    else if k < 57 then MoveByte(k - 50, 0xE0)
    else if k < 64 then MoveByte(k - 57, 0xD0)
    else if k == 64 then 0xB8
    else if k == 69 then 0xFF
    else if k == 70 then 0xE0
    else 0
  }

  function Code(): (c: seq<byte>)
    ensures |c| == CODE_SIZE && forall k :: 0 <= k < CODE_SIZE ==> c[k] == CodeByte(k)
  {
    seq(CODE_SIZE, k requires 0 <= k => CodeByte(k))
  }

  const CODE_SIZE: nat := 71
  const GDTR_AT: nat := 72
  const GDT_AT: nat := 80
  const ONE_MB: nat := 0x10_0000

  /** GDTR is at the next multiple of 8 behind the code, and the GDT behind it. */
  lemma PageLayout()
    ensures GDTR_AT % 8 == 0 && |Code()| <= GDTR_AT < |Code()| + 8 && GDT_AT == GDTR_AT + 8
  {
  }

  datatype Selectors = Selectors(cs: nat, ds: nat, es: nat, gs: nat, fs: nat, ss: nat)

  ghost predicate ValidSelectors(s: Selectors) {
    s.cs < 0x1_0000 && s.ds < 0x1_0000 && s.es < 0x1_0000 && s.gs < 0x1_0000 && s.fs < 0x1_0000 && s.ss < 0x1_0000
  }

  datatype Operand = Operand(at: nat, size: nat, value: nat)

  /** The stores that patch the code, in the order they are made. */
  function Operands(page: nat, s: Selectors, wakeup: nat): (r: seq<Operand>)
    ensures |r| == 10
  {
    [Operand(1, 2, page / 16), Operand(7, 2, GDTR_AT), Operand(22, 4, page + 28), Operand(26, 2, s.cs),
     Operand(31, 2, s.ds), Operand(38, 2, s.es), Operand(45, 2, s.gs), Operand(52, 2, s.fs),
     Operand(59, 2, s.ss), Operand(65, 4, wakeup)]
  }

  ghost predicate OperandsIn(ops: seq<Operand>, size: nat) {
    forall i :: 0 <= i < |ops| ==> ops[i].at + ops[i].size <= size && ops[i].value < Pow256(ops[i].size)
  }

  function Fill(m: seq<byte>, ops: seq<Operand>): (r: seq<byte>)
    requires forall i :: 0 <= i < |ops| ==> ops[i].at + ops[i].size <= |m|
    ensures |r| == |m|
  {
    if ops == [] then m
    else
      var o := ops[|ops| - 1];
      Put(Fill(m, ops[..|ops| - 1]), o.at, o.size, o.value)
  }

  /** An operand is read back as it was written ... */
  lemma {:induction false} FilledOperand(m: seq<byte>, ops: seq<Operand>, i: nat)
    requires OperandsIn(ops, |m|) && i < |ops|
    requires forall j :: i < j < |ops| ==> ops[i].at + ops[i].size <= ops[j].at
    ensures Field(Fill(m, ops), ops[i].at, ops[i].size) == ops[i].value
  {
    hide Field, Put;
    var n := |ops| - 1;
    var o := ops[n];
    if i == n {
      PutField(Fill(m, ops[..n]), o.at, o.size, o.value);
    } else {
      FilledOperand(m, ops[..n], i);
      PutElsewhere(Fill(m, ops[..n]), o.at, o.size, o.value, ops[i].at, ops[i].size);
    }
  }

  /** ... and every other byte is as it was. */
  lemma {:induction false} FilledElsewhere(m: seq<byte>, ops: seq<Operand>, k: nat)
    requires OperandsIn(ops, |m|) && k < |m|
    requires forall i :: 0 <= i < |ops| ==> Apart(ops[i].at, ops[i].size, k, 1)
    ensures Fill(m, ops)[k] == m[k]
  {
    hide LeBytes;
    if ops != [] {
      FilledElsewhere(m, ops[..|ops| - 1], k);
    }
  }

  // ----- what the processor makes of it

  datatype Segment = ES | SS | DS | FS | GS

  datatype Instruction =
    | MovAx(imm: nat)
    | MovSegment(segment: Segment)        // from ax
    | LeaSi(disp: nat)
    | LoadGdtr                            // from [si]
    | MovEaxCr0
    | OrAl(imm: nat)
    | MovCr0Eax
    | FarJump(offset: nat, selector: nat)
    | Cli
    | MovEax(imm: nat)
    | JumpEax
    | Unknown

  function SegmentOf(modrm: byte): (r: Instruction) {
    if modrm == 0xC0 then MovSegment(ES)
    else if modrm == 0xD0 then MovSegment(SS)
    else if modrm == 0xD8 then MovSegment(DS)
    else if modrm == 0xE0 then MovSegment(FS)
    else if modrm == 0xE8 then MovSegment(GS)
    else Unknown
  }

  /** The instruction at `at` and its length, in 16-bit or in 32-bit code. */
  function DecodeOne(c: seq<byte>, at: nat, wide: bool): (r: (Instruction, nat))
    ensures r.1 > 0
  {
    if at + 2 > |c| then if at < |c| && c[at] == 0xFA then (Cli, 1) else (Unknown, 1)
    else if c[at] == 0xFA then (Cli, 1)
    else if c[at] == 0xFF && c[at + 1] == 0xE0 && wide then (JumpEax, 2)
    else if c[at] == 0x0C then (OrAl(c[at + 1]), 2)
    else if c[at] == 0x8E && !wide then (SegmentOf(c[at + 1]), 2)
    else if c[at] == 0xB8 && !wide && at + 3 <= |c| then (MovAx(Field(c, at + 1, 2)), 3)
    else if c[at] == 0xB8 && wide && at + 5 <= |c| then (MovEax(Field(c, at + 1, 4)), 5)
    else if c[at] == 0x66 && c[at + 1] == 0xB8 && wide && at + 4 <= |c| then (MovAx(Field(c, at + 2, 2)), 4)
    else if c[at] == 0x66 && c[at + 1] == 0x8E && wide && at + 3 <= |c| then (SegmentOf(c[at + 2]), 3)
    else if c[at] == 0x66 && c[at + 1] == 0xEA && !wide && at + 8 <= |c| then
      (FarJump(Field(c, at + 2, 4), Field(c, at + 6, 2)), 8)
    else if c[at] == 0x8D && c[at + 1] == 0x36 && !wide && at + 4 <= |c| then (LeaSi(Field(c, at + 2, 2)), 4)
    else if c[at] == 0x0F && at + 3 <= |c| then
      (if c[at + 1] == 0x01 && c[at + 2] == 0x14 then LoadGdtr
       else if c[at + 1] == 0x20 && c[at + 2] == 0xC0 then MovEaxCr0
       else if c[at + 1] == 0x22 && c[at + 2] == 0xC0 then MovCr0Eax
       else Unknown, 3)
    else (Unknown, 1)
  }

  /** Decode `n` instructions; the far jump, which goes to the next one, enters 32-bit code. */
  function Decode(c: seq<byte>, at: nat, wide: bool, n: nat): seq<Instruction>
    decreases n
  {
    if n == 0 then []
    else
      var (i, length) := DecodeOne(c, at, wide);
      [i] + Decode(c, at + length, wide || i.FarJump?, n - 1)
  }

  /** What the AP is meant to do: load the copied GDT, enter protected mode, take over the
      BSP's selectors and go to the wake-up code. */
  function Intended(page: nat, s: Selectors, wakeup: nat): seq<Instruction> {
    [MovAx(page / 16), MovSegment(DS), LeaSi(GDTR_AT), LoadGdtr, MovEaxCr0, OrAl(1), MovCr0Eax,
     FarJump(page + 28, s.cs)]
    + [Cli, MovAx(s.ds), MovSegment(DS), MovAx(s.es), MovSegment(ES), MovAx(s.gs), MovSegment(GS),
       MovAx(s.fs), MovSegment(FS), MovAx(s.ss), MovSegment(SS), MovEax(wakeup), JumpEax]
  }

  // ----- and what that does

  /** The parts of the processor the code uses.  `gdtrAt` is the linear address GDTR was last
      loaded from; `at` is where execution goes on after a jump. */
  datatype Cpu = Cpu(eax: nat, si: nat, cs: nat, ds: nat, es: nat, fs: nat, gs: nat, ss: nat,
                     cr0: nat, gdtrAt: Option<nat>, interrupts: bool, at: Option<nat>)

  function LowWord(eax: nat, value: nat): nat { eax / 0x1_0000 * 0x1_0000 + value }

  function Execute(i: Instruction, p: Cpu): Cpu {
    match i
    case MovAx(imm) => p.(eax := LowWord(p.eax, imm))
    case MovSegment(segment) =>
      var v := p.eax % 0x1_0000;
      (match segment
       case ES => p.(es := v)
       case SS => p.(ss := v)
       case DS => p.(ds := v)
       case FS => p.(fs := v)
       case GS => p.(gs := v))
    case LeaSi(disp) => p.(si := disp)
    case LoadGdtr => p.(gdtrAt := Some(p.ds * 16 + p.si))
    case MovEaxCr0 => p.(eax := p.cr0)
    case OrAl(imm) => if imm == 1 && p.eax % 2 == 0 then p.(eax := p.eax + 1) else p
    case MovCr0Eax => p.(cr0 := p.eax)
    case FarJump(offset, selector) => p.(cs := selector, at := Some(offset))
    case Cli => p.(interrupts := false)
    case MovEax(imm) => p.(eax := imm)
    case JumpEax => p.(at := Some(p.eax))
    case Unknown => p
  }

  function ExecuteAll(code: seq<Instruction>, p: Cpu): Cpu {
    if code == [] then p else Execute(code[|code| - 1], ExecuteAll(code[..|code| - 1], p))
  }

  lemma ExecuteNext(code: seq<Instruction>, i: Instruction, p: Cpu)
    ensures ExecuteAll(code + [i], p) == Execute(i, ExecuteAll(code, p))
  {
    assert (code + [i])[..|code|] == code;
  }

  lemma MovedLow(eax: nat, v: nat)
    requires v < 0x1_0000
    ensures LowWord(eax, v) % 0x1_0000 == v
  {
    Remainder(eax / 0x1_0000, v, 0x1_0000);
  }

  /** Setting a segment register through ax. */
  lemma SetSegment(code: seq<Instruction>, v: nat, segment: Segment, p: Cpu)
    requires v < 0x1_0000
    ensures var q, r := ExecuteAll(code, p), ExecuteAll(code + [MovAx(v)] + [MovSegment(segment)], p);
            && r == (match segment
                     case ES => q.(es := v, eax := r.eax)
                     case SS => q.(ss := v, eax := r.eax)
                     case DS => q.(ds := v, eax := r.eax)
                     case FS => q.(fs := v, eax := r.eax)
                     case GS => q.(gs := v, eax := r.eax))
  {
    hide ExecuteAll, LowWord;
    ExecuteNext(code, MovAx(v), p);
    ExecuteNext(code + [MovAx(v)], MovSegment(segment), p);
    MovedLow(ExecuteAll(code, p).eax, v);
  }

  /** The 16-bit half: GDTR comes from the page, protected mode is on, and execution goes on
      behind the jump with the BSP's code selector. */
  lemma NarrowEffect(page: nat, s: Selectors, wakeup: nat, p: Cpu)
    requires page % PAGE == 0 && page < ONE_MB
    ensures var r := ExecuteAll(Intended(page, s, wakeup)[..8], p);
            && r.gdtrAt == Some(page + GDTR_AT) && r.cr0 == (if p.cr0 % 2 == 0 then p.cr0 + 1 else p.cr0)
            && r.cs == s.cs && r.at == Some(page + 28)
  {
    hide ExecuteAll, LowWord;
    var code: seq<Instruction> := [];
    assert ExecuteAll(code, p) == p by { NothingExecuted(p); }
    StartupAddress(page);
    SetSegment(code, page / 16, DS, p);
    code := code + [MovAx(page / 16)] + [MovSegment(DS)];
    ExecuteNext(code, LeaSi(GDTR_AT), p);
    code := code + [LeaSi(GDTR_AT)];
    ExecuteNext(code, LoadGdtr, p);
    code := code + [LoadGdtr];
    ExecuteNext(code, MovEaxCr0, p);
    code := code + [MovEaxCr0];
    ExecuteNext(code, OrAl(1), p);
    code := code + [OrAl(1)];
    ExecuteNext(code, MovCr0Eax, p);
    code := code + [MovCr0Eax];
    ExecuteNext(code, FarJump(page + 28, s.cs), p);
    code := code + [FarJump(page + 28, s.cs)];
    assert Intended(page, s, wakeup)[..8] == code;
  }

  lemma NothingExecuted(p: Cpu)
    ensures ExecuteAll([], p) == p
  {
  }

  /** The 32-bit half: interrupts are off, every data segment register has the BSP's selector,
      and execution goes on in the wake-up code. */
  lemma WideEffect(page: nat, s: Selectors, wakeup: nat, p: Cpu)
    requires ValidSelectors(s)
    ensures var r := ExecuteAll(Intended(page, s, wakeup)[8..], p);
            && !r.interrupts && r.ds == s.ds && r.es == s.es && r.gs == s.gs && r.fs == s.fs && r.ss == s.ss
            && r.at == Some(wakeup) && r.cs == p.cs && r.cr0 == p.cr0 && r.gdtrAt == p.gdtrAt
  {
    hide ExecuteAll, LowWord;
    NothingExecuted(p);
    ExecuteNext([], Cli, p);
    var code: seq<Instruction> := [] + [Cli];
    SetSegment(code, s.ds, DS, p);
    code := code + [MovAx(s.ds)] + [MovSegment(DS)];
    SetSegment(code, s.es, ES, p);
    code := code + [MovAx(s.es)] + [MovSegment(ES)];
    SetSegment(code, s.gs, GS, p);
    code := code + [MovAx(s.gs)] + [MovSegment(GS)];
    SetSegment(code, s.fs, FS, p);
    code := code + [MovAx(s.fs)] + [MovSegment(FS)];
    SetSegment(code, s.ss, SS, p);
    code := code + [MovAx(s.ss)] + [MovSegment(SS)];
    ExecuteNext(code, MovEax(wakeup), p);
    code := code + [MovEax(wakeup)];
    ExecuteNext(code, JumpEax, p);
    code := code + [JumpEax];
    assert Intended(page, s, wakeup)[8..] == code;
  }

  /** The code as patched: opcodes in place and operands as intended. */
  ghost predicate PatchedCode(c: seq<byte>, page: nat, s: Selectors, wakeup: nat) {
    && |c| == CODE_SIZE
    && (forall k :: 0 <= k < CODE_SIZE && IsOpcode(k) ==> c[k] == CodeByte(k))
    && Field(c, 1, 2) == page / 16 && Field(c, 7, 2) == GDTR_AT && Field(c, 22, 4) == page + 28 && Field(c, 26, 2) == s.cs
    && Field(c, 31, 2) == s.ds && Field(c, 38, 2) == s.es && Field(c, 45, 2) == s.gs && Field(c, 52, 2) == s.fs
    && Field(c, 59, 2) == s.ss && Field(c, 65, 4) == wakeup
  }

  /** Bytes of the code that are not operands. */
  predicate IsOpcode(k: nat) {
    !(1 <= k < 3) && !(7 <= k < 9) && !(22 <= k < 28) && !(31 <= k < 33) && !(38 <= k < 40)
    && !(45 <= k < 47) && !(52 <= k < 54) && !(59 <= k < 61) && !(65 <= k < 69)
  }

  lemma NarrowOpcodes(c: seq<byte>)
    requires |c| == CODE_SIZE && forall k :: 0 <= k < CODE_SIZE && IsOpcode(k) ==> c[k] == CodeByte(k)
    ensures c[0] == 0xB8 && c[3] == 0x8E && c[4] == 0xD8 && c[5] == 0x8D && c[6] == 0x36 && c[9] == 0x0F
    ensures c[10] == 0x01 && c[11] == 0x14 && c[12] == 0x0F && c[13] == 0x20 && c[14] == 0xC0 && c[15] == 0x0C
    ensures c[16] == 0x01 && c[17] == 0x0F && c[18] == 0x22 && c[19] == 0xC0 && c[20] == 0x66 && c[21] == 0xEA
  {
    assert IsOpcode(0) && IsOpcode(3) && IsOpcode(4) && IsOpcode(5) && IsOpcode(6) && IsOpcode(9) && IsOpcode(10) && IsOpcode(11);
    assert IsOpcode(12) && IsOpcode(13) && IsOpcode(14) && IsOpcode(15) && IsOpcode(16) && IsOpcode(17) && IsOpcode(18) && IsOpcode(19);
    assert IsOpcode(20) && IsOpcode(21);
  }

  lemma WideOpcodes(c: seq<byte>)
    requires |c| == CODE_SIZE && forall k :: 0 <= k < CODE_SIZE && IsOpcode(k) ==> c[k] == CodeByte(k)
    ensures c[28] == 0xFA && c[29] == 0x66 && c[30] == 0xB8 && c[33] == 0x66 && c[34] == 0x8E && c[35] == 0xD8
    ensures c[36] == 0x66 && c[37] == 0xB8 && c[40] == 0x66 && c[41] == 0x8E && c[42] == 0xC0 && c[43] == 0x66
    ensures c[44] == 0xB8 && c[47] == 0x66 && c[48] == 0x8E && c[49] == 0xE8
  {
    assert IsOpcode(28) && IsOpcode(29) && IsOpcode(30) && IsOpcode(33) && IsOpcode(34) && IsOpcode(35) && IsOpcode(36) && IsOpcode(37);
    assert IsOpcode(40) && IsOpcode(41) && IsOpcode(42) && IsOpcode(43) && IsOpcode(44) && IsOpcode(47) && IsOpcode(48) && IsOpcode(49);
  }

  lemma LastOpcodes(c: seq<byte>)
    requires |c| == CODE_SIZE && forall k :: 0 <= k < CODE_SIZE && IsOpcode(k) ==> c[k] == CodeByte(k)
    ensures c[50] == 0x66 && c[51] == 0xB8 && c[54] == 0x66 && c[55] == 0x8E && c[56] == 0xE0 && c[57] == 0x66
    ensures c[58] == 0xB8 && c[61] == 0x66 && c[62] == 0x8E && c[63] == 0xD0 && c[64] == 0xB8 && c[69] == 0xFF
    ensures c[70] == 0xE0
  {
    assert IsOpcode(50) && IsOpcode(51) && IsOpcode(54) && IsOpcode(55) && IsOpcode(56) && IsOpcode(57) && IsOpcode(58) && IsOpcode(61);
    assert IsOpcode(62) && IsOpcode(63) && IsOpcode(64) && IsOpcode(69) && IsOpcode(70);
  }

  lemma DecodeNext(c: seq<byte>, at: nat, wide: bool, n: nat, i: Instruction, length: nat)
    requires n > 0 && DecodeOne(c, at, wide) == (i, length)
    ensures Decode(c, at, wide, n) == [i] + Decode(c, at + length, wide || i.FarJump?, n - 1)
  {
  }

  /** The 32-bit half. */
  lemma DecodeWide(c: seq<byte>, page: nat, s: Selectors, wakeup: nat)
    requires PatchedCode(c, page, s, wakeup)
    ensures Decode(c, 28, true, 13) == Intended(page, s, wakeup)[8..]
  {
    hide Decode, Field, IsOpcode;
    WideOpcodes(c);
    LastOpcodes(c);
    DecodeNext(c, 28, true, 13, Cli, 1);
    DecodeNext(c, 29, true, 12, MovAx(s.ds), 4);
    DecodeNext(c, 33, true, 11, MovSegment(DS), 3);
    DecodeNext(c, 36, true, 10, MovAx(s.es), 4);
    DecodeNext(c, 40, true, 9, MovSegment(ES), 3);
    DecodeNext(c, 43, true, 8, MovAx(s.gs), 4);
    DecodeNext(c, 47, true, 7, MovSegment(GS), 3);
    DecodeNext(c, 50, true, 6, MovAx(s.fs), 4);
    DecodeNext(c, 54, true, 5, MovSegment(FS), 3);
    DecodeNext(c, 57, true, 4, MovAx(s.ss), 4);
    DecodeNext(c, 61, true, 3, MovSegment(SS), 3);
    DecodeNext(c, 64, true, 2, MovEax(wakeup), 5);
    DecodeNext(c, 69, true, 1, JumpEax, 2);
    assert Decode(c, 71, true, 0) == [] by { DecodeNone(c, 71, true); }
  }

  lemma DecodeNone(c: seq<byte>, at: nat, wide: bool)
    ensures Decode(c, at, wide, 0) == []
  {
  }

  /** Round trip: the patched code decodes to exactly what was intended. */
  lemma PatchedDecodes(c: seq<byte>, page: nat, s: Selectors, wakeup: nat)
    requires PatchedCode(c, page, s, wakeup)
    ensures Decode(c, 0, false, 21) == Intended(page, s, wakeup)
  {
    hide Decode, Field, IsOpcode;
    NarrowOpcodes(c);
    DecodeWide(c, page, s, wakeup);
    DecodeNext(c, 0, false, 21, MovAx(page / 16), 3);
    DecodeNext(c, 3, false, 20, MovSegment(DS), 2);
    DecodeNext(c, 5, false, 19, LeaSi(GDTR_AT), 4);
    DecodeNext(c, 9, false, 18, LoadGdtr, 3);
    DecodeNext(c, 12, false, 17, MovEaxCr0, 3);
    DecodeNext(c, 15, false, 16, OrAl(1), 2);
    DecodeNext(c, 17, false, 15, MovCr0Eax, 3);
    DecodeNext(c, 20, false, 14, FarJump(page + 28, s.cs), 8);
  }

  // ----- setting it up

  lemma OperandFacts(page: nat, s: Selectors, wakeup: nat)
    requires page < ONE_MB && ValidSelectors(s) && wakeup < 0x1_0000_0000
    ensures OperandsIn(Operands(page, s, wakeup), CODE_SIZE)
    ensures forall i, j :: 0 <= i < j < 10 ==>
              Operands(page, s, wakeup)[i].at + Operands(page, s, wakeup)[i].size <= Operands(page, s, wakeup)[j].at
  {
    Pow256Values();
  }

  lemma FillGivesPatched(page: nat, s: Selectors, wakeup: nat)
    requires page < ONE_MB && ValidSelectors(s) && wakeup < 0x1_0000_0000
    ensures OperandsIn(Operands(page, s, wakeup), CODE_SIZE)
    ensures PatchedCode(Fill(Code(), Operands(page, s, wakeup)), page, s, wakeup)
  {
    hide Fill, Field, CodeByte, Pow256;
    var ops := Operands(page, s, wakeup);
    OperandFacts(page, s, wakeup);
    var c := Fill(Code(), ops);
    forall k | 0 <= k < CODE_SIZE && IsOpcode(k) ensures c[k] == CodeByte(k) {
      FilledElsewhere(Code(), ops, k);
    }
    forall i | 0 <= i < 10 ensures Field(c, ops[i].at, ops[i].size) == ops[i].value {
      FilledOperand(Code(), ops, i);
    }
    assert ops[0].at == 1 && ops[1].at == 7 && ops[2].at == 22 && ops[3].at == 26 && ops[4].at == 31;
    assert ops[5].at == 38 && ops[6].at == 45 && ops[7].at == 52 && ops[8].at == 59 && ops[9].at == 65;
  }

  /** setup_low_memory_ap_code for the page at `page`, with the BSP's selectors and GDT. */
  method SetupLowMemory(mem: array<byte>, page: nat, s: Selectors, wakeup: nat, gdt: seq<byte>)
    requires page % PAGE == 0 && page < ONE_MB && page + PAGE <= mem.Length
    requires ValidSelectors(s) && wakeup < 0x1_0000_0000
    requires 0 < |gdt| && GDT_AT + |gdt| <= PAGE
    modifies mem
    ensures Decode(mem[..][page..page + CODE_SIZE], 0, false, 21) == Intended(page, s, wakeup)
    ensures mem[..][page + GDT_AT..page + GDT_AT + |gdt|] == gdt
    ensures Field(mem[..], page + GDTR_AT, 2) == |gdt| - 1 && Field(mem[..], page + GDTR_AT + 2, 4) == page + GDT_AT
    ensures forall k :: 0 <= k < mem.Length && !(page <= k < page + PAGE) ==> mem[k] == old(mem[k])
  {
    hide Splice, Put, Field, Decode, Intended, Fill;
    ghost var m := mem[..];
    CopyIn(mem, page, Code());
    PatchOperands(mem, m, page, s, wakeup);
    ghost var code := Fill(Code(), Operands(page, s, wakeup));
    CopyIn(mem, page + GDT_AT, gdt);
    ghost var m1 := mem[..];
    Pow256Values();
    Store(mem, page + GDTR_AT + 2, 4, page + GDT_AT);
    PutField(m1, page + GDTR_AT + 2, 4, page + GDT_AT);
    ghost var m2 := mem[..];
    Store(mem, page + GDTR_AT, 2, |gdt| - 1);
    PutField(m2, page + GDTR_AT, 2, |gdt| - 1);
    PutElsewhere(m2, page + GDTR_AT, 2, |gdt| - 1, page + GDTR_AT + 2, 4);
    assert mem[..][page..page + CODE_SIZE] == code;
    assert mem[..][page + GDT_AT..page + GDT_AT + |gdt|] == gdt;
    FillGivesPatched(page, s, wakeup);
    PatchedDecodes(code, page, s, wakeup);
  }

  /** One store into the copied code. */
  method PatchOperand(mem: array<byte>, ghost m: seq<byte>, page: nat, ghost done: seq<Operand>, o: Operand)
    requires |m| == mem.Length && page + CODE_SIZE <= mem.Length
    requires OperandsIn(done, CODE_SIZE) && o.at + o.size <= CODE_SIZE && o.value < Pow256(o.size)
    requires mem[..] == Splice(m, page, Fill(Code(), done))
    modifies mem
    ensures OperandsIn(done + [o], CODE_SIZE)
    ensures mem[..] == Splice(m, page, Fill(Code(), done + [o]))
  {
    hide Splice, Put, Pow256;
    assert (done + [o])[..|done|] == done;
    Store(mem, page + o.at, o.size, o.value);
    PutNested(m, page, Fill(Code(), done), o.at, o.size, o.value);
  }

  /** The ten stores into the copied code. */
  method PatchOperands(mem: array<byte>, ghost m: seq<byte>, page: nat, s: Selectors, wakeup: nat)
    requires page < ONE_MB && ValidSelectors(s) && wakeup < 0x1_0000_0000
    requires |m| == mem.Length && page + CODE_SIZE <= mem.Length && mem[..] == Splice(m, page, Code())
    modifies mem
    ensures OperandsIn(Operands(page, s, wakeup), CODE_SIZE)
    ensures mem[..] == Splice(m, page, Fill(Code(), Operands(page, s, wakeup)))
  {
    hide Splice;
    Pow256Values();
    PatchOperand(mem, m, page, [], Operand(1, 2, page / 16));
    ghost var done := [Operand(1, 2, page / 16)];
    PatchOperand(mem, m, page, done, Operand(7, 2, GDTR_AT));
    done := done + [Operand(7, 2, GDTR_AT)];
    PatchOperand(mem, m, page, done, Operand(22, 4, page + 28));
    done := done + [Operand(22, 4, page + 28)];
    PatchOperand(mem, m, page, done, Operand(26, 2, s.cs));
    done := done + [Operand(26, 2, s.cs)];
    PatchOperand(mem, m, page, done, Operand(31, 2, s.ds));
    done := done + [Operand(31, 2, s.ds)];
    PatchOperand(mem, m, page, done, Operand(38, 2, s.es));
    done := done + [Operand(38, 2, s.es)];
    PatchOperand(mem, m, page, done, Operand(45, 2, s.gs));
    done := done + [Operand(45, 2, s.gs)];
    PatchOperand(mem, m, page, done, Operand(52, 2, s.fs));
    done := done + [Operand(52, 2, s.fs)];
    PatchOperand(mem, m, page, done, Operand(59, 2, s.ss));
    done := done + [Operand(59, 2, s.ss)];
    PatchOperand(mem, m, page, done, Operand(65, 4, wakeup));
    assert done + [Operand(65, 4, wakeup)] == Operands(page, s, wakeup);
  }

  /** The start-up IPI's vector is the page number: the AP starts, in real mode, at vector *
      4096, which is also the segment the code loads, times 16. */
  lemma StartupAddress(page: nat)
    requires page % PAGE == 0 && page < ONE_MB
    ensures page / PAGE < 256 && page / 16 < 0x1_0000
    ensures page / PAGE * PAGE == page == page / 16 * 16
  {
    var vector := page / PAGE;
    assert page == PAGE * vector == 16 * (256 * vector);
  }
}
