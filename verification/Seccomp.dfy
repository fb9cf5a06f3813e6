/** The system call filter of the sealed child, a classic BPF program (internal/sealedexec/seccomp_linux.go). */
module Seccomp {
  import opened Options

  type U32 = k: int | 0 <= k < 0x1_0000_0000

  // ----- The classic BPF machine -----

  // The fields of an operation code do not overlap, so a code is the sum of its fields.

  const LD: nat := 0x00
  const W: nat := 0x00
  const ABS: nat := 0x20
  const JMP: nat := 0x05
  const JEQ: nat := 0x10
  const JGE: nat := 0x30
  const K: nat := 0x00
  const RET: nat := 0x06

  const OFF_NR: U32 := 0
  const OFF_ARCH: U32 := 4

  datatype Instr = Instr(code: nat, jt: nat, jf: nat, k: U32)

  function Stmt(code: nat, k: U32): Instr {
    Instr(code, 0, 0, k)
  }

  function Jump(code: nat, k: U32, jt: nat, jf: nat): Instr {
    Instr(code, jt, jf, k)
  }

  /** The words of a system call's data that the filter looks at. */
  datatype Data = Data(nr: U32, arch: U32)

  datatype Outcome = Returned(action: U32) | Faulted

  /**
   Runs the instructions still ahead, with acc in the accumulator. Jumps only go forward, so the
   instructions ahead are all of the machine's control state. Leaving the program, an unknown
   instruction and a load of another word are faults.
   */
  function Run(ahead: seq<Instr>, acc: U32, data: Data): Outcome
    decreases |ahead|
  {
    if ahead == [] then Faulted
    else
      var i := ahead[0];
      if i.code == LD + W + ABS then
        if i.k == OFF_NR then Run(ahead[1..], data.nr, data)
        else if i.k == OFF_ARCH then Run(ahead[1..], data.arch, data)
        else Faulted
      else if i.code == JMP + JEQ + K then Goto(ahead, if acc == i.k then i.jt else i.jf, acc, data)
      else if i.code == JMP + JGE + K then Goto(ahead, if acc >= i.k then i.jt else i.jf, acc, data)
      else if i.code == RET + K then Returned(i.k)
      else Faulted
  }

  function Goto(ahead: seq<Instr>, skip: nat, acc: U32, data: Data): Outcome
    requires ahead != []
    decreases |ahead|, 0
  {
    if 1 + skip <= |ahead| then Run(ahead[1 + skip..], acc, data) else Faulted
  }

  // ----- The filter -----

  const X32_SYSCALL_BIT: U32 := 0x4000_0000

  const RET_KILL_PROCESS: U32 := 0x8000_0000
  const RET_ERRNO: U32 := 0x0005_0000
  const RET_DATA_SIZE: U32 := 0x1_0000
  const RET_ALLOW: U32 := 0x7FFF_0000
  const EPERM: U32 := 1

  const AUDIT_ARCH_X86_64: U32 := 0xC000_003E
  const AUDIT_ARCH_AARCH64: U32 := 0xC000_00B7

  /** The architecture to expect, and whether numbers of the x32 interface must be caught. */
  function ArchInfo(goarch: string): Option<(U32, bool)> {
    if goarch == "amd64" then Some((AUDIT_ARCH_X86_64, true))
    else if goarch == "arm64" then Some((AUDIT_ARCH_AARCH64, false))
    else None
  }

  const KILL: U32 := RET_KILL_PROCESS
  const DENY: U32 := RET_ERRNO + EPERM % RET_DATA_SIZE // the data field below the action
  const ALLOW: U32 := RET_ALLOW

  function Denials(denied: seq<U32>): seq<Instr> {
    if denied == [] then []
    else Denials(denied[..|denied| - 1]) + [Jump(JMP + JEQ + K, denied[|denied| - 1], 0, 1), Stmt(RET + K, DENY)]
  }

  function Prologue(expected: U32, x32Guard: bool): seq<Instr> {
    [Stmt(LD + W + ABS, OFF_ARCH), Jump(JMP + JEQ + K, expected, 1, 0), Stmt(RET + K, KILL), Stmt(LD + W + ABS, OFF_NR)]
    + if x32Guard then [Jump(JMP + JGE + K, X32_SYSCALL_BIT, 0, 1), Stmt(RET + K, KILL)] else []
  }

  function Filter(expected: U32, x32Guard: bool, denied: seq<U32>): seq<Instr> {
    Prologue(expected, x32Guard) + Denials(denied) + [Stmt(RET + K, ALLOW)]
  }

  /** Assembles the program: there is one exactly for the supported architectures. */
  method BuildFilter(goarch: string, denied: seq<U32>) returns (prog: Option<seq<Instr>>)
    ensures prog == match ArchInfo(goarch)
                    case None => None
                    case Some((expected, x32Guard)) => Some(Filter(expected, x32Guard, denied))
    ensures prog == None <==> goarch != "amd64" && goarch != "arm64"
    ensures prog.Some? ==>
              forall data :: Run(prog.value, 0, data) == Returned(Decision(goarch == "amd64", denied, data))
  {
    hide Run, Verdict, Decision;
    DecidesAs(denied);
    var info := ArchInfo(goarch);
    if info == None {
      return None;
    }
    var (expected, x32Guard) := info.value;
    var p := [
      Stmt(LD + W + ABS, OFF_ARCH),
      Jump(JMP + JEQ + K, expected, 1, 0),
      Stmt(RET + K, KILL),
      Stmt(LD + W + ABS, OFF_NR)
    ];
    if x32Guard {
      p := p + [Jump(JMP + JGE + K, X32_SYSCALL_BIT, 0, 1), Stmt(RET + K, KILL)];
    }
    for i := 0 to |denied|
      invariant p == Prologue(expected, x32Guard) + Denials(denied[..i])
    {
      assert denied[..i + 1][..i] == denied[..i];
      p := p + [Jump(JMP + JEQ + K, denied[i], 0, 1), Stmt(RET + K, DENY)];
    }
    assert denied[..|denied|] == denied;
    return Some(p + [Stmt(RET + K, ALLOW)]);
  }

  // ----- What the filter does -----

  /** What should become of a system call. */
  function Verdict(expected: U32, x32Guard: bool, denied: seq<U32>, data: Data): U32 {
    if data.arch != expected then KILL
    else if x32Guard && data.nr >= X32_SYSCALL_BIT then KILL
    else if data.nr in denied then DENY
    else ALLOW
  }

  /** The three verdicts are different actions. */
  lemma VerdictsDiffer()
    ensures KILL != DENY && DENY != ALLOW && KILL != ALLOW
  {
  }

  lemma RunLoad(off: U32, rest: seq<Instr>, acc: U32, data: Data)
    requires off == OFF_ARCH || off == OFF_NR
    ensures Run([Stmt(LD + W + ABS, off)] + rest, acc, data) ==
        Run(rest, if off == OFF_ARCH then data.arch else data.nr, data)
  {
    assert ([Stmt(LD + W + ABS, off)] + rest)[1..] == rest;
  }

  /** A comparison that guards the return behind it. */
  lemma RunGuard(op: nat, k: U32, jt: nat, jf: nat, action: U32, rest: seq<Instr>, acc: U32, data: Data)
    requires (op == JEQ || op == JGE) && ((jt == 0 && jf == 1) || (jt == 1 && jf == 0))
    ensures Run([Jump(JMP + op + K, k, jt, jf), Stmt(RET + K, action)] + rest, acc, data)
         == if (if op == JEQ then acc == k else acc >= k) == (jt == 0) then Returned(action) else Run(rest, acc, data)
  {
    var p := [Jump(JMP + op + K, k, jt, jf), Stmt(RET + K, action)] + rest;
    assert p[2..] == rest && p[1..][0] == Stmt(RET + K, action);
    assert Run(p[1..], acc, data) == Returned(action);
  }

  lemma {:induction false} RunDenials(denied: seq<U32>, rest: seq<Instr>, data: Data)
    ensures Run(Denials(denied) + rest, data.nr, data)
         == if data.nr in denied then Returned(DENY) else Run(rest, data.nr, data)
  {
    if denied == [] {
      assert Denials(denied) + rest == rest;
    } else {
      var init, last := denied[..|denied| - 1], denied[|denied| - 1];
      var one := [Jump(JMP + JEQ + K, last, 0, 1), Stmt(RET + K, DENY)] + rest;
      assert Denials(denied) + rest == Denials(init) + one;
      RunDenials(init, one, data);
      RunGuard(JEQ, last, 0, 1, DENY, rest, data.nr, data);
      assert denied == init + [last];
    }
  }

  lemma RunPrologue(expected: U32, x32Guard: bool, rest: seq<Instr>, data: Data)
    ensures Run(Prologue(expected, x32Guard) + rest, 0, data)
         == if data.arch != expected || (x32Guard && data.nr >= X32_SYSCALL_BIT) then Returned(KILL)
            else Run(rest, data.nr, data)
  {
    hide Run;
    var guard := [Jump(JMP + JGE + K, X32_SYSCALL_BIT, 0, 1), Stmt(RET + K, KILL)];
    var late := if x32Guard then guard + rest else rest;
    var body := [Stmt(LD + W + ABS, OFF_NR)] + late;
    var check := [Jump(JMP + JEQ + K, expected, 1, 0), Stmt(RET + K, KILL)] + body;
    assert Prologue(expected, x32Guard) + rest == [Stmt(LD + W + ABS, OFF_ARCH)] + check;
    RunLoad(OFF_ARCH, check, 0, data);
    RunGuard(JEQ, expected, 1, 0, KILL, body, data.arch, data);
    RunLoad(OFF_NR, late, data.arch, data);
    RunGuard(JGE, X32_SYSCALL_BIT, 0, 1, KILL, rest, data.nr, data);
  }

  /**
   The built program never faults, and returns kill on a foreign architecture or a guarded x32
   number, EPERM exactly on the denied numbers, and allow otherwise.
   */
  lemma FilterIsCorrect(expected: U32, x32Guard: bool, denied: seq<U32>, data: Data)
    ensures Run(Filter(expected, x32Guard, denied), 0, data) == Returned(Verdict(expected, x32Guard, denied, data))
  {
    var allow := [Stmt(RET + K, ALLOW)];
    assert Filter(expected, x32Guard, denied) == Prologue(expected, x32Guard) + (Denials(denied) + allow);
    RunPrologue(expected, x32Guard, Denials(denied) + allow, data);
    RunDenials(denied, allow, data);
  }

  /**
   What the kernel does with a system call, in its own numbers: kill the process, fail with EPERM, or let
   the call through. On amd64 the numbers from 2^30 on are those of the x32 interface.
   */
  function Decision(amd64: bool, denied: seq<U32>, data: Data): U32 {
    if data.arch != (if amd64 then 0xC000_003E else 0xC000_00B7) then 0x8000_0000
    else if amd64 && data.nr >= 0x4000_0000 then 0x8000_0000
    else if data.nr in denied then 0x0005_0001
    else 0x7FFF_0000
  }

  lemma DecidesAs(denied: seq<U32>)
    ensures forall data :: Run(Filter(0xC000_003E, true, denied), 0, data) == Returned(Decision(true, denied, data))
    ensures forall data :: Run(Filter(0xC000_00B7, false, denied), 0, data) == Returned(Decision(false, denied, data))
  {
    hide Run, Filter;
    forall data: Data
      ensures Run(Filter(0xC000_003E, true, denied), 0, data) == Returned(Decision(true, denied, data))
      ensures Run(Filter(0xC000_00B7, false, denied), 0, data) == Returned(Decision(false, denied, data))
    {
      FilterIsCorrect(0xC000_003E, true, denied, data);
      FilterIsCorrect(0xC000_00B7, false, denied, data);
    }
  }
}
