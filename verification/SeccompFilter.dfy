/**
  The seccomp filter of src/shim/seccomp.c: the macros that turn rules into
  classic BPF, and an interpreter for the programs they make.
 */
module SeccompFilter {
  import opened Basics

  /** `struct sock_filter`. */
  datatype Instr = Instr(code: nat, jt: nat, jf: nat, k: U32)

  /** BPF_LD|BPF_W|BPF_ABS, BPF_JMP|BPF_JEQ|BPF_K and BPF_RET|BPF_K. */
  const LOAD_WORD: nat := 0x20
  const JUMP_EQ: nat := 0x15
  const RETURN: nat := 0x06

  const RET_ALLOW: U32 := 0x7FFF_0000
  const RET_TRAP: U32 := 0x0003_0000
  const RET_ERRNO: U32 := 0x0005_0000

  function Stmt(code: nat, k: U32): Instr { Instr(code, 0, 0, k) }

  function Jump(code: nat, k: U32, jt: nat, jf: nat): Instr { Instr(code, jt, jf, k) }

  datatype Action = Allow | Trap | Errno(errno: nat)

  datatype Rule = Rule(nr: U32, action: Action)

  /** The return value; `SECCOMP_RET_ERRNO | (errno & SECCOMP_RET_DATA)` has disjoint halves. */
  function Verdict(action: Action): U32 {
    match action
    case Allow => RET_ALLOW
    case Trap => RET_TRAP
    case Errno(errno) => RET_ERRNO + errno % 0x1_0000
  }

  /** SC_ALLOW, SC_TRAP and SC_ERRNO: skip the return when the number differs. */
  function Expand(rule: Rule): seq<Instr> {
    [Jump(JUMP_EQ, rule.nr, 0, 1), Stmt(RETURN, Verdict(rule.action))]
  }

  function ExpandAll(rules: seq<Rule>): (prog: seq<Instr>)
    ensures |prog| == 2 * |rules|
  {
    if rules == [] then [] else Expand(rules[0]) + ExpandAll(rules[1..])
  }

  /** Load the syscall number, which is word 0 of `struct seccomp_data`; the rules; default ALLOW. */
  function Compile(rules: seq<Rule>): seq<Instr> {
    [Stmt(LOAD_WORD, 0)] + ExpandAll(rules) + [Stmt(RETURN, RET_ALLOW)]
  }

  // ---- Classic BPF -----------------------------------------------------------------

  /** How a run ends, and the number of instructions executed. */
  datatype Result = Returned(verdict: U32, steps: nat) | Fault(steps: nat)

  /** Runs a program on the words of `struct seccomp_data` from instruction `pc` with accumulator
      `acc`. Jumps only go forward. Anything outside the fragment in use is a fault. */
  function Exec(prog: seq<Instr>, data: seq<U32>, pc: nat, acc: U32, steps: nat): Result
    decreases |prog| - pc
  {
    if pc >= |prog| then Fault(steps)
    else
      var ins := prog[pc];
      if ins.code == LOAD_WORD then
        if ins.k % 4 == 0 && ins.k / 4 < |data| then Exec(prog, data, pc + 1, data[ins.k / 4], steps + 1)
        else Fault(steps + 1)
      else if ins.code == JUMP_EQ then
        Exec(prog, data, pc + 1 + (if acc == ins.k then ins.jt else ins.jf), acc, steps + 1)
      else if ins.code == RETURN then Returned(ins.k, steps + 1)
      else Fault(steps + 1)
  }

  function Run(prog: seq<Instr>, data: seq<U32>): Result {
    Exec(prog, data, 0, 0, 0)
  }

  lemma {:induction false} ExecWithinLength(prog: seq<Instr>, data: seq<U32>, pc: nat, acc: U32, steps: nat)
    requires pc <= |prog|
    ensures Exec(prog, data, pc, acc, steps).steps <= steps + |prog| - pc
    decreases |prog| - pc
  {
    if pc < |prog| {
      var ins := prog[pc];
      if ins.code == LOAD_WORD {
        if ins.k % 4 == 0 && ins.k / 4 < |data| {
          ExecWithinLength(prog, data, pc + 1, data[ins.k / 4], steps + 1);
        }
      } else if ins.code == JUMP_EQ {
        var next := pc + 1 + (if acc == ins.k then ins.jt else ins.jf);
        if next <= |prog| {
          ExecWithinLength(prog, data, next, acc, steps + 1);
        }
      }
    }
  }

  /** No program executes more instructions than it has, whether it returns or faults. */
  lemma HaltsWithinLength(prog: seq<Instr>, data: seq<U32>)
    ensures Run(prog, data).steps <= |prog|
  {
    ExecWithinLength(prog, data, 0, 0, 0);
  }

  // ---- Meaning ------------------------------------------------------------------------

  /** Rule `i` is the first one for the syscall. */
  predicate FirstMatch(rules: seq<Rule>, nr: U32, i: nat) {
    i < |rules| && rules[i].nr == nr && forall j | 0 <= j < i :: rules[j].nr != nr
  }

  lemma {:induction false} RulesAt(rules: seq<Rule>, i: nat)
    requires i < |rules|
    ensures ExpandAll(rules)[2 * i] == Expand(rules[i])[0] && ExpandAll(rules)[2 * i + 1] == Expand(rules[i])[1]
  {
    if i > 0 {
      RulesAt(rules[1..], i - 1);
    }
  }

  /** From rule `i` on: the first matching rule from there decides, and otherwise the default. */
  lemma {:induction false} RunsFromRule(rules: seq<Rule>, data: seq<U32>, i: nat, nr: U32, steps: nat)
    requires i <= |rules| && (forall j | 0 <= j < i :: rules[j].nr != nr)
    ensures var r := Exec(Compile(rules), data, 1 + 2 * i, nr, steps);
            && r.Returned?
            && (forall m: nat | FirstMatch(rules, nr, m) :: r.verdict == Verdict(rules[m].action))
            && ((forall m | 0 <= m < |rules| :: rules[m].nr != nr) ==> r.verdict == RET_ALLOW)
            && r.steps <= steps + 1 + |rules| - i
    decreases |rules| - i
  {
    var prog := Compile(rules);
    if i < |rules| {
      RulesAt(rules, i);
      assert prog[1 + 2 * i] == Expand(rules[i])[0] && prog[2 + 2 * i] == Expand(rules[i])[1];
      if rules[i].nr == nr {
        assert FirstMatch(rules, nr, i);
        assert Exec(prog, data, 2 + 2 * i, nr, steps + 1) == Returned(Verdict(rules[i].action), steps + 2);
      } else {
        RunsFromRule(rules, data, i + 1, nr, steps + 1);
      }
    } else {
      assert prog[1 + 2 * i] == Stmt(RETURN, RET_ALLOW);
    }
  }

  /** For every rule list and every 32-bit syscall number, the compiled filter returns the verdict
      of the first rule for that number, and ALLOW when there is none. */
  lemma CompileIsCorrect(rules: seq<Rule>, data: seq<U32>)
    requires data != []
    ensures var r := Run(Compile(rules), data);
            && r.Returned? && r.steps <= |rules| + 2
            && (forall m: nat | FirstMatch(rules, data[0], m) :: r.verdict == Verdict(rules[m].action))
            && ((forall m | 0 <= m < |rules| :: rules[m].nr != data[0]) ==> r.verdict == RET_ALLOW)
  {
    assert Run(Compile(rules), data) == Exec(Compile(rules), data, 1, data[0], 1);
    RunsFromRule(rules, data, 0, data[0], 1);
  }

  /** The rules as installed, with the x86-64 numbers of clock_gettime, gettimeofday, time,
      getrandom and the three io_uring calls, and ENOSYS. */
  const SHIPPED: seq<Rule> := [
    Rule(228, Trap), Rule(96, Trap), Rule(201, Trap), Rule(318, Trap),
    Rule(425, Errno(38)), Rule(426, Errno(38)), Rule(427, Errno(38))]

  /** The verdicts as the kernel reads them. */
  lemma VerdictNumbers(errno: nat)
    ensures Verdict(Allow) == 0x7FFF_0000 && Verdict(Trap) == 0x0003_0000
    ensures Verdict(Errno(errno)) == 0x0005_0000 + errno % 0x1_0000
  {}

  /** A rule as the kernel reads it: compare and skip, return. */
  lemma RuleNumbers(rule: Rule)
    ensures Compile([rule]) ==
            [Instr(0x20, 0, 0, 0), Instr(0x15, 0, 1, rule.nr), Instr(0x06, 0, 0, Verdict(rule.action)),
             Instr(0x06, 0, 0, 0x7FFF_0000)]
  {
    assert ExpandAll([rule]) == Expand(rule) + ExpandAll([]);
  }

  /** The installed filter traps the time and randomness calls, refuses io_uring with ENOSYS, and
      allows everything else, within nine instructions. */
  lemma ShippedFilterIsCorrect(data: seq<U32>)
    requires data != []
    ensures |Compile(SHIPPED)| == 16
    ensures var r := Run(Compile(SHIPPED), data);
            && r.Returned? && r.steps <= 9
            && r.verdict == if data[0] in {228, 96, 201, 318} then 0x0003_0000
                            else if 425 <= data[0] <= 427 then 0x0005_0026
                            else 0x7FFF_0000
  {
    assert |Compile(SHIPPED)| == 16;
    hide Compile, Run, Verdict, FirstMatch;
    CompileIsCorrect(SHIPPED, data);
    ShippedRules(data[0]);
  }

  lemma ShippedRules(nr: U32)
    ensures var verdict: U32 := if nr in {228, 96, 201, 318} then 0x0003_0000
                                else if 425 <= nr <= 427 then 0x0005_0026 else 0x7FFF_0000;
            && (forall i: nat | i < 7 && SHIPPED[i].nr == nr ::
                  FirstMatch(SHIPPED, nr, i) && Verdict(SHIPPED[i].action) == verdict)
            && ((forall i | 0 <= i < 7 :: SHIPPED[i].nr != nr) ==> verdict == RET_ALLOW)
  {
    assert SHIPPED[0].nr == 228 && SHIPPED[1].nr == 96 && SHIPPED[2].nr == 201 && SHIPPED[3].nr == 318;
    assert SHIPPED[4].nr == 425 && SHIPPED[5].nr == 426 && SHIPPED[6].nr == 427;
  }
}
