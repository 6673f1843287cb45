/**
 * The system-call dispatcher of Pintos user programs. A trap leaves the user
 * stack pointer in the interrupt frame; the word at `esp` is the syscall
 * number and the argument words follow it. The handler validates the number
 * word, then the argument words of the call (its arity), then any string
 * argument, and only then reads them; it routes to `exit`, `write`,
 * `practice`, `halt`, `exec` or `wait` and stores the result in `f->eax`.
 * Unknown numbers are ignored.
 *
 * `process_execute` and `process_wait` live in process.c, which is not part of
 * this model: they are the parameters `execute` and `wait`.
 */
module Syscall {
  import opened Machine
  import opened Wrappers
  import opened UserMemory
  import opened Process

  /** Syscall numbers, as Pintos's lib/syscall-nr.h enumerates them. */
  const SYS_HALT: Word := 0
  const SYS_EXIT: Word := 1
  const SYS_EXEC: Word := 2
  const SYS_WAIT: Word := 3
  const SYS_WRITE: Word := 9
  const SYS_PRACTICE: Word := 13

  const STDOUT_FILENO: Int32 := 1

  /** What happens after the handler has stored its result in `f->eax`. */
  datatype Action =
    | Resume                              // return to the user program
    | Console(buffer: Word, size: Word)   // `putbuf(buffer, size)`, then return
    | Exit(status: Int32)                 // `syscall_exit(status)`
    | PowerOff                            // `shutdown_power_off()`

  /** The handler's result when no validation failed: the new `f->eax` and what follows. */
  datatype Trap = Trap(eax: Word, action: Action)

  /** The number of argument words each known syscall validates after its number. */
  function Arity(nr: Word): (n: nat)
    ensures n <= 3
    ensures n == 3 <==> nr == SYS_WRITE
    ensures n == 1 <==> nr == SYS_EXIT || nr == SYS_PRACTICE || nr == SYS_EXEC || nr == SYS_WAIT
    ensures n == 0 <==> !(nr == SYS_EXIT || nr == SYS_WRITE || nr == SYS_PRACTICE || nr == SYS_EXEC || nr == SYS_WAIT)
  {
    if nr == SYS_WRITE then 3
    else if nr == SYS_EXIT || nr == SYS_PRACTICE || nr == SYS_EXEC || nr == SYS_WAIT then 1
    else 0
  }

  /** `args[k]`, the k-th word above the stack pointer. */
  function Arg(a: AddressSpace, esp: nat, k: nat): Word
    requires a.Wf() && RangeValid(a, esp + 4 * k, 4)
  {
    LoadWord(a, esp + 4 * k)
  }

  /** `syscall_practice`. */
  function SyscallPractice(i: Int32): (r: Int32)
    requires i < INT_MAX
    ensures i < r
    ensures FromInt32(r) as int == (FromInt32(i) as int + 1) % 0x1_0000_0000
  {
    i + 1
  }

  /**
   * Signed overflow is undefined in C: a `practice` call whose argument is
   * `INT_MAX` is outside what the code defines.
   */
  ghost predicate PracticeDefined(a: AddressSpace, esp: nat)
    requires a.Wf()
  {
    RangeValid(a, esp, 8) && LoadWord(a, esp) == SYS_PRACTICE ==> ToInt32(Arg(a, esp, 1)) < INT_MAX
  }

  /**
   * `syscall_handler` as the code is written: the outcome of one trap with
   * stack pointer `esp` and previous `f->eax` equal to `eax`.
   */
  ghost function Dispatch(a: AddressSpace, esp: nat, eax: Word,
                          execute: seq<Byte> -> Pid, wait: Pid -> Int32): (r: Outcome<Trap>)
    requires a.Wf() && PracticeDefined(a, esp)
    ensures r.Killed? ==> r.status == KILL_STATUS
  {
    if !RangeValid(a, esp, 4) then Killed(KILL_STATUS)
    else
      var nr := LoadWord(a, esp);
      if !RangeValid(a, esp + 4, 4 * Arity(nr)) then Killed(KILL_STATUS)
      else if nr == SYS_EXIT then
        var w := Arg(a, esp, 1);
        Ok(Trap(w, Exit(ToInt32(w))))
      else if nr == SYS_WRITE then
        if ToInt32(Arg(a, esp, 1)) == STDOUT_FILENO then Ok(Trap(eax, Console(Arg(a, esp, 2), Arg(a, esp, 3))))
        else Ok(Trap(eax, Resume))
      else if nr == SYS_PRACTICE then
        Ok(Trap(FromInt32(SyscallPractice(ToInt32(Arg(a, esp, 1)))), Resume))
      else if nr == SYS_HALT then
        Ok(Trap(eax, PowerOff))
      else if nr == SYS_EXEC then
        var cmd := Arg(a, esp, 1);
        match ScanString(a, cmd)
        case Killed(s) => Killed(s)
        case Ok(end) => Ok(Trap(FromInt32(execute(Bytes(a, cmd, end - cmd))), Resume))
      else if nr == SYS_WAIT then
        Ok(Trap(FromInt32(wait(ToInt32(Arg(a, esp, 1)))), Resume))
      else
        Ok(Trap(eax, Resume))
  }

  /**
   * Everything the handler dereferences is valid: the number word, the
   * argument words of its arity and, for `exec`, a whole terminated string.
   */
  ghost predicate ArgsValid(a: AddressSpace, esp: nat)
    requires a.Wf()
  {
    && RangeValid(a, esp, 4)
    && RangeValid(a, esp + 4, 4 * Arity(LoadWord(a, esp)))
    && (LoadWord(a, esp) == SYS_EXEC ==> exists end :: TerminatedAt(a, Arg(a, esp, 1), end))
  }

  /**
   * A trap kills the caller with -1 exactly when a word or string the handler
   * needs is not valid user memory; otherwise it completes.
   */
  lemma DispatchKillsIff(a: AddressSpace, esp: nat, eax: Word, execute: seq<Byte> -> Pid, wait: Pid -> Int32)
    requires a.Wf() && PracticeDefined(a, esp)
    ensures Dispatch(a, esp, eax, execute, wait).Killed? <==> !ArgsValid(a, esp)
    ensures Dispatch(a, esp, eax, execute, wait).Killed? ==> Dispatch(a, esp, eax, execute, wait).status == -1
  {
    if ArgsValid(a, esp) && LoadWord(a, esp) == SYS_EXEC {
      var end :| TerminatedAt(a, Arg(a, esp, 1), end);
      ScanStringComplete(a, Arg(a, esp, 1), end);
    }
  }

  /** An unknown syscall number leaves `f->eax` unchanged and has no other effect. */
  lemma DispatchIgnoresUnknown(a: AddressSpace, esp: nat, eax: Word, execute: seq<Byte> -> Pid, wait: Pid -> Int32)
    requires a.Wf() && PracticeDefined(a, esp) && RangeValid(a, esp, 4)
    requires LoadWord(a, esp) !in {SYS_HALT, SYS_EXIT, SYS_EXEC, SYS_WAIT, SYS_WRITE, SYS_PRACTICE}
    ensures Dispatch(a, esp, eax, execute, wait) == Ok(Trap(eax, Resume))
  {
  }

  /** `exit(status)` stores the status word in `f->eax`, then exits with it. */
  lemma DispatchExit(a: AddressSpace, esp: nat, eax: Word, execute: seq<Byte> -> Pid, wait: Pid -> Int32)
    requires a.Wf() && PracticeDefined(a, esp) && RangeValid(a, esp, 8) && LoadWord(a, esp) == SYS_EXIT
    ensures var r := Dispatch(a, esp, eax, execute, wait);
      r.Ok? && r.value.action.Exit? && ToInt32(r.value.eax) == r.value.action.status == ToInt32(Arg(a, esp, 1))
  {
    RangeValidSplit(a, esp, 4, 4);
  }

  /**
   * `practice(i)` returns `i + 1` in `f->eax`, for negative `i` and zero too;
   * the result read back as a signed `int` is the argument plus one.
   */
  lemma DispatchPractice(a: AddressSpace, esp: nat, eax: Word, execute: seq<Byte> -> Pid, wait: Pid -> Int32)
    requires a.Wf() && PracticeDefined(a, esp) && RangeValid(a, esp, 8) && LoadWord(a, esp) == SYS_PRACTICE
    ensures var r := Dispatch(a, esp, eax, execute, wait);
      r.Ok? && r.value.action == Resume && ToInt32(r.value.eax) == ToInt32(Arg(a, esp, 1)) + 1
  {
    RangeValidSplit(a, esp, 4, 4);
  }

  /**
   * `write` validates its three argument words, never the buffer, and never
   * stores a result in `f->eax`; it writes to the console exactly when `fd` is 1.
   */
  lemma DispatchWrite(a: AddressSpace, esp: nat, eax: Word, execute: seq<Byte> -> Pid, wait: Pid -> Int32)
    requires a.Wf() && PracticeDefined(a, esp) && RangeValid(a, esp, 16) && LoadWord(a, esp) == SYS_WRITE
    ensures var r := Dispatch(a, esp, eax, execute, wait);
      && r.Ok? && r.value.eax == eax
      && (r.value.action.Console? <==> ToInt32(Arg(a, esp, 1)) == STDOUT_FILENO)
      && (r.value.action.Console? ==> r.value.action == Console(Arg(a, esp, 2), Arg(a, esp, 3)))
      && (!r.value.action.Console? ==> r.value.action == Resume)
  {
    RangeValidSplit(a, esp, 4, 12);
  }

  /**
   * `exec` reads its command line only after validating it up to its
   * terminator; `f->eax` is what `process_execute` returns for those bytes.
   */
  lemma DispatchExec(a: AddressSpace, esp: nat, eax: Word, execute: seq<Byte> -> Pid, wait: Pid -> Int32,
                     end: nat)
    requires a.Wf() && PracticeDefined(a, esp) && RangeValid(a, esp, 8) && LoadWord(a, esp) == SYS_EXEC
    requires TerminatedAt(a, Arg(a, esp, 1), end)
    ensures var cmd := Arg(a, esp, 1);
      && RangeValid(a, cmd, end - cmd)
      && Dispatch(a, esp, eax, execute, wait) == Ok(Trap(FromInt32(execute(Bytes(a, cmd, end - cmd))), Resume))
  {
    RangeValidSplit(a, esp, 4, 4);
    ScanStringComplete(a, Arg(a, esp, 1), end);
  }

  /** `wait(pid)` stores `process_wait(pid)` in `f->eax`; falling into `default` changes nothing. */
  lemma DispatchWait(a: AddressSpace, esp: nat, eax: Word, execute: seq<Byte> -> Pid, wait: Pid -> Int32)
    requires a.Wf() && PracticeDefined(a, esp) && RangeValid(a, esp, 8) && LoadWord(a, esp) == SYS_WAIT
    ensures Dispatch(a, esp, eax, execute, wait) == Ok(Trap(FromInt32(wait(ToInt32(Arg(a, esp, 1)))), Resume))
  {
    RangeValidSplit(a, esp, 4, 4);
  }

  /**
   * The write buffer is never validated: a `write(1, NULL, 1)` trap goes on to
   * `putbuf` with a NULL buffer instead of killing the caller.
   */
  lemma WriteBufferUnchecked()
    ensures var a := WriteTrapSpace();
      && a.Wf() && PracticeDefined(a, 4)
      && Dispatch(a, 4, 0, _ => 0, _ => 0) == Ok(Trap(0, Console(0, 1)))
      && !RangeValid(a, 0, 1)
  {
    WriteTrapWords();
    WriteNullReachesConsole(WriteTrapSpace(), _ => 0, _ => 0);
  }

  /** Any stack holding the words 9, 1, 0, 1 at address 4 reaches `putbuf(NULL, 1)`. */
  lemma WriteNullReachesConsole(a: AddressSpace, execute: seq<Byte> -> Pid, wait: Pid -> Int32)
    requires a.Wf() && RangeValid(a, 4, 16)
    requires LoadWord(a, 4) == SYS_WRITE && LoadWord(a, 8) == 1 && LoadWord(a, 12) == 0 && LoadWord(a, 16) == 1
    ensures PracticeDefined(a, 4) && Dispatch(a, 4, 0, execute, wait) == Ok(Trap(0, Console(0, 1)))
  {
    DispatchWrite(a, 4, 0, execute, wait);
    assert ToInt32(1) == STDOUT_FILENO;
  }

  /** The four stack words of `WriteTrapSpace`, and its invalid byte 0. */
  lemma WriteTrapWords()
    ensures var a := WriteTrapSpace();
      && a.Wf() && RangeValid(a, 4, 16) && !ValidByte(a, 0)
      && LoadWord(a, 4) == SYS_WRITE && LoadWord(a, 8) == 1
      && LoadWord(a, 12) == 0 && LoadWord(a, 16) == 1
  {
    var a := WriteTrapSpace();
    assert RangeValid(a, 4, 16);
  }

  /** A process whose user stack at address 4 holds the words 9, 1, 0, 1: `write(1, NULL, 1)`. */
  function WriteTrapSpace(): AddressSpace
  {
    var stack := map x: nat | 4 <= x < 20 && InWriteTrapStack(x) :: if x == 4 then 9 else if x == 8 || x == 16 then 1 else 0;
    AddressSpace(0x1000, stack.Keys, stack)
  }

  /**
   * The stack addresses of the four words. The map above states the bounds
   * itself so that it is finite, and this predicate gives its quantifier a trigger.
   */
  predicate InWriteTrapStack(x: nat)
  {
    4 <= x < 20
  }

  /**
   * The handler as evidently intended: `write` also validates its buffer, so
   * every byte `putbuf` reads has been validated first.
   */
  ghost function DispatchChecked(a: AddressSpace, esp: nat, eax: Word,
                                 execute: seq<Byte> -> Pid, wait: Pid -> Int32): (r: Outcome<Trap>)
    requires a.Wf() && PracticeDefined(a, esp)
    ensures r.Killed? ==> r.status == KILL_STATUS
    ensures r.Ok? && r.value.action.Console? ==> RangeValid(a, r.value.action.buffer, r.value.action.size)
  {
    var r := Dispatch(a, esp, eax, execute, wait);
    if r.Ok? && r.value.action.Console? && !RangeValid(a, r.value.action.buffer, r.value.action.size)
    then Killed(KILL_STATUS)
    else r
  }

  /**
   * The corrected handler differs from the written one only on a console write
   * whose buffer is not valid user memory, which it kills; the bytes it hands
   * to the console can all be read.
   */
  lemma DispatchCheckedSafe(a: AddressSpace, esp: nat, eax: Word, execute: seq<Byte> -> Pid, wait: Pid -> Int32)
    requires a.Wf() && PracticeDefined(a, esp)
    ensures var r := DispatchChecked(a, esp, eax, execute, wait);
      var w := Dispatch(a, esp, eax, execute, wait);
      && (r != w <==> w.Ok? && w.value.action.Console? && !RangeValid(a, w.value.action.buffer, w.value.action.size))
      && (r.Ok? && r.value.action.Console? ==>
            |Bytes(a, r.value.action.buffer, r.value.action.size)| == r.value.action.size)
  {
  }

  /** Decimal text of a number, as `printf("%d")` writes it. */
  function DigitChar(d: nat): char
    requires d < 10
  {
    ('0' as int + d) as char
  }

  /** No leading zeros: only the number 0 is written with a first digit `0`, and then alone. */
  function NatToString(n: nat): (s: string)
    ensures |s| > 0 && forall i :: 0 <= i < |s| ==> '0' <= s[i] <= '9'
    ensures (s[0] == '0' <==> n == 0) && (|s| == 1 <==> n < 10)
    decreases n
  {
    if n < 10 then [DigitChar(n)] else NatToString(n / 10) + [DigitChar(n % 10)]
  }

  function IntToString(i: int): string
  {
    if i < 0 then "-" + NatToString(-i) else NatToString(i)
  }

  /** Reading decimal text back: the partner of `IntToString`. */
  function ParseNat(s: string): nat
    requires forall i :: 0 <= i < |s| ==> '0' <= s[i] <= '9'
    decreases |s|
  {
    if s == [] then 0 else 10 * ParseNat(s[..|s| - 1]) + (s[|s| - 1] as int - '0' as int)
  }

  function ParseInt(s: string): int
    requires |s| > 0 && forall i :: (if s[0] == '-' then 1 else 0) <= i < |s| ==> '0' <= s[i] <= '9'
  {
    if s[0] == '-' then 0 - ParseNat(s[1..]) else ParseNat(s)
  }

  lemma {:induction false} ParseNatToString(n: nat)
    ensures ParseNat(NatToString(n)) == n
    decreases n
  {
    if n >= 10 {
      var s := NatToString(n);
      assert s[..|s| - 1] == NatToString(n / 10);
      ParseNatToString(n / 10);
    }
  }

  /**
   * Decimal text as `%d` writes it: an optional minus sign, then digits with
   * no leading zero unless the number is 0.
   */
  predicate Canonical(d: string)
  {
    var start := if |d| > 0 && d[0] == '-' then 1 else 0;
    && start < |d|
    && (forall k :: start <= k < |d| ==> '0' <= d[k] <= '9')
    && (|d| > start + 1 ==> d[start] != '0')
    && (start == 1 ==> d[1] != '0')
  }

  /** `d` is the text `%d` prints for `i`: canonical decimal text that reads back as `i`. */
  predicate PrintsAs(d: string, i: int)
  {
    Canonical(d) && ParseInt(d) == i
  }

  /** The status printed in an exit line can be read back exactly, and has no leading zeros. */
  lemma IntToStringRoundTrip(i: int)
    ensures var s := IntToString(i);
      |s| > 0 && (s[0] == '-' <==> i < 0)
      && (forall k :: (if s[0] == '-' then 1 else 0) <= k < |s| ==> '0' <= s[k] <= '9')
      && Canonical(s)
      && ParseInt(s) == i
  {
    var s := IntToString(i);
    if i < 0 {
      var t := NatToString(-i);
      ParseNatToString(-i);
      assert s == "-" + t;
      assert s[1..] == t;
      assert forall k :: 1 <= k < |s| ==> s[k] == t[k - 1];
    } else {
      ParseNatToString(i);
    }
  }

  /** Digits without a leading zero are exactly the text of the number they read as. */
  lemma {:induction false} ParseNatCanonical(s: string)
    requires |s| > 0 && (forall k :: 0 <= k < |s| ==> '0' <= s[k] <= '9') && (|s| > 1 ==> s[0] != '0')
    ensures NatToString(ParseNat(s)) == s
    decreases |s|
  {
    var init := s[..|s| - 1];
    var c := s[|s| - 1] as int - '0' as int;
    assert s == init + [s[|s| - 1]];
    assert DigitChar(c) == s[|s| - 1];
    if |s| > 1 {
      assert init[0] == s[0];
      ParseNatCanonical(init);
      var m := ParseNat(init);
      assert m != 0;
      assert ParseNat(s) / 10 == m && ParseNat(s) % 10 == c;
    } else {
      assert init == [];
    }
  }

  /** Decimal text as `%d` writes it is the only such text of its number. */
  lemma CanonicalUnique(d: string)
    requires Canonical(d)
    ensures IntToString(ParseInt(d)) == d
  {
    if d[0] == '-' {
      ParseNatCanonical(d[1..]);
      assert d == "-" + d[1..];
    } else {
      ParseNatCanonical(d);
    }
  }

  /**
   * The contract of `ExitLine` fixes the line: any line of the name, `: exit(`,
   * decimal text without leading zeros that reads back as the status, and
   * `)\n` is the exit line.
   */
  lemma ExitLineDetermined(name: string, status: Int32, d: string)
    requires Canonical(d) && ParseInt(d) == status
    ensures name + ": exit(" + d + ")\n" == ExitLine(name, status)
  {
    CanonicalUnique(d);
  }

  /** The line `syscall_exit` prints: `"%s: exit(%d)\n"`. */
  function ExitLine(name: string, status: Int32): (line: string)
    ensures |line| >= |name| + 10
    ensures line[..|name|] == name && line[|name|..|name| + 7] == ": exit(" && line[|line| - 2..] == ")\n"
    ensures PrintsAs(line[|name| + 7..|line| - 2], status)
  {
    var d := IntToString(status);
    IntToStringRoundTrip(status);
    ExitLineParts(name, d);
    name + ": exit(" + d + ")\n"
  }

  /** Where the name, the fixed text and the status sit in an exit line. */
  lemma ExitLineParts(name: string, d: string)
    ensures var line := name + ": exit(" + d + ")\n";
      && |line| == |name| + 9 + |d|
      && line[..|name|] == name && line[|name|..|name| + 7] == ": exit(" && line[|line| - 2..] == ")\n"
      && line[|name| + 7..|line| - 2] == d
  {
  }

  /** The status a trap's outcome exits with, if it exits. */
  function ExitStatusOf(r: Outcome<Trap>): Option<Int32>
  {
    match r
    case Killed(_) => Some(KILL_STATUS)
    case Ok(Trap(_, Exit(s))) => Some(s)
    case Ok(_) => None
  }

  /** The child nodes `syscall_exit` may write: those of the parent's child list. */
  function ParentNodes(p: Pcb): set<ChildNode>
    reads p, p.ppcb
  {
    if p.ppcb != null then set n | n in p.ppcb.childList else {}
  }

  /** `f`, the interrupt frame: the user stack pointer and the return-value register. */
  class IntrFrame {
    var esp: Word
    var eax: Word

    constructor (esp: Word, eax: Word)
      ensures this.esp == esp && this.eax == eax
    {
      this.esp := esp;
      this.eax := eax;
    }
  }

  /**
   * `syscall_exit`: when the parent is still alive, posts `status` into the
   * parent's node for this thread's tid, and prints the exit line (returned
   * here), whose `%s` reads the PCB's name up to its terminator, inside the
   * 16-byte buffer by `Valid()`. `process_exit` follows; its body is in process.c, which is not part
   * of this model.
   */
  method SyscallExit(t: Thread, status: Int32) returns (line: string)
    requires t.pcb != null && t.pcb.Valid()
    requires t.pcb.ppcb != null ==> HasChild(t.pcb.ppcb.childList, t.tid)
    modifies ParentNodes(t.pcb)
    ensures line == ExitLine(t.pcb.processName, status)
    ensures t.pcb.ppcb != null ==> FirstChild(t.pcb.ppcb.childList, t.tid).exitStatus == status
    ensures t.pcb.mainThread == t && t.pcb.ppcb != null ==>
      FirstChild(t.pcb.ppcb.childList, t.pcb.Pid()).exitStatus == status
    ensures forall n :: n in ParentNodes(t.pcb) ==>
      ((t.pcb.ppcb == null || n != FirstChild(t.pcb.ppcb.childList, t.tid)) ==> n.exitStatus == old(n.exitStatus))
  {
    var p := t.pcb;
    if p.ppcb != null {
      var node := ChildListGet(p.ppcb.childList, t.tid);
      node.exitStatus := status;
    }
    line := ExitLine(p.processName, status);
  }

  /**
   * The body of `syscall_handler` up to `syscall_exit`: validates and reads the
   * trap's words in the order the code does and updates `f->eax`. A failed
   * validation returns at once, as `syscall_exit` never returns.
   */
  method Route(f: IntrFrame, a: AddressSpace, execute: seq<Byte> -> Pid, wait: Pid -> Int32)
    returns (r: Outcome<Trap>)
    requires a.Wf() && PracticeDefined(a, f.esp)
    modifies f
    ensures r == Dispatch(a, old(f.esp), old(f.eax), execute, wait)
    ensures f.esp == old(f.esp) && f.eax == (if r.Ok? then r.value.eax else old(f.eax))
  {
    var esp: nat := f.esp;
    var v := ValidateArgs(a, esp, 1);
    if v.Killed? {
      return Killed(KILL_STATUS);
    }
    var nr := LoadWord(a, esp);
    if nr == SYS_EXIT {
      v := ValidateArgs(a, esp + 4, 1);
      if v.Killed? {
        return Killed(KILL_STATUS);
      }
      f.eax := Arg(a, esp, 1);
      r := Ok(Trap(f.eax, Exit(ToInt32(f.eax))));
    } else if nr == SYS_WRITE {
      v := ValidateArgs(a, esp + 4, 3);
      if v.Killed? {
        return Killed(KILL_STATUS);
      }
      if ToInt32(Arg(a, esp, 1)) == STDOUT_FILENO {
        r := Ok(Trap(f.eax, Console(Arg(a, esp, 2), Arg(a, esp, 3))));
      } else {
        r := Ok(Trap(f.eax, Resume));
      }
    } else if nr == SYS_PRACTICE {
      v := ValidateArgs(a, esp + 4, 1);
      if v.Killed? {
        return Killed(KILL_STATUS);
      }
      f.eax := FromInt32(SyscallPractice(ToInt32(Arg(a, esp, 1))));
      r := Ok(Trap(f.eax, Resume));
    } else if nr == SYS_HALT {
      r := Ok(Trap(f.eax, PowerOff));
    } else if nr == SYS_EXEC {
      v := ValidateArgs(a, esp + 4, 1);
      if v.Killed? {
        return Killed(KILL_STATUS);
      }
      var cmd := Arg(a, esp, 1);
      var s := ValidateString(a, cmd);
      if s.Killed? {
        return Killed(KILL_STATUS);
      }
      f.eax := FromInt32(execute(Bytes(a, cmd, s.value - cmd)));
      r := Ok(Trap(f.eax, Resume));
    } else if nr == SYS_WAIT {
      v := ValidateArgs(a, esp + 4, 1);
      if v.Killed? {
        return Killed(KILL_STATUS);
      }
      f.eax := FromInt32(wait(ToInt32(Arg(a, esp, 1))));
      r := Ok(Trap(f.eax, Resume));
    } else {
      r := Ok(Trap(f.eax, Resume));
    }
  }

  /**
   * The handler's routing as evidently intended: a console write first
   * validates its whole buffer, killing the caller with -1 when any byte of it
   * is not valid user memory.
   */
  method RouteChecked(f: IntrFrame, a: AddressSpace, execute: seq<Byte> -> Pid, wait: Pid -> Int32)
    returns (r: Outcome<Trap>)
    requires a.Wf() && PracticeDefined(a, f.esp)
    modifies f
    ensures r == DispatchChecked(a, old(f.esp), old(f.eax), execute, wait)
    ensures f.esp == old(f.esp)
    ensures r.Ok? ==> f.eax == r.value.eax
  {
    r := Route(f, a, execute, wait);
    if r.Ok? && r.value.action.Console? {
      var v := ValidateBuffer(a, r.value.action.buffer, r.value.action.size);
      if v.Killed? {
        r := Killed(KILL_STATUS);
      }
    }
  }

  /**
   * `syscall_handler`: routes the trap and, when the call exits or a validation
   * failed, runs `syscall_exit` with the status, posting it to the parent.
   */
  method SyscallHandler(f: IntrFrame, t: Thread, execute: seq<Byte> -> Pid, wait: Pid -> Int32)
    returns (r: Outcome<Trap>, line: Option<string>)
    requires t.pcb != null && t.pcb.Valid() && t.pcb.pagedir.Wf() && PracticeDefined(t.pcb.pagedir, f.esp)
    requires t.pcb.ppcb != null ==> HasChild(t.pcb.ppcb.childList, t.tid)
    modifies f, ParentNodes(t.pcb)
    ensures r == Dispatch(t.pcb.pagedir, old(f.esp), old(f.eax), execute, wait)
    ensures f.esp == old(f.esp) && f.eax == (if r.Ok? then r.value.eax else old(f.eax))
    ensures line == (match ExitStatusOf(r) case Some(s) => Some(ExitLine(t.pcb.processName, s)) case None => None)
    ensures ExitStatusOf(r).Some? && t.pcb.ppcb != null ==>
      FirstChild(t.pcb.ppcb.childList, t.tid).exitStatus == ExitStatusOf(r).value
    ensures ExitStatusOf(r).Some? && t.pcb.mainThread == t && t.pcb.ppcb != null ==>
      FirstChild(t.pcb.ppcb.childList, t.pcb.Pid()).exitStatus == ExitStatusOf(r).value
    ensures forall n :: n in ParentNodes(t.pcb) ==>
      ((ExitStatusOf(r).None? || t.pcb.ppcb == null || n != FirstChild(t.pcb.ppcb.childList, t.tid))
       ==> n.exitStatus == old(n.exitStatus))
  {
    r := Route(f, t.pcb.pagedir, execute, wait);
    line := ExitOnStatus(t, ExitStatusOf(r));
  }

  /** The tail of `syscall_handler`: `syscall_exit` runs exactly when the trap exits or is killed. */
  method ExitOnStatus(t: Thread, status: Option<Int32>) returns (line: Option<string>)
    requires t.pcb != null && t.pcb.Valid()
    requires t.pcb.ppcb != null ==> HasChild(t.pcb.ppcb.childList, t.tid)
    modifies ParentNodes(t.pcb)
    ensures line == (match status case Some(s) => Some(ExitLine(t.pcb.processName, s)) case None => None)
    ensures status.Some? && t.pcb.ppcb != null ==> FirstChild(t.pcb.ppcb.childList, t.tid).exitStatus == status.value
    ensures status.Some? && t.pcb.mainThread == t && t.pcb.ppcb != null ==>
      FirstChild(t.pcb.ppcb.childList, t.pcb.Pid()).exitStatus == status.value
    ensures forall n :: n in ParentNodes(t.pcb) ==>
      ((status.None? || t.pcb.ppcb == null || n != FirstChild(t.pcb.ppcb.childList, t.tid))
       ==> n.exitStatus == old(n.exitStatus))
  {
    match status
    case Some(s) =>
      var l := SyscallExit(t, s);
      line := Some(l);
    case None =>
      line := None;
  }
}
