/**
 * The user-memory validator of the system-call layer: before the kernel
 * dereferences an address a user program handed it, every byte is checked to
 * be non-NULL, below the user/kernel boundary (`is_user_vaddr`) and mapped in
 * the process's page directory (`pagedir_get_page`). A failed check kills the
 * process with status -1.
 *
 * The page directory is abstract: a bound, a set of mapped addresses and the
 * bytes stored at them. Memory is only ever read through `Load`, whose
 * precondition is that the byte passed validation, so every read in this model
 * is proved to come after its validation.
 */
module UserMemory {
  import opened Machine

  /** The exit status a failed validation passes to `syscall_exit`. */
  const KILL_STATUS: Int32 := -1

  /** A user address space: `userBound` plays `PHYS_BASE` for `is_user_vaddr`. */
  datatype AddressSpace = AddressSpace(userBound: nat, mapped: set<nat>, mem: map<nat, Byte>)
  {
    /** Every mapped address holds a byte, and user space lies inside 32 bits. */
    predicate Wf()
    {
      mapped <= mem.Keys && userBound <= 0x1_0000_0000
    }
  }

  /** What a validation, or a kernel operation guarded by validations, comes to. */
  datatype Outcome<+T> = Ok(value: T) | Killed(status: int)

  /** The condition `validate_byte` tests: the address may be dereferenced. */
  predicate ValidByte(a: AddressSpace, addr: nat)
  {
    addr != 0 && addr < a.userBound && addr in a.mapped
  }

  /** `validate_byte`: kill with -1 on a NULL, kernel or unmapped address, otherwise no effect. */
  function ValidateByte(a: AddressSpace, addr: nat): (r: Outcome<()>)
    ensures r == Ok(()) || r == Killed(KILL_STATUS)
    ensures r.Killed? <==> addr == 0 || addr >= a.userBound || addr !in a.mapped
  {
    if addr == 0 || !(addr < a.userBound) || addr !in a.mapped then Killed(KILL_STATUS) else Ok(())
  }

  /** The kernel reading one user byte; only a validated byte can be read. */
  function Load(a: AddressSpace, addr: nat): Byte
    requires a.Wf() && ValidByte(a, addr)
  {
    a.mem[addr]
  }

  /** Every byte of `[p, p + len)` passes `validate_byte`. */
  ghost predicate RangeValid(a: AddressSpace, p: nat, len: nat)
  {
    forall x :: p <= x < p + len ==> ValidByte(a, x)
  }

  /** The `len` bytes at `p`, read after they were validated. */
  function Bytes(a: AddressSpace, p: nat, len: nat): (s: seq<Byte>)
    requires a.Wf() && RangeValid(a, p, len)
    ensures |s| == len && forall i :: 0 <= i < len ==> s[i] == Load(a, p + i)
    decreases len
  {
    if len == 0 then [] else Bytes(a, p, len - 1) + [Load(a, p + len - 1)]
  }

  /** The little-endian word `args[k]` at `p`, read after its four bytes were validated. */
  function LoadWord(a: AddressSpace, p: nat): Word
    requires a.Wf() && RangeValid(a, p, 4)
  {
    Load(a, p) + 0x100 * Load(a, p + 1) + 0x1_0000 * Load(a, p + 2) + 0x100_0000 * Load(a, p + 3)
  }

  /** A validated range splits into two adjacent validated ranges, and back. */
  lemma RangeValidSplit(a: AddressSpace, p: nat, m: nat, n: nat)
    ensures RangeValid(a, p, m + n) <==> RangeValid(a, p, m) && RangeValid(a, p + m, n)
  {
  }

  /**
   * `validate_buffer`: validates every byte of `[buffer, buffer + len)`, one at a
   * time and in order, not just the two ends.
   */
  method ValidateBuffer(a: AddressSpace, buffer: nat, len: nat) returns (r: Outcome<()>)
    ensures r == (if RangeValid(a, buffer, len) then Ok(()) else Killed(KILL_STATUS))
  {
    var addr := buffer;
    var i := 0;
    while i < len
      invariant 0 <= i <= len && addr == buffer + i
      invariant RangeValid(a, buffer, i)
    {
      var v := ValidateByte(a, addr);
      if v.Killed? {
        assert !ValidByte(a, addr);
        return Killed(KILL_STATUS);
      }
      addr := addr + 1;
      i := i + 1;
    }
    return Ok(());
  }

  /** `validate_args`: the argument array is a buffer of `count` four-byte words. */
  method ValidateArgs(a: AddressSpace, argv: nat, count: nat) returns (r: Outcome<()>)
    ensures r == (if RangeValid(a, argv, 4 * count) then Ok(()) else Killed(KILL_STATUS))
  {
    r := ValidateBuffer(a, argv, count * 4);
  }

  /**
   * A NUL-terminated string starts at `p` and its terminator is at `end`: every
   * byte up to and including the terminator is valid, and none before it is NUL.
   */
  ghost predicate TerminatedAt(a: AddressSpace, p: nat, end: nat)
    requires a.Wf()
  {
    && p <= end
    && (forall x :: p <= x <= end ==> ValidByte(a, x) && (x < end ==> Load(a, x) != 0))
    && Load(a, end) == 0
  }

  /** Walking from `p`, an invalid byte is met before any terminator. */
  ghost predicate FaultsBefore(a: AddressSpace, p: nat)
    requires a.Wf()
  {
    exists k :: p <= k && !ValidByte(a, k) && forall x :: p <= x < k ==> ValidByte(a, x) && Load(a, x) != 0
  }

  /**
   * The walk of `validate_string`: the address of the terminator, or the kill
   * that the first invalid byte causes.
   */
  function ScanString(a: AddressSpace, p: nat): (r: Outcome<nat>)
    requires a.Wf()
    ensures r.Ok? ==> TerminatedAt(a, p, r.value)
    ensures r.Killed? ==> r.status == KILL_STATUS && FaultsBefore(a, p)
    decreases a.userBound - p
  {
    if !ValidByte(a, p) then Killed(KILL_STATUS)
    else if Load(a, p) == 0 then Ok(p)
    else
      var r := ScanString(a, p + 1);
      assert r.Killed? ==> FaultsBefore(a, p) by {
        if r.Killed? {
          var k :| p + 1 <= k && !ValidByte(a, k)
            && forall x :: p + 1 <= x < k ==> ValidByte(a, x) && Load(a, x) != 0;
          assert forall x :: p <= x < k ==> ValidByte(a, x) && Load(a, x) != 0;
        }
      }
      r
  }

  /**
   * `validate_string`: validates each byte before reading it and stops at the
   * first NUL; the result is the terminator's address or the kill.
   */
  method ValidateString(a: AddressSpace, p: nat) returns (r: Outcome<nat>)
    requires a.Wf()
    ensures r == ScanString(a, p)
  {
    var ch := p;
    while true
      invariant p <= ch
      invariant ScanString(a, ch) == ScanString(a, p)
      decreases a.userBound - ch
    {
      var v := ValidateByte(a, ch);
      if v.Killed? {
        return Killed(KILL_STATUS);
      }
      if Load(a, ch) == 0 {
        break;
      }
      ch := ch + 1;
    }
    return Ok(ch);
  }

  /** A terminated string is always found: `ScanString` succeeds exactly on such strings. */
  lemma {:induction false} ScanStringComplete(a: AddressSpace, p: nat, end: nat)
    requires a.Wf() && TerminatedAt(a, p, end)
    ensures ScanString(a, p) == Ok(end)
    decreases end - p
  {
    assert ValidByte(a, p);
    if p < end {
      ScanStringComplete(a, p + 1, end);
    }
  }

  /** Two address spaces agree on validity and contents of every byte of `[lo, hi]`. */
  ghost predicate AgreeOn(a: AddressSpace, b: AddressSpace, lo: nat, hi: nat)
    requires a.Wf() && b.Wf()
  {
    forall x :: lo <= x <= hi ==>
      ValidByte(a, x) == ValidByte(b, x) && (ValidByte(a, x) ==> Load(a, x) == Load(b, x))
  }

  /**
   * No byte past the terminator is touched: the walk's result depends only on
   * the bytes from `p` up to and including the terminator.
   */
  lemma {:induction false} ScanStringLocal(a: AddressSpace, b: AddressSpace, p: nat)
    requires a.Wf() && b.Wf()
    requires ScanString(a, p).Ok? && AgreeOn(a, b, p, ScanString(a, p).value)
    ensures ScanString(b, p) == ScanString(a, p)
    decreases a.userBound - p
  {
    var end := ScanString(a, p).value;
    assert ValidByte(a, p) && ValidByte(b, p);
    if Load(a, p) != 0 {
      assert ScanString(a, p) == ScanString(a, p + 1);
      ScanStringLocal(a, b, p + 1);
    }
  }
}
