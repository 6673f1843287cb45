/**
 * The per-process state of Pintos user programs: the process control block
 * (`struct process`), the record a parent keeps per child (`ChildNode`) and
 * the record of a process being loaded (`LoadNode`). The semaphores these
 * records carry belong to the load/wait handshake, whose code is not part of
 * this model, and are left out.
 */
module Process {
  import opened Machine
  import opened Wrappers
  import opened UserMemory

  /** At most 8MB of stack: `1 << 11` pages. Kept for reference; no operation of this model uses it. */
  const MAX_STACK_PAGES: nat := 2048
  /** Kept for reference; no operation of this model uses it. */
  const MAX_THREADS: nat := 127
  /** 128 descriptors for files plus the three standard streams. */
  const MAX_FD: nat := 128 + 3
  /** Size of the `process_name` buffer, terminator included. */
  const NAME_BUFFER_SIZE: nat := 16

  /** `tid_t`; `pid_t` is the same type, and a pid is the tid of the process's main thread. */
  type Tid = Int32
  type Pid = Tid

  /** An open file (`struct file*`): the file system is not part of this model. */
  type FileRef = nat

  /** A kernel thread, identified by its tid, pointing at the process it belongs to. */
  class Thread {
    const tid: Tid
    var pcb: Pcb?

    constructor (tid: Tid, pcb: Pcb?)
      ensures this.tid == tid && this.pcb == pcb
    {
      this.tid := tid;
      this.pcb := pcb;
    }
  }

  /** A parent's record of one child: its pid and, once it has exited, its status. */
  class ChildNode {
    const pid: Pid
    var exitStatus: Int32

    constructor (pid: Pid, exitStatus: Int32)
      ensures this.pid == pid && this.exitStatus == exitStatus
    {
      this.pid := pid;
      this.exitStatus := exitStatus;
    }
  }

  /** The record of a process being loaded: its pid, whether loading worked, and its PCB. */
  class LoadNode {
    const pid: Pid
    var loaded: bool
    var pcb: Pcb?

    constructor (pid: Pid)
      ensures this.pid == pid && !loaded && pcb == null
    {
      this.pid := pid;
      loaded := false;
      pcb := null;
    }
  }

  /** The process control block, `struct process`. */
  class Pcb {
    var pagedir: AddressSpace
    var processName: string
    var mainThread: Thread?
    var execFile: Option<FileRef>
    const fdTable: array<Option<FileRef>>
    var ppcb: Pcb?
    var childList: seq<ChildNode>

    /**
     * The descriptor table has `MAX_FD` slots, the name fits its 16-byte
     * buffer, and the main thread, once set, belongs to this process.
     */
    ghost predicate Valid()
      reads this, mainThread
    {
      && fdTable.Length == MAX_FD && |processName| < NAME_BUFFER_SIZE
      && (mainThread != null ==> mainThread.pcb == this)
    }

    /**
     * A fresh PCB with an empty descriptor table and no children. Pintos fills
     * it in process.c, which is not part of this model: the initial field values
     * are the constructor's arguments.
     */
    constructor (pagedir: AddressSpace, name: string, parent: Pcb?)
      requires |name| < NAME_BUFFER_SIZE
      ensures Valid() && fresh(fdTable)
      ensures this.pagedir == pagedir && processName == name && ppcb == parent
      ensures mainThread == null && execFile == None && childList == []
      ensures forall fd :: 0 <= fd < MAX_FD ==> fdTable[fd] == None
    {
      this.pagedir := pagedir;
      processName := name;
      mainThread := null;
      execFile := None;
      fdTable := new Option<FileRef>[MAX_FD](_ => None);
      ppcb := parent;
      childList := [];
    }

    /**
     * `get_pid`: a process's pid is the tid of its main thread. The parent
     * finds its record of the process by this value; `SyscallExit` states
     * that the record gets the exit status.
     */
    function Pid(): Pid
      reads this, mainThread
      requires mainThread != null
    {
      mainThread.tid
    }
  }

  /** Some node of `list` records the child `pid`. */
  ghost predicate HasChild(list: seq<ChildNode>, pid: Pid)
  {
    exists k :: 0 <= k < |list| && list[k].pid == pid
  }

  /** The node at position `k` is the first node of `list` that records `pid`. */
  ghost predicate FirstAt(list: seq<ChildNode>, k: nat, pid: Pid)
    requires k < |list|
  {
    list[k].pid == pid && forall j :: 0 <= j < k ==> list[j].pid != pid
  }

  /**
   * The node `childList_get(list, pid)` returns: the first node of `list` that
   * records `pid`, or NULL when there is none.
   */
  function FirstChild(list: seq<ChildNode>, pid: Pid): (r: ChildNode?)
    ensures r == null <==> !HasChild(list, pid)
    ensures r != null ==> exists k :: 0 <= k < |list| && list[k] == r && FirstAt(list, k, pid)
  {
    if list == [] then null
    else if list[0].pid == pid then list[0]
    else
      var r := FirstChild(list[1..], pid);
      assert HasChild(list, pid) ==> HasChild(list[1..], pid) by {
        if HasChild(list, pid) {
          var k :| 0 <= k < |list| && list[k].pid == pid;
          assert list[1..][k - 1].pid == pid;
        }
      }
      assert r != null ==> exists k :: 0 <= k < |list| && list[k] == r && FirstAt(list, k, pid) by {
        if r != null {
          var k :| 0 <= k < |list[1..]| && list[1..][k] == r && FirstAt(list[1..], k, pid);
          assert forall j :: 1 <= j < k + 1 ==> list[j] == list[1..][j - 1];
          assert list[k + 1] == r && FirstAt(list, k + 1, pid);
        }
      }
      r
  }

  /**
   * `childList_get`: looks the child `pid` up in `list`. Its body is in
   * process.c, which is not part of this model; this scan meets the contract
   * its callers rely on.
   */
  method ChildListGet(list: seq<ChildNode>, pid: Pid) returns (r: ChildNode?)
    ensures r == FirstChild(list, pid)
  {
    var k := 0;
    while k < |list|
      invariant 0 <= k <= |list|
      invariant FirstChild(list[k..], pid) == FirstChild(list, pid)
    {
      if list[k].pid == pid {
        return list[k];
      }
      assert list[k..][1..] == list[k + 1..];
      k := k + 1;
    }
    return null;
  }
}
