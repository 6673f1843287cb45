# Pintos user-program system calls, the hw-list word counter and the hw-shell planner, in Dafny

This project models four parts of a CS162 (Pintos) repository and proves properties about them.

- **The system-call dispatcher and user-pointer validators** (`syscall.c`). A process's address space is a
  user bound (standing in for `is_user_vaddr`), a set of mapped addresses (standing in for `pagedir_get_page`)
  and a byte memory (`user_memory.dfy`).
  - `validate_byte`, `validate_buffer`, `validate_args` and `validate_string` return `Ok` or `Killed(-1)`.
  - Reading a byte (`Load`) requires that byte to be valid, so the verifier itself checks that no byte is
    read before it has been validated.
  - `syscall_handler` is specified by `Dispatch` and implemented by the methods `Route` and
    `SyscallHandler`, which update the interrupt frame's `eax` and the parent's child node.
  - `process_execute` and `process_wait` are parameters of the dispatcher.
- **The process control block** (`process.h`): the `Pcb`, `ChildNode` and `LoadNode` classes and the
  child-list lookup `childList_get` (`process.dfy`).
- **The word-count association list** (`word_count_p.c`). It is a class over a sequence of
  `(word, count)` entries, with `len_words`, `find_word`, `add_word` and `wordcount_sort` proved against
  specification functions. The unique-word invariant is preserved (`word_count.dfy`).
- **The planning half of the shell** (`shell.c`), in `shell.dfy`:
  - the built-in `lookup`;
  - cutting the token list into pipeline stages at `|` and joining each stage into its 256-byte command buffer;
  - turning a stage back into argv and a `<`/`>` redirection;
  - the pipe wiring of each stage, and the pipe ends the shell closes;
  - the PATH search.

The shell's and the word counter's strings are Dafny `string`s whose characters each stand for one C byte
(`char`), so the length of a string is its `strlen`, and the 256-byte and 4096-byte buffer limits count
characters.

32-bit words, the `(int)` cast and storing an `int` into `eax` are explicit in `machine.dfy`. The syscall
numbers are those of Pintos's `lib/syscall-nr.h`: halt 0, exit 1, exec 2, wait 3, write 9, practice 13.

## Model

| member | source | states |
|---|---|---|
| Machine.ToInt32 | group/src/userprog/syscall.c:68 | the `(int)` cast of an argument word: the signed value congruent to the word modulo 2^32, negative exactly when the top bit is set |
| Machine.FromInt32 | group/src/userprog/syscall.c:79 | storing an `int` into the 32-bit `eax`: casting the stored word back gives the same `int` |
| Machine.WordRoundTrip | group/src/userprog/syscall.c:68 | a word cast to `int` and stored back is the same word |
| UserMemory.ValidateByte | group/src/userprog/syscall.c:18-25 | kills with -1 exactly when the address is NULL, not a user address, or unmapped; otherwise has no effect |
| UserMemory.ValidateBuffer | group/src/userprog/syscall.c:37-42 | validates every byte of `[buffer, buffer+len)` one at a time, and succeeds exactly when all are valid; `len == 0` validates nothing |
| UserMemory.ValidateArgs | group/src/userprog/syscall.c:43-46 | validates exactly the `4*count` bytes from `argv` |
| UserMemory.ScanString | group/src/userprog/syscall.c:26-36 | on success every byte from the start up to and including the first NUL is valid, and the result is that NUL's address; on failure the status is -1 and some byte before any NUL is invalid |
| UserMemory.ValidateString | group/src/userprog/syscall.c:26-36 | the pointer-stepping loop validates each byte before reading it, and its outcome is the scan's |
| UserMemory.ScanStringComplete | group/src/userprog/syscall.c:26-36 | a string whose bytes are valid up to its terminator is accepted, ending exactly at that terminator |
| UserMemory.ScanStringLocal | group/src/userprog/syscall.c:26-36 | the scan's outcome depends only on the bytes up to the terminator: no byte past it is touched |
| Process.Pcb.constructor | group/src/userprog/process.h:46-55 | a PCB has a `fd_table` of exactly `MAX_FD` = 131 slots, all empty, a name of at most 15 characters, no children, and the given parent |
| Process.ChildNode.constructor | group/src/userprog/process.h:32-39 | a child node records one child's pid and exit status |
| Process.LoadNode.constructor | group/src/userprog/process.h:21-30 | a load node records the loading pid, with `loaded` false and no PCB yet |
| Process.FirstChild | group/src/userprog/process.h:58 | NULL exactly when no node of the list has the pid, otherwise the first node that has it |
| Process.ChildListGet | group/src/userprog/process.h:58 | the lookup returns the first node with the pid, or NULL |
| Syscall.Dispatch | group/src/userprog/syscall.c:50-95 | the handler as written: the only status it kills with is -1 |
| Syscall.DispatchKillsIff | group/src/userprog/syscall.c:62-91 | a trap kills with -1 exactly when the number word, the argument words of the call's arity (exit 1, write 3, practice 1, exec 1, wait 1, halt 0) or exec's whole command string is not valid user memory |
| Syscall.DispatchIgnoresUnknown | group/src/userprog/syscall.c:92-93 | an unknown syscall number leaves `eax` unchanged and does nothing else |
| Syscall.Arity | group/src/userprog/syscall.c:62-91 | the argument words each call validates: three for write, one each for exit, practice, exec and wait, and none for halt or an unknown number |
| Syscall.DispatchExit | group/src/userprog/syscall.c:66-70 | exit stores its status word in `eax`, then exits with that status |
| Syscall.DispatchPractice | group/src/userprog/syscall.c:77-80 | practice stores its argument plus one in `eax` and resumes |
| Syscall.SyscallPractice | group/src/userprog/syscall.c:116-119 | `practice(i)` exceeds `i`, and the word it leaves in `eax` is the argument word plus one modulo 2^32 |
| Syscall.DispatchWrite | group/src/userprog/syscall.c:72-75 | write validates three argument words, never changes `eax`, and writes `size` bytes from `buffer` to the console exactly when `fd` is 1 |
| Syscall.DispatchExec | group/src/userprog/syscall.c:84-88 | exec validates its command line up to its terminator before passing those bytes to `process_execute`, and stores the pid in `eax` |
| Syscall.DispatchWait | group/src/userprog/syscall.c:89-93 | wait stores `process_wait(pid)` in `eax`; falling into `default` changes nothing more |
| Syscall.WriteBufferUnchecked | group/src/userprog/syscall.c:72-75 | as written, `write(1, NULL, 1)` reaches `putbuf` with an invalid buffer instead of killing the caller |
| Syscall.DispatchChecked | group/src/userprog/syscall.c:72-75 | with the buffer validated, every console write's buffer is valid user memory |
| Syscall.DispatchCheckedSafe | group/src/userprog/syscall.c:72-75 | the corrected handler differs from the written one exactly on console writes with an invalid buffer, and every byte it hands to the console can be read |
| Syscall.IntToStringRoundTrip | group/src/userprog/syscall.c:102 | the status printed by `%d` in the exit line reads back as that status, with a minus sign exactly when it is negative and no leading zeros |
| Syscall.ExitLine | group/src/userprog/syscall.c:102 | the exit line is the process name, then `: exit(`, then decimal text without leading zeros (a minus sign only before a non-zero digit) that reads back as the status, then `)` and a newline |
| Syscall.CanonicalUnique | group/src/userprog/syscall.c:102 | decimal text as `%d` writes it, without leading zeros, is the only such text of the number it reads as |
| Syscall.ExitLineDetermined | group/src/userprog/syscall.c:102 | the exit line's contract fixes the line: any name, `: exit(`, zero-free decimal text of the status and `)\n` is exactly the exit line |
| Syscall.SyscallExit | group/src/userprog/syscall.c:97-104 | writes the status into the parent's node for this tid only when the parent is alive, changes no other node, and prints `"<name>: exit(<status>)\n"`; since a pid is its main thread's tid (`process.h` lines 13-15), when the main thread exits the parent's record found by the process's pid gets the status |
| Syscall.Route | group/src/userprog/syscall.c:50-95 | the handler's validations, reads and `eax` updates, in the code's order, have exactly the outcome `Dispatch` specifies |
| Syscall.RouteChecked | group/src/userprog/syscall.c:72-75 | the handler with write's buffer validated has exactly the outcome `DispatchChecked` specifies |
| Syscall.SyscallHandler | group/src/userprog/syscall.c:50-95 | routes the trap; when it exits or is killed, posts the status to the parent's node for this thread's tid (for the main thread, the node of the process's pid) and prints the exit line; otherwise no child node changes |
| Syscall.ExitOnStatus | group/src/userprog/syscall.c:18-70 | `syscall_exit` runs exactly when validation fails (status -1, line 23) or `exit` is called (line 69): the parent's node for this tid (for the main thread, the node of the process's pid) gets the status and the exit line is printed; with no status nothing changes |
| WordCount.IndexOf | personal/hw-list/word_count_p.c:51-66 | the position of the first entry whose word equals the key, or none exactly when no entry has that word |
| WordCount.Added | personal/hw-list/word_count_p.c:68-88 | after adding, the word has an entry, and the list grows by one entry exactly when the word was absent |
| WordCount.AddedCounts | personal/hw-list/word_count_p.c:68-88 | adding a word counts it once more and leaves every other word's count alone |
| WordCount.AddedKeepsDistinct | personal/hw-list/word_count_p.c:68-88 | adding keeps words pairwise distinct; an existing word keeps the length and every other entry, and a new word is pushed at the front with count 1 |
| WordCount.IndexOfUnchangedWords | personal/hw-list/word_count_p.c:70-74 | changing counts only does not move any word's entry |
| WordCount.InsertSpec | personal/hw-list/word_count_p.c:110-115 | adds exactly one entry, and inserting into a list ordered by an asymmetric `less` keeps it ordered |
| WordCount.InsertKeepsDistinct | personal/hw-list/word_count_p.c:110-115 | inserting a new word into a list of distinct words keeps them distinct |
| WordCount.Sort | personal/hw-list/word_count_p.c:110-115 | the sorted list holds exactly the entries it held before, each as many times |
| WordCount.SortSpec | personal/hw-list/word_count_p.c:110-115 | sorting yields a permutation, ordered by `less` when `less` is asymmetric, and keeps words distinct |
| WordCount.WordCountList.constructor | personal/hw-list/word_count_p.c:33-39 | `init_words` gives an empty list |
| WordCount.WordCountList.LenWords | personal/hw-list/word_count_p.c:41-49 | the walk counts exactly the entries and changes nothing |
| WordCount.WordCountList.FindWord | personal/hw-list/word_count_p.c:51-66 | the walk returns the first entry for the word, or NULL, and changes nothing |
| WordCount.WordCountList.AddWord | personal/hw-list/word_count_p.c:68-88 | increments the word's entry, or pushes a new entry with count 1 at the front, and returns that entry; returns NULL with the list unchanged exactly when the word is new and allocation fails; words stay distinct |
| WordCount.WordCountList.WordCountSort | personal/hw-list/word_count_p.c:110-115 | the list becomes a permutation of its former entries, ordered by `less`, with words still distinct |
| Shell.LookupFrom | personal/hw-shell/shell.c:266-271 | the scan from a table index finds the first later entry with the name, or -1 |
| Shell.Lookup | personal/hw-shell/shell.c:266-271 | the index of the first of `?`, `exit`, `pwd`, `cd` equal to the command, or -1 exactly when the command is NULL or names none |
| Shell.JoinSnoc | personal/hw-shell/shell.c:181-189 | appending a space and a token to a stage's command string gives the join of the stage with that token |
| Shell.Tokenize | personal/hw-shell/shell.c:95-98 | the tokens `strtok_r` yields, as used here and for PATH at line 134, are never empty and never hold the separator |
| Shell.TokenizeWord | personal/hw-shell/shell.c:95-98 | a non-empty run without the separator is exactly one token |
| Shell.TokenizeSep | personal/hw-shell/shell.c:134 | a separator splits the string into two parts tokenized independently, so an empty, leading or trailing PATH entry yields no token; with `TokenizeWord` this fixes the tokens of every string as its maximal separator-free runs, in order |
| Shell.TokenizeJoin | personal/hw-shell/shell.c:95-98 | cutting a space-joined string at its spaces gives back the words, when no word is empty or holds a space |
| Shell.StagesCount | personal/hw-shell/shell.c:157-193 | there is one stage more than there are bar (pipe-symbol) tokens |
| Shell.UnsplitStages | personal/hw-shell/shell.c:157-193 | the stages put back together with a bar token between them are the token list |
| Shell.Step | personal/hw-shell/shell.c:159-190 | one token of the splitting loop never leaves `prog_arr` without a current stage, and its only failure is "too long !" |
| Shell.Progs | personal/hw-shell/shell.c:157-193 | the splitting loop leaves at least one stage, and its only failure is "too long !" |
| Shell.ProgsAreJoinedStages | personal/hw-shell/shell.c:174-190 | when the session is not aborted, each stage's command string is NULL for an empty stage, otherwise its tokens joined by single spaces |
| Shell.ProgsAbortSticks | personal/hw-shell/shell.c:182-186 | once "too long !" is reported the session is abandoned whatever tokens follow |
| Shell.AsWrittenOverflows | personal/hw-shell/shell.c:182-189 | as written, the tokens `a` and 254 `b`s pass the length test and build a 256-character stage, whose terminator falls outside the 256-byte buffer |
| Shell.CheckedSessionFits | personal/hw-shell/shell.c:182 | with room for the space and the terminator in the test, the session is aborted exactly when some stage's command string would not fit in 255 characters |
| Shell.SplitSession | personal/hw-shell/shell.c:157-193 | the loop over tokens fills `prog_arr` as `Progs` specifies, or returns the "too long !" abort |
| Shell.PlanSession | personal/hw-shell/shell.c:157-193 | with the corrected test, splitting succeeds exactly when every stage fits its buffer, and then yields one command string per stage (the number of bar tokens plus one), each its tokens joined by spaces |
| Shell.ArgsAndRedirect | personal/hw-shell/shell.c:102-119 | argv followed by the redirection tokens is exactly the stage's token list, and argv starts with the program path |
| Shell.RedirectOf | personal/hw-shell/shell.c:103-114 | input comes from the last token exactly when there are at least three tokens and the second-to-last is `<`, output goes to it when that token is `>`, and there is no redirection otherwise |
| Shell.ArgsOf | personal/hw-shell/shell.c:102-119 | argv is a prefix of the tokens: all of them when there is no redirection, otherwise all but the last two, leaving at least the path |
| Shell.BuildArgv | personal/hw-shell/shell.c:99-120 | argv is `tokens[0 .. n-2)` when the second-to-last of at least three tokens is `<` (tested first) or `>`, otherwise all the tokens; the last token then names the input or output file; `argv[0]` is the path, and argv is NULL right after its last argument |
| Shell.StageRoundTrip | personal/hw-shell/shell.c:95-98 | when no token is empty or holds a space, `run_program` cutting a stage's command string at spaces gets back exactly the stage's tokens |
| Shell.StageWiring | personal/hw-shell/shell.c:221-231 | with two or more stages, stage `i` reads pipe `i-1` exactly when it is not the first and writes pipe `i` exactly when it is not the last; a single stage is not rewired |
| Shell.PipelineChain | personal/hw-shell/shell.c:221-231 | with two or more stages, pipe `j` is written by stage `j` alone and read by stage `j+1` alone; the first stage's input and the last stage's output are left alone, and a single stage makes no `dup2` |
| Shell.ParentCloses | personal/hw-shell/shell.c:240-243 | after forking stage `i`, the shell closes the read end of pipe `i-1` unless `i` is the first stage and the write end of pipe `i` unless it is the last, and only pipes that exist |
| Shell.ParentClosesWhatStageUses | personal/hw-shell/shell.c:240-243 | right after forking a stage, the shell closes exactly the pipe ends that stage was wired to |
| Shell.Candidates | personal/hw-shell/shell.c:134-138 | one candidate per non-empty `:`-separated PATH entry, in PATH order: the entry, then `/` and the path |
| Shell.FirstRunnable | personal/hw-shell/shell.c:134-141 | the first candidate that `access` finds and `execv` starts, with every earlier candidate failing one of the two; or none when all fail |
| Shell.ResolveExec | personal/hw-shell/shell.c:123-144 | a path starting with `/` is executed as given; otherwise the PATH candidates are tried in order and the first that exists and starts runs; when none runs, the child exits with -1 |

## Left out

- `process_exit`, `process_execute`, `process_wait` and the body of `childList_get` are in process.c, which is not part of this model.
  - `process_execute` and `process_wait` are parameters of the dispatcher.
  - `SyscallExit` stops where `process_exit` would be called.
  - `ChildListGet` is a list scan that meets the lookup's contract.
- The semaphores in `ChildNode` and `LoadNode` are left out, as are the load/wait handshake and the file-descriptor system calls. None of them has code in the modelled files.
- Interrupt registration (`syscall_init`), `putbuf`, `shutdown_power_off` and `thread_current` are left out.
  - The console write and power-off are recorded as the trap's `Action`.
  - The current thread is a parameter.
- The page-table walk is left out: mapped pages are a set of addresses and `is_user_vaddr` is a bound.
- `Syscall.Dispatch`: calls to `practice` with `INT_MAX` are excluded by a precondition (`PracticeDefined`), because the signed overflow is undefined in C.
- `Syscall.DispatchWrite`: `syscall_write`'s return value is modelled only by its effect, because the handler discards it. The value is `size` for `fd == 1`, and `syscall_write` returns no value otherwise.
- `Syscall.SyscallHandler`: it requires the parent's child list to hold a node for this thread whenever the parent is alive, because `syscall_exit` dereferences the lookup's result unchecked.
- The pthread mutexes of the word-count list are left out, including the mutex that `add_word` leaves locked when `malloc` fails. `fprint_words` (output) and the `pwords.c` driver (threads and files) are also left out.
- `WordCount.WordCountList.AddWord`: a returned `word_count_t*` is modelled as the entry's position in the list, and the count is unbounded rather than a C `int`.
- `WordCount.WordCountList.WordCountSort`: the result is an insertion sort. It is a permutation ordered by `less`, but entries that `less` ranks equal are not promised the relative order Pintos's `list_sort`, whose code is not part of this model, gives them.
- `Shell.SplitSession`:
  - `prog_arr` starts all NULL, although the source leaves the local array uninitialised.
  - `pipe()` and `malloc` are taken to succeed.
  - The array bounds (`prog_arr[512]`, terminated tokens of under 256 characters) are preconditions.
  - Tokens come from the shell's tokenizer, which is not part of this model, as a sequence of strings.
- `Shell.StageRoundTrip`: the end-to-end link from the session's tokens to `run_program`'s argv holds only for tokens that are non-empty and hold no space. The shell's tokenizer is not part of this model, so nothing here shows that it yields only such tokens. A token holding a space would be cut in two, and an empty token would vanish.
- `Shell.BuildArgv`: `tokens[34]` and `argv[32]` are preconditions, and `freopen` of the redirection file is left out.
- `Shell.ResolveExec`:
  - `access` and `execv` are predicates passed in.
  - `getenv("PATH")` is taken to be set.
  - Each candidate is required to fit `rpath[4096]`.
- `fork`, `setpgrp`, `tcsetpgrp`, signal resets, `wait` and `close` of the child's copies of the pipes are left out. So are the built-ins' bodies (`cmd_pwd`, `cmd_cd`), `init_shell` and the read loop in `main`.

## Findings

| source | as written | input that shows it | evidently intended | confidence | as-written member | corrected member |
|---|---|---|---|---|---|---|
| group/src/userprog/syscall.c:72-75 | `write` validates its three argument words but never the buffer it passes to `putbuf` | a trap at `esp` 4 whose stack words are 9, 1, 0, 1, that is `write(1, NULL, 1)` | validate `size` bytes at `buffer` before writing them, killing the caller with -1 otherwise | not executed | Syscall.WriteBufferUnchecked | Syscall.DispatchCheckedSafe |
| personal/hw-shell/shell.c:182 | `strlen(prog) + strlen(token) >= 256` leaves no room for the added space and the terminator | tokens `a` then 254 `b`s: the test passes at 255, and the stage becomes 256 characters with its NUL at index 256 of a 256-byte buffer | abort when `strlen(prog) + 1 + strlen(token) >= 256` | not executed | Shell.AsWrittenOverflows | Shell.CheckedSessionFits |
