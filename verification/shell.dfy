/**
 * The command-line planning of the hw-shell: which built-in a command names,
 * how a token list is cut into pipeline stages at "|" and each stage joined
 * into one command string, how a stage's command string becomes an argv and a
 * redirection, which pipe ends each stage is wired to, and which paths are
 * tried for a program found through PATH. The fork/exec/dup2 plumbing,
 * signals and terminal control are left out.
 */
module Shell {
  import opened Wrappers

  /** The names in `cmd_table`, in table order. */
  const CMD_TABLE: seq<string> := ["?", "exit", "pwd", "cd"]

  /** Size of each stage's `malloc`ed command buffer, terminator included. */
  const PROG_SIZE: nat := 256
  /** Entries of `prog_arr` and `pipe_arr`. */
  const MAX_PROGS: nat := 512
  /** Entries of `tokens` and `argv` in `run_program`. */
  const MAX_TOKENS: nat := 34
  const MAX_ARGV: nat := 32
  /** Size of `rpath`, the buffer a PATH candidate is built in. */
  const RPATH_SIZE: nat := 4096

  const PIPE: string := "|"

  // ---------------------------------------------------------------- lookup

  /** The scan of `lookup` from table index `i` on. */
  function LookupFrom(cmd: Option<string>, i: nat): (r: int)
    requires i <= |CMD_TABLE|
    ensures r == -1 || i <= r < |CMD_TABLE|
    ensures r == -1 <==> cmd.None? || forall k :: i <= k < |CMD_TABLE| ==> CMD_TABLE[k] != cmd.value
    ensures r >= 0 ==> cmd == Some(CMD_TABLE[r]) && forall k :: i <= k < r ==> CMD_TABLE[k] != cmd.value
    decreases |CMD_TABLE| - i
  {
    if i == |CMD_TABLE| then -1
    else if cmd.Some? && CMD_TABLE[i] == cmd.value then i
    else LookupFrom(cmd, i + 1)
  }

  /**
   * `lookup`: the index of the first built-in named `cmd`, or -1 when `cmd`
   * is NULL or names no built-in.
   */
  function Lookup(cmd: Option<string>): (r: int)
    ensures -1 <= r < |CMD_TABLE|
    ensures r == -1 <==> cmd.None? || cmd.value !in CMD_TABLE
    ensures r >= 0 ==> cmd == Some(CMD_TABLE[r]) && forall k :: 0 <= k < r ==> CMD_TABLE[k] != cmd.value
  {
    LookupFrom(cmd, 0)
  }

  // ------------------------------------------------------ joining and strtok

  /** Words joined by single separators: what the `strcat` loop builds. */
  function Join(ws: seq<string>, sep: char): string
  {
    if ws == [] then [] else if |ws| == 1 then ws[0] else ws[0] + [sep] + Join(ws[1..], sep)
  }

  /** Appending a word to a non-empty join adds one separator and the word. */
  lemma {:induction false} JoinSnoc(ws: seq<string>, x: string, sep: char)
    requires ws != []
    ensures Join(ws + [x], sep) == Join(ws, sep) + [sep] + x
    decreases |ws|
  {
    if |ws| > 1 {
      assert (ws + [x])[1..] == ws[1..] + [x];
      JoinSnoc(ws[1..], x, sep);
    } else {
      assert (ws + [x])[1..] == [x];
    }
  }

  /** The longest prefix of `s` without `sep`. */
  function WordAt(s: string, sep: char): (w: string)
    ensures |w| <= |s| && w == s[..|w|] && sep !in w
    ensures s != [] && s[0] != sep ==> |w| > 0
    ensures |w| < |s| ==> s[|w|] == sep
  {
    if s == [] || s[0] == sep then [] else [s[0]] + WordAt(s[1..], sep)
  }

  /**
   * The tokens `strtok_r(s, sep)` returns in turn: the maximal runs without
   * `sep`, skipping runs of separators.
   */
  function Tokenize(s: string, sep: char): (ts: seq<string>)
    ensures PlainWords(ts, sep)
    decreases |s|
  {
    if s == [] then []
    else if s[0] == sep then Tokenize(s[1..], sep)
    else
      var w := WordAt(s, sep);
      [w] + Tokenize(s[|w|..], sep)
  }

  lemma {:induction false} WordAtPrefix(w: string, rest: string, sep: char)
    requires sep !in w && (rest == [] || rest[0] == sep)
    ensures WordAt(w + rest, sep) == w
    decreases |w|
  {
    if w != [] {
      assert (w + rest)[1..] == w[1..] + rest;
      WordAtPrefix(w[1..], rest, sep);
    }
  }

  /** A single run without the separator is one token. */
  lemma TokenizeWord(w: string, sep: char)
    requires w != [] && sep !in w
    ensures Tokenize(w, sep) == [w]
  {
    WordAtPrefix(w, [], sep);
    assert w + [] == w;
  }

  /**
   * A separator cuts the string into two parts tokenized independently, so
   * empty entries (leading, trailing or doubled separators) give no token.
   * With `TokenizeWord` this fixes the tokens of every string.
   */
  lemma {:induction false} TokenizeSep(x: string, y: string, sep: char)
    ensures Tokenize(x + [sep] + y, sep) == Tokenize(x, sep) + Tokenize(y, sep)
    decreases |x|
  {
    var s := x + [sep] + y;
    if x == [] {
      assert s[1..] == y;
    } else if x[0] == sep {
      assert s[1..] == x[1..] + [sep] + y;
      TokenizeSep(x[1..], y, sep);
    } else {
      var w := WordAt(x, sep);
      TokenizeSep(x[|w|..], y, sep);
      TokenizeSepWord(x, y, sep);
    }
  }

  /** The step of `TokenizeSep` when `x` starts with a word. */
  lemma TokenizeSepWord(x: string, y: string, sep: char)
    requires x != [] && x[0] != sep
    requires var xr := x[|WordAt(x, sep)|..];
      Tokenize(xr + [sep] + y, sep) == Tokenize(xr, sep) + Tokenize(y, sep)
    ensures Tokenize(x + [sep] + y, sep) == Tokenize(x, sep) + Tokenize(y, sep)
  {
    var w := WordAt(x, sep);
    var xr := x[|w|..];
    var sr := xr + [sep] + y;
    WordAtRest(x, sep);
    assert x + [sep] + y == w + sr;
    TokenizeAtWord(x, w, xr, sep);
    TokenizeAtWord(x + [sep] + y, w, sr, sep);
    ConcatAssoc([w], Tokenize(xr, sep), Tokenize(y, sep));
  }

  lemma ConcatAssoc<T>(a: seq<T>, b: seq<T>, c: seq<T>)
    ensures a + (b + c) == (a + b) + c
  {
  }

  /** A non-empty string not starting with the separator is its first word and the rest. */
  lemma WordAtRest(x: string, sep: char)
    requires x != [] && x[0] != sep
    ensures var w := WordAt(x, sep); var xr := x[|w|..];
      && w != [] && sep !in w && x == w + xr && (xr == [] || xr[0] == sep)
  {
    var w := WordAt(x, sep);
    var n := |w|;
    assert w == x[..n];
    assert x == x[..n] + x[n..];
    if n < |x| {
      assert x[n..][0] == x[n];
    }
  }

  /** A string that starts with a whole word has that word as its first token. */
  lemma TokenizeAtWord(s: string, w: string, rest: string, sep: char)
    requires w != [] && sep !in w && (rest == [] || rest[0] == sep) && s == w + rest
    ensures Tokenize(s, sep) == [w] + Tokenize(rest, sep)
  {
    WordAtPrefix(w, rest, sep);
    assert s[0] == w[0];
    assert s[|w|..] == rest;
  }

  /** Words that are non-empty and free of the separator. */
  ghost predicate PlainWords(ws: seq<string>, sep: char)
  {
    forall k :: 0 <= k < |ws| ==> |ws[k]| > 0 && sep !in ws[k]
  }

  /**
   * Cutting a join at its separators gives the words back, when no word is
   * empty or holds the separator.
   */
  lemma {:induction false} TokenizeJoin(ws: seq<string>, sep: char)
    requires PlainWords(ws, sep)
    ensures Tokenize(Join(ws, sep), sep) == ws
    decreases |ws|
  {
    if ws != [] {
      var w := ws[0];
      TokenizeWord(w, sep);
      if |ws| > 1 {
        TokenizeJoin(ws[1..], sep);
        TokenizeSep(w, Join(ws[1..], sep), sep);
        assert ws == [w] + ws[1..];
      }
    }
  }

  // ------------------------------------------------------- pipeline stages

  /** The tokens between the "|" tokens: the stages of a pipeline. */
  function Stages(tokens: seq<string>): (r: seq<seq<string>>)
    ensures |r| >= 1
    decreases |tokens|
  {
    if tokens == [] then [[]]
    else
      var prev := Stages(tokens[..|tokens| - 1]);
      var x := tokens[|tokens| - 1];
      if x == PIPE then prev + [[]]
      else prev[..|prev| - 1] + [prev[|prev| - 1] + [x]]
  }

  /** The number of "|" tokens. */
  function BarCount(tokens: seq<string>): nat
  {
    multiset(tokens)[PIPE]
  }

  /** The stages put back together with "|" between them. */
  function Unsplit(stages: seq<seq<string>>): seq<string>
    requires |stages| >= 1
  {
    if |stages| == 1 then stages[0]
    else Unsplit(stages[..|stages| - 1]) + [PIPE] + stages[|stages| - 1]
  }

  /** There is one stage more than there are "|" tokens. */
  lemma {:induction false} StagesCount(tokens: seq<string>)
    ensures |Stages(tokens)| == BarCount(tokens) + 1
    decreases |tokens|
  {
    if tokens != [] {
      var init := tokens[..|tokens| - 1];
      StagesCount(init);
      assert tokens == init + [tokens[|tokens| - 1]];
      assert multiset(tokens) == multiset(init) + multiset{tokens[|tokens| - 1]};
    }
  }

  /** Putting the stages back together with "|" between them gives the tokens back. */
  lemma {:induction false} UnsplitStages(tokens: seq<string>)
    ensures Unsplit(Stages(tokens)) == tokens
    decreases |tokens|
  {
    if tokens != [] {
      var init := tokens[..|tokens| - 1];
      var x := tokens[|tokens| - 1];
      var prev := Stages(init);
      UnsplitStages(init);
      assert tokens == init + [x];
      var k := |prev| - 1;
      var cur := Stages(tokens);
      if x == PIPE {
        assert cur == prev + [[]];
        assert cur[..|prev|] == prev;
      } else {
        assert cur == prev[..k] + [prev[k] + [x]];
        UnsplitGrow(prev, x);
      }
    }
  }

  /** Growing the last stage by a token appends the token to the unsplit tokens. */
  lemma UnsplitGrow(stages: seq<seq<string>>, x: string)
    requires |stages| >= 1
    ensures var k := |stages| - 1;
      Unsplit(stages[..k] + [stages[k] + [x]]) == Unsplit(stages) + [x]
  {
    var k := |stages| - 1;
    var cur := stages[..k] + [stages[k] + [x]];
    if k > 0 {
      UnsplitSnoc(stages, stages[k] + [x]);
      var head := Unsplit(stages[..k]) + [PIPE];
      assert Unsplit(stages) == head + stages[k];
      assert head + (stages[k] + [x]) == (head + stages[k]) + [x];
    } else {
      assert cur == [stages[0] + [x]];
    }
  }

  /** Replacing the last stage by `last` replaces the tail of the unsplit tokens. */
  lemma UnsplitSnoc(stages: seq<seq<string>>, last: seq<string>)
    requires |stages| >= 2
    ensures Unsplit(stages[..|stages| - 1] + [last]) == Unsplit(stages[..|stages| - 1]) + [PIPE] + last
  {
    var ss := stages[..|stages| - 1] + [last];
    assert ss[..|ss| - 1] == stages[..|stages| - 1];
  }

  /** The session aborts with "too long !". */
  datatype SessionError = TooLong

  /** The test at shell.c:182 as written: it leaves no room for the space and the terminator. */
  predicate TooLongAsWritten(prog: string, token: string)
  {
    |prog| + |token| >= PROG_SIZE
  }

  /** The test as evidently intended: `prog`, a space, `token` and a NUL must fit the buffer. */
  predicate TooLongChecked(prog: string, token: string)
  {
    |prog| + 1 + |token| >= PROG_SIZE
  }

  /**
   * One token of the loop in `start_session`: "|" opens the next stage; any
   * other token starts the current stage's command or is appended to it after
   * a space, unless `tooLong` aborts the session. `None` is a NULL `prog_arr` slot.
   */
  function Step(progs: seq<Option<string>>, token: string, tooLong: (string, string) -> bool)
    : (r: Result<seq<Option<string>>, SessionError>)
    requires |progs| >= 1
    ensures r.Success? ==> |r.value| >= 1
    ensures r.Failure? ==> r == Failure(TooLong)
  {
    if token == PIPE then Success(progs + [None])
    else
      var last := |progs| - 1;
      match progs[last]
      case None => Success(progs[last := Some(token)])
      case Some(prog) =>
        if tooLong(prog, token) then Failure(TooLong)
        else Success(progs[last := Some(prog + " " + token)])
  }

  /** `prog_arr` after the loop of `start_session` over `tokens`, or the abort. */
  function Progs(tokens: seq<string>, tooLong: (string, string) -> bool)
    : (r: Result<seq<Option<string>>, SessionError>)
    ensures r.Success? ==> |r.value| >= 1
    ensures r.Failure? ==> r == Failure(TooLong)
    decreases |tokens|
  {
    if tokens == [] then Success([None])
    else
      match Progs(tokens[..|tokens| - 1], tooLong)
      case Failure(e) => Failure(e)
      case Success(progs) => Step(progs, tokens[|tokens| - 1], tooLong)
  }

  /** A stage's command string: NULL for an empty stage, else its tokens joined by spaces. */
  function StageProg(stage: seq<string>): Option<string>
  {
    if stage == [] then None else Some(Join(stage, ' '))
  }

  /**
   * Whatever the length test, a session that is not aborted yields one command
   * string per stage: its tokens joined by single spaces.
   */
  lemma {:induction false} ProgsAreJoinedStages(tokens: seq<string>, tooLong: (string, string) -> bool)
    requires Progs(tokens, tooLong).Success?
    ensures var progs := Progs(tokens, tooLong).value;
      |progs| == |Stages(tokens)| && forall i :: 0 <= i < |progs| ==> progs[i] == StageProg(Stages(tokens)[i])
    decreases |tokens|
  {
    if tokens != [] {
      var init := tokens[..|tokens| - 1];
      var x := tokens[|tokens| - 1];
      ProgsAreJoinedStages(init, tooLong);
      var prev := Progs(init, tooLong).value;
      var stages := Stages(init);
      var k := |prev| - 1;
      var progs := Progs(tokens, tooLong).value;
      var cur := Stages(tokens);
      if x == PIPE {
        assert progs == prev + [None];
        assert cur == stages + [[]];
      } else {
        assert cur == stages[..k] + [stages[k] + [x]];
        var grown := StageProg(stages[k] + [x]);
        if stages[k] != [] {
          JoinSnoc(stages[k], x, ' ');
          assert grown == Some(Join(stages[k], ' ') + " " + x);
        } else {
          assert grown == Some(x);
        }
        assert progs == prev[k := grown];
        assert forall i :: 0 <= i < k ==> cur[i] == stages[i];
      }
    }
  }

  /** Every token fits a command buffer with its terminator. */
  ghost predicate TokensFit(tokens: seq<string>)
  {
    forall k :: 0 <= k < |tokens| ==> |tokens[k]| < PROG_SIZE
  }

  /** Every stage's command string fits its 256-byte buffer with its terminator. */
  ghost predicate StagesFit(stages: seq<seq<string>>)
  {
    forall i :: 0 <= i < |stages| ==> |Join(stages[i], ' ')| < PROG_SIZE
  }

  /**
   * With the corrected test, a session is aborted exactly when some stage's
   * command string would not fit its buffer, so no buffer ever overflows.
   */
  lemma {:induction false} CheckedSessionFits(tokens: seq<string>)
    requires TokensFit(tokens)
    ensures Progs(tokens, TooLongChecked).Success? <==> StagesFit(Stages(tokens))
    decreases |tokens|
  {
    if tokens != [] {
      var init := tokens[..|tokens| - 1];
      var x := tokens[|tokens| - 1];
      assert TokensFit(init) by {
        forall k | 0 <= k < |init| ensures |init[k]| < PROG_SIZE {
          assert init[k] == tokens[k];
        }
      }
      CheckedSessionFits(init);
      var prev := Stages(init);
      var k := |prev| - 1;
      var cur := Stages(tokens);
      if x == PIPE {
        assert StagesFit(cur) <==> StagesFit(prev) by {
          assert forall i :: 0 <= i < |prev| ==> cur[i] == prev[i];
          assert Join(cur[|prev|], ' ') == [];
        }
      } else {
        assert |x| < PROG_SIZE;
        assert tokens == init + [x];
        assert cur == prev[..k] + [prev[k] + [x]];
        StagesFitGrow(prev, x);
        if Progs(init, TooLongChecked).Success? {
          CheckedStep(init, x);
        }
      }
    }
  }

  /** Growing the last stage by a token: the stages fit exactly when the old ones did and the grown one does. */
  lemma StagesFitGrow(prev: seq<seq<string>>, x: string)
    requires |prev| >= 1
    ensures var k := |prev| - 1;
      StagesFit(prev[..k] + [prev[k] + [x]]) <==> StagesFit(prev) && |Join(prev[k] + [x], ' ')| < PROG_SIZE
  {
    var k := |prev| - 1;
    var cur := prev[..k] + [prev[k] + [x]];
    if prev[k] != [] {
      JoinSnoc(prev[k], x, ' ');
    }
    assert forall i :: 0 <= i < k ==> cur[i] == prev[i];
    assert cur[k] == prev[k] + [x];
  }

  /**
   * With the corrected test, a non-bar token is accepted exactly when the
   * current stage grown by it fits its buffer.
   */
  lemma CheckedStep(init: seq<string>, x: string)
    requires x != PIPE && |x| < PROG_SIZE && Progs(init, TooLongChecked).Success?
    ensures var prev := Stages(init);
      Progs(init + [x], TooLongChecked).Success? <==> |Join(prev[|prev| - 1] + [x], ' ')| < PROG_SIZE
  {
    var tokens := init + [x];
    assert tokens[..|tokens| - 1] == init && tokens[|tokens| - 1] == x;
    var progs := Progs(init, TooLongChecked).value;
    assert Progs(tokens, TooLongChecked) == Step(progs, x, TooLongChecked);
    ProgsAreJoinedStages(init, TooLongChecked);
    var prev := Stages(init);
    var k := |prev| - 1;
    assert progs[k] == StageProg(prev[k]);
    if prev[k] == [] {
      assert Join(prev[k] + [x], ' ') == x;
    } else {
      var prog := Join(prev[k], ' ');
      assert progs[k] == Some(prog);
      JoinSnoc(prev[k], x, ' ');
      assert TooLongChecked(prog, x) <==> |Join(prev[k] + [x], ' ')| >= PROG_SIZE;
    }
  }

  /**
   * The test as written lets a stage grow to 256 characters: the tokens "a"
   * and 254 b's pass it, and `strcat` then writes the terminator one byte past
   * the 256-byte buffer.
   */
  lemma AsWrittenOverflows()
    ensures var tokens := ["a", seq(254, _ => 'b')];
      && TokensFit(tokens)
      && Progs(tokens, TooLongAsWritten).Success?
      && |Progs(tokens, TooLongAsWritten).value| == 1
      && Progs(tokens, TooLongAsWritten).value[0].Some?
      && |Progs(tokens, TooLongAsWritten).value[0].value| == PROG_SIZE
  {
    var b := seq(254, _ => 'b');
    var tokens := ["a", b];
    assert tokens[..1] == ["a"];
    assert ["a"][..0] == [];
    assert Progs([], TooLongAsWritten) == Success([None]);
    assert "a" != PIPE && b != PIPE by {
      assert "a"[0] != PIPE[0];
    }
    assert [None][0 := Some("a")] == [Some("a")];
    assert Step([None], "a", TooLongAsWritten) == Success([Some("a")]);
    assert Progs(["a"], TooLongAsWritten) == Success([Some("a")]);
    assert !TooLongAsWritten("a", b);
    assert [Some("a")][0 := Some("a" + " " + b)] == [Some("a" + " " + b)];
    assert Step([Some("a")], b, TooLongAsWritten) == Success([Some("a" + " " + b)]);
  }

  /** The bounds `start_session` relies on: `prog_arr`/`pipe_arr` slots and terminated tokens. */
  ghost predicate SessionBounds(tokens: seq<string>)
  {
    BarCount(tokens) < MAX_PROGS && TokensFit(tokens)
  }

  lemma BarCountPrefix(tokens: seq<string>, i: nat)
    requires i <= |tokens|
    ensures BarCount(tokens[..i]) <= BarCount(tokens)
  {
    assert tokens == tokens[..i] + tokens[i..];
    assert multiset(tokens) == multiset(tokens[..i]) + multiset(tokens[i..]);
  }

  /** Once the session is aborted, it stays aborted whatever tokens follow. */
  lemma {:induction false} ProgsAbortSticks(tokens: seq<string>, i: nat, tooLong: (string, string) -> bool)
    requires i <= |tokens| && Progs(tokens[..i], tooLong).Failure?
    ensures Progs(tokens, tooLong) == Failure(TooLong)
    decreases |tokens| - i
  {
    if i == |tokens| {
      assert tokens[..i] == tokens;
    } else {
      assert tokens[..i + 1][..i] == tokens[..i];
      ProgsAbortSticks(tokens, i + 1, tooLong);
    }
  }

  /**
   * The splitting loop of `start_session`: fills `prog_arr` stage by stage and
   * returns its used slots, or the "too long !" abort. The length test is the
   * parameter `tooLong`: `TooLongAsWritten` is the code's, `TooLongChecked`
   * the corrected one. `prog_arr` starts all NULL; `pipe()` is taken to succeed.
   */
  method SplitSession(tokens: seq<string>, tooLong: (string, string) -> bool)
    returns (r: Result<seq<Option<string>>, SessionError>)
    requires SessionBounds(tokens)
    ensures r == Progs(tokens, tooLong)
  {
    var progArr := new Option<string>[MAX_PROGS](_ => None);
    var count := 0;
    var i := 0;
    ghost var progs: seq<Option<string>> := [None];
    while i < |tokens|
      invariant 0 <= i <= |tokens|
      invariant Progs(tokens[..i], tooLong) == Success(progs)
      invariant count + 1 == |progs| && count < MAX_PROGS
      invariant progArr[..count + 1] == progs
      invariant forall k :: count < k < MAX_PROGS ==> progArr[k] == None
    {
      var token := tokens[i];
      ProgsSnoc(tokens, i, tooLong);
      if token == PIPE {
        ProgsLength(tokens[..i + 1], tooLong);
        BarCountPrefix(tokens, i + 1);
        count := count + 1;
        progs := progs + [None];
      } else {
        match progArr[count]
        case None =>
          progArr[count] := Some(token);
          progs := progs[count := Some(token)];
        case Some(prog) =>
          if tooLong(prog, token) {
            ProgsAbortSticks(tokens, i + 1, tooLong);
            return Failure(TooLong);
          }
          progArr[count] := Some(prog + " " + token);
          progs := progs[count := Some(prog + " " + token)];
      }
      i := i + 1;
    }
    assert tokens[..i] == tokens;
    count := count + 1;
    return Success(progArr[..count]);
  }

  /** One more token is one more `Step`. */
  lemma ProgsSnoc(tokens: seq<string>, i: nat, tooLong: (string, string) -> bool)
    requires i < |tokens|
    ensures Progs(tokens[..i + 1], tooLong) ==
      match Progs(tokens[..i], tooLong)
      case Failure(e) => Failure(e)
      case Success(progs) => Step(progs, tokens[i], tooLong)
  {
    assert tokens[..i + 1][..i] == tokens[..i];
  }

  /** A session not aborted has one `prog_arr` slot per stage. */
  lemma ProgsLength(tokens: seq<string>, tooLong: (string, string) -> bool)
    requires Progs(tokens, tooLong).Success?
    ensures |Progs(tokens, tooLong).value| == BarCount(tokens) + 1
  {
    ProgsAreJoinedStages(tokens, tooLong);
    StagesCount(tokens);
  }

  /**
   * `start_session`'s split with the corrected length test: it succeeds exactly
   * when every stage's command string fits its buffer, and then yields, for
   * each of the `BarCount + 1` stages, NULL for an empty stage or its tokens
   * joined by single spaces.
   */
  method PlanSession(tokens: seq<string>) returns (r: Result<seq<Option<string>>, SessionError>)
    requires SessionBounds(tokens)
    ensures r.Success? <==> StagesFit(Stages(tokens))
    ensures r.Failure? ==> r.error == TooLong
    ensures r.Success? ==> |r.value| == |Stages(tokens)| == BarCount(tokens) + 1
    ensures r.Success? ==> forall i :: 0 <= i < |r.value| ==> r.value[i] == StageProg(Stages(tokens)[i])
  {
    r := SplitSession(tokens, TooLongChecked);
    CheckedSessionFits(tokens);
    if r.Success? {
      ProgsAreJoinedStages(tokens, TooLongChecked);
      StagesCount(tokens);
    }
  }

  // ------------------------------------------------- argv and redirection

  /** Where a stage's standard input or output is redirected. */
  datatype Redirect = NoRedirect | InputFrom(file: string) | OutputTo(file: string)

  /** `< file` or `> file` as the last two of at least three tokens; "<" is tested first. */
  function RedirectOf(tokens: seq<string>): (r: Redirect)
    ensures r.InputFrom? ==> |tokens| >= 3 && tokens[|tokens| - 2] == "<" && r.file == tokens[|tokens| - 1]
    ensures r.OutputTo? ==> |tokens| >= 3 && tokens[|tokens| - 2] == ">" && r.file == tokens[|tokens| - 1]
    ensures r.NoRedirect? <==> |tokens| < 3 || tokens[|tokens| - 2] !in {"<", ">"}
  {
    if |tokens| >= 3 && tokens[|tokens| - 2] == "<" then InputFrom(tokens[|tokens| - 1])
    else if |tokens| >= 3 && tokens[|tokens| - 2] == ">" then OutputTo(tokens[|tokens| - 1])
    else NoRedirect
  }

  /** The program's arguments: every token but a trailing redirection. */
  function ArgsOf(tokens: seq<string>): (args: seq<string>)
    ensures |args| <= |tokens| && args == tokens[..|args|]
    ensures |args| == |tokens| <==> RedirectOf(tokens).NoRedirect?
    ensures |args| != |tokens| ==> |args| == |tokens| - 2 >= 1
  {
    if RedirectOf(tokens).NoRedirect? then tokens else tokens[..|tokens| - 2]
  }

  /** The tokens a redirection was written as. */
  function RedirectTokens(rd: Redirect): seq<string>
  {
    match rd
    case NoRedirect => []
    case InputFrom(f) => ["<", f]
    case OutputTo(f) => [">", f]
  }

  /** Arguments and redirection together are exactly the stage's tokens. */
  lemma ArgsAndRedirect(tokens: seq<string>)
    ensures ArgsOf(tokens) + RedirectTokens(RedirectOf(tokens)) == tokens
    ensures |tokens| >= 1 ==> |ArgsOf(tokens)| >= 1 && ArgsOf(tokens)[0] == tokens[0]
  {
    if !RedirectOf(tokens).NoRedirect? {
      assert tokens == tokens[..|tokens| - 2] + [tokens[|tokens| - 2], tokens[|tokens| - 1]];
    }
  }

  /** `tokens[34]` and `argv[32]` hold the stage, with room for argv's NULL. */
  ghost predicate ArgvFits(tokens: seq<string>)
  {
    1 <= |tokens| <= MAX_TOKENS && |ArgsOf(tokens)| < MAX_ARGV
  }

  /**
   * The argv part of `run_program`: fills `argv` from the tokens, NULL right
   * after the last argument, and finds the redirection.
   */
  method BuildArgv(tokens: seq<string>) returns (argv: array<Option<string>>, redirect: Redirect)
    requires ArgvFits(tokens)
    ensures fresh(argv) && argv.Length == MAX_ARGV
    ensures redirect == RedirectOf(tokens)
    ensures argv[0] == Some(tokens[0])
    ensures forall k :: 0 <= k < |ArgsOf(tokens)| ==> argv[k] == Some(ArgsOf(tokens)[k])
    ensures argv[|ArgsOf(tokens)|] == None
  {
    argv := new Option<string>[MAX_ARGV](_ => None);
    var n := |tokens|;
    argv[0] := Some(tokens[0]);
    var last: nat;
    if n >= 3 && tokens[n - 2] == "<" {
      last := n - 2;
      redirect := InputFrom(tokens[n - 1]);
    } else if n >= 3 && tokens[n - 2] == ">" {
      last := n - 2;
      redirect := OutputTo(tokens[n - 1]);
    } else {
      last := n;
      redirect := NoRedirect;
    }
    assert last == |ArgsOf(tokens)| && ArgsOf(tokens) == tokens[..last];
    var i := 1;
    while i < last
      invariant 1 <= i <= last || (i == 1 && last <= 1)
      invariant argv[0] == Some(tokens[0])
      invariant forall k :: 0 <= k < i && k < last ==> argv[k] == Some(tokens[k])
      invariant forall k :: i <= k < MAX_ARGV ==> argv[k] == None
    {
      argv[i] := Some(tokens[i]);
      i := i + 1;
    }
    argv[last] := None;
  }

  /**
   * A stage's command string, cut again at spaces by `run_program`, gives back
   * the stage's tokens when no token is empty or holds a space: the argv and
   * redirection are those of the stage as typed.
   */
  lemma StageRoundTrip(tokens: seq<string>, i: nat)
    requires PlainWords(tokens, ' ') && i < |Stages(tokens)| && Stages(tokens)[i] != []
    ensures Tokenize(Join(Stages(tokens)[i], ' '), ' ') == Stages(tokens)[i]
  {
    StagePlain(tokens);
    TokenizeJoin(Stages(tokens)[i], ' ');
  }

  lemma {:induction false} StagePlain(tokens: seq<string>)
    requires PlainWords(tokens, ' ')
    ensures forall i :: 0 <= i < |Stages(tokens)| ==> PlainWords(Stages(tokens)[i], ' ')
    decreases |tokens|
  {
    if tokens != [] {
      var init := tokens[..|tokens| - 1];
      assert PlainWords(init, ' ') by {
        forall k | 0 <= k < |init| ensures |init[k]| > 0 && ' ' !in init[k] {
          assert init[k] == tokens[k];
        }
      }
      StagePlain(init);
    }
  }

  // ---------------------------------------------------------- pipe wiring

  /** The pipes a stage's standard input reads from and its standard output writes to. */
  datatype Wiring = Wiring(stdinPipe: Option<nat>, stdoutPipe: Option<nat>)

  /** The `dup2` calls stage `i` of `count` makes before it runs its program. */
  function StageWiring(i: nat, count: nat): (w: Wiring)
    requires i < count
    ensures w.stdinPipe.Some? <==> count >= 2 && i > 0
    ensures w.stdoutPipe.Some? <==> count >= 2 && i < count - 1
    ensures w.stdinPipe.Some? ==> w.stdinPipe.value + 1 == i
    ensures w.stdoutPipe.Some? ==> w.stdoutPipe.value == i && i + 2 <= count
  {
    if count >= 2 then
      if i == 0 then Wiring(None, Some(i))
      else if i == count - 1 then Wiring(Some(i - 1), None)
      else Wiring(Some(i - 1), Some(i))
    else Wiring(None, None)
  }

  /**
   * The stages form a chain: pipe `j` is written by stage `j` alone and read
   * by stage `j + 1` alone, only pipes `0 .. count - 2` are used, and the
   * first stage's input and the last stage's output stay the terminal's.
   */
  lemma PipelineChain(count: nat, i: nat, j: nat)
    requires i < count
    ensures StageWiring(i, count).stdoutPipe == Some(j) <==> i == j && j + 1 < count
    ensures StageWiring(i, count).stdinPipe == Some(j) <==> i == j + 1
    ensures i == 0 ==> StageWiring(i, count).stdinPipe == None
    ensures i == count - 1 ==> StageWiring(i, count).stdoutPipe == None
  {
  }

  /** The pipe ends the shell closes once it has forked stage `i` of `count`. */
  datatype Closes = Closes(readEndOf: Option<nat>, writeEndOf: Option<nat>)

  function ParentCloses(i: nat, count: nat): (c: Closes)
    requires i < count
    ensures c.readEndOf.Some? ==> c.readEndOf.value + 1 == i && c.readEndOf.value + 2 <= count
    ensures c.writeEndOf.Some? ==> c.writeEndOf.value == i && c.writeEndOf.value + 2 <= count
    ensures c.readEndOf.None? ==> i == 0
    ensures c.writeEndOf.None? ==> i == count - 1
  {
    Closes(if i != 0 then Some(i - 1) else None, if i != count - 1 then Some(i) else None)
  }

  /**
   * Right after forking a stage, the shell closes exactly the pipe ends that
   * stage was wired to: a pipe's write end once its writer is forked, before
   * its reader is, and its read end once its reader is forked.
   */
  lemma ParentClosesWhatStageUses(count: nat, i: nat)
    requires i < count
    ensures ParentCloses(i, count).readEndOf == StageWiring(i, count).stdinPipe
    ensures ParentCloses(i, count).writeEndOf == StageWiring(i, count).stdoutPipe
  {
  }

  // ------------------------------------------------------ PATH resolution

  /** The paths tried for `path`: each PATH entry, a "/" and `path`, in PATH order. */
  function Candidates(path: string, pathVar: string): (cs: seq<string>)
    ensures |cs| == |Tokenize(pathVar, ':')|
    ensures forall k :: 0 <= k < |cs| ==>
      var dir := Tokenize(pathVar, ':')[k];
      |dir| > 0 && ':' !in dir && |dir| <= |cs[k]| && cs[k][..|dir|] == dir && cs[k][|dir|..] == "/" + path
  {
    var dirs := Tokenize(pathVar, ':');
    seq(|dirs|, k requires 0 <= k < |dirs| => dirs[k] + "/" + path)
  }

  /** The first of `cs` that exists and execs, if any. */
  function FirstRunnable(cs: seq<string>, accessible: string -> bool, execs: string -> bool): (r: Option<nat>)
    ensures r.Some? ==> r.value < |cs| && accessible(cs[r.value]) && execs(cs[r.value])
    ensures r.Some? ==> forall k :: 0 <= k < r.value ==> !(accessible(cs[k]) && execs(cs[k]))
    ensures r.None? ==> forall k :: 0 <= k < |cs| ==> !(accessible(cs[k]) && execs(cs[k]))
  {
    if cs == [] then None
    else if accessible(cs[0]) && execs(cs[0]) then Some(0)
    else match FirstRunnable(cs[1..], accessible, execs)
      case None => None
      case Some(k) => Some(k + 1)
  }

  /** Every candidate, with its terminator, fits `rpath`. */
  ghost predicate CandidatesFit(path: string, pathVar: string)
  {
    forall k :: 0 <= k < |Tokenize(pathVar, ':')| ==> |Candidates(path, pathVar)[k]| < RPATH_SIZE
  }

  /**
   * The execute part of `run_program`: a path starting with "/" is executed as
   * given; otherwise each candidate that `access` finds (`accessible`) is passed
   * to `execv`, and the first that `execv` does not return from (`execs`) runs.
   * None is the "exec" error after which the child exits with -1.
   */
  method ResolveExec(path: string, pathVar: string, accessible: string -> bool, execs: string -> bool)
    returns (r: Option<string>)
    requires |path| > 0 && CandidatesFit(path, pathVar)
    ensures path[0] == '/' ==> r == (if execs(path) then Some(path) else None)
    ensures path[0] != '/' ==> r == match FirstRunnable(Candidates(path, pathVar), accessible, execs)
                                     case Some(k) => Some(Candidates(path, pathVar)[k])
                                     case None => None
  {
    if path[0] == '/' {
      if execs(path) {
        return Some(path);
      }
      return None;
    }
    var dirs := Tokenize(pathVar, ':');
    ghost var cs := Candidates(path, pathVar);
    var k := 0;
    while k < |dirs|
      invariant 0 <= k <= |dirs|
      invariant forall j :: 0 <= j < k ==> !(accessible(cs[j]) && execs(cs[j]))
    {
      var rpath := dirs[k] + "/" + path;
      assert rpath == cs[k];
      if accessible(rpath) && execs(rpath) {
        FirstRunnableIs(cs, accessible, execs, k);
        return Some(rpath);
      }
      k := k + 1;
    }
    FirstRunnableNone(cs, accessible, execs);
    return None;
  }

  lemma {:induction false} FirstRunnableIs(cs: seq<string>, accessible: string -> bool, execs: string -> bool, k: nat)
    requires k < |cs| && accessible(cs[k]) && execs(cs[k])
    requires forall j :: 0 <= j < k ==> !(accessible(cs[j]) && execs(cs[j]))
    ensures FirstRunnable(cs, accessible, execs) == Some(k)
  {
    if k > 0 {
      FirstRunnableIs(cs[1..], accessible, execs, k - 1);
    }
  }

  lemma FirstRunnableNone(cs: seq<string>, accessible: string -> bool, execs: string -> bool)
    requires forall j :: 0 <= j < |cs| ==> !(accessible(cs[j]) && execs(cs[j]))
    ensures FirstRunnable(cs, accessible, execs) == None
  {
  }
}
