/**
 * The interactive loop of main (main.c:47-79): print the prompt, read a line,
 * cut it at its newline, then stop on "halt", print the help text on "help"
 * and complain about anything else. Reading stdin and printing are modelled as
 * a sequence of lines in and a sequence of events out.
 */
module Shell {
  import opened CStr
  import opened Options
  import Prompt

  const ERR_MALLOC: int := 1
  const ERR_FGETS: int := 2

  const HELP: string := "\nInteractive C-Shell for SPAASM\nOndrej Spanik 2022 (c) iairu.com\n\nArguments:\n\ttodo\n\nShell commands:\n\thelp - Prints this help message\n\thalt - Halts the shell execution completely\n"
  const UNRECOGNIZED: string := "Unrecognized command.\n"

  /**
   * Line 63: `uinput[strcspn(uinput, "\n")] = '\0'` on the buffer fgets
   * filled, which always holds a NUL.
   */
  function Normalize(buf: seq<char>): (r: seq<char>)
    requires NUL in buf
    ensures |r| == |buf| && NUL in r
    ensures UntilNul(r) == UntilNul(buf)[..Strcspn(buf, "\n")]
    ensures '\n' !in UntilNul(r)
  {
    var k := Strcspn(buf, "\n");
    var r := buf[k := NUL];
    assert r[k] in r;
    assert UntilNul(r) == UntilNul(buf)[..k] by {
      var u := UntilNul(buf);
      UntilNulCut(r, k);
      assert r[..k] == buf[..k] == u[..k];
      UntilNulNoNul(u[..k]);
    }
    assert '\n' !in UntilNul(buf)[..k] by {
      forall i | 0 <= i < k
        ensures UntilNul(buf)[..k][i] != '\n'
      {
        assert buf[i] !in "\n";
      }
    }
    r
  }

  /**
   * The command string the loop compares: what fgets read (`raw`, stored
   * with its NUL) once line 63 has cut it. It is the longest prefix of `raw`
   * holding neither a newline nor a NUL.
   */
  function Line(raw: seq<char>): (l: seq<char>)
    ensures l <= raw
    ensures '\n' !in l && NUL !in l
    ensures |l| < |raw| ==> raw[|l|] == '\n' || raw[|l|] == NUL
  {
    LineIsCut(raw);
    UntilNul(Normalize(raw + [NUL]))
  }

  /** After line 63 the buffer's string is `raw` up to strcspn's index. */
  lemma {:induction false} LineIsCut(raw: seq<char>)
    ensures var k := Strcspn(raw + [NUL], "\n");
      && k <= |raw|
      && UntilNul(Normalize(raw + [NUL])) == raw[..k]
      && '\n' !in raw[..k] && NUL !in raw[..k]
      && (k < |raw| ==> raw[k] == '\n' || raw[k] == NUL)
  {
    var buf := raw + [NUL];
    var k := Strcspn(buf, "\n");
    var u := UntilNul(buf);
    assert k <= |raw| by {
      assert buf[|raw|] == NUL;
      assert buf[..|u|] == u;
      assert |u| < |buf|;
    }
    assert buf[..k] == raw[..k];
    assert NUL !in raw[..k] by {
      assert raw[..k] == u[..k];
    }
    assert '\n' !in raw[..k] by {
      forall i | 0 <= i < k
        ensures raw[..k][i] != '\n'
      {
        assert buf[i] !in "\n";
      }
    }
    var n := Normalize(buf);
    assert UntilNul(n) == raw[..k] by {
      UntilNulCut(n, k);
      assert n[..k] == raw[..k];
      UntilNulNoNul(raw[..k]);
    }
    if k < |raw| {
      if k < |u| {
        assert buf[k] in "\n";
      } else {
        assert buf[k] == NUL;
      }
    }
  }

  /** Cutting an already cut line changes nothing. */
  lemma {:induction false} LineIdempotent(raw: seq<char>)
    ensures Line(Line(raw)) == Line(raw)
  {
  }

  /** Without a NUL, the line is everything before the first newline, or all of it. */
  lemma {:induction false} LineBeforeNewline(raw: seq<char>)
    requires NUL !in raw
    ensures '\n' !in raw ==> Line(raw) == raw
    ensures forall k :: 0 <= k < |raw| && raw[k] == '\n' && '\n' !in raw[..k] ==> Line(raw) == raw[..k]
  {
  }

  /** What the if-chain at lines 68-70 does with a line. */
  datatype Command = Halt | Help | Unrecognized

  /** strcmp against "halt", then "help", on the normalised buffer. */
  function Classify(buf: seq<char>): (c: Command)
    requires NUL in buf
    ensures c == Halt <==> UntilNul(buf) == "halt"
    ensures c == Help <==> UntilNul(buf) == "help"
  {
    UntilNulTerminated("halt", []);
    UntilNulNoNul("halt");
    UntilNulTerminated("help", []);
    UntilNulNoNul("help");
    assert "halt" + [NUL] + [] == "halt" + [NUL];
    assert "help" + [NUL] + [] == "help" + [NUL];
    if StrEqual(buf, "halt" + [NUL]) then Halt
    else if StrEqual(buf, "help" + [NUL]) then Help
    else Unrecognized
  }

  /** The command chosen for a line read by fgets. */
  function Dispatch(raw: seq<char>): (c: Command)
    ensures c == Halt <==> Line(raw) == "halt"
    ensures c == Help <==> Line(raw) == "help"
  {
    Classify(Normalize(raw + [NUL]))
  }

  /** Only the exact string "halt" stops the shell: surrounding blanks do not. */
  lemma {:induction false} BlanksMatter()
    ensures Dispatch(" halt") == Unrecognized
    ensures Dispatch("help ") == Unrecognized
  {
    LineBeforeNewline(" halt");
    LineBeforeNewline("help ");
  }

  /** The newline fgets keeps does not take part in the comparison. */
  lemma {:induction false} NewlineIgnored()
    ensures Dispatch("halt\n") == Halt
  {
    LineBeforeNewline("halt\n");
    assert "halt\n"[4] == '\n' && "halt\n"[..4] == "halt";
  }

  /** The two states of the loop at line 56. */
  datatype State = Running | Halted

  /** What one pass of the loop prints (line 58, 69 or 70). */
  datatype Event = ShowPrompt(prompt: seq<char>) | PrintHelp | PrintUnrecognized

  /** The characters printf writes for an event. */
  function Text(e: Event): (t: string)
    ensures e.ShowPrompt? ==> |t| == |e.prompt| + 1 && t[..|e.prompt|] == e.prompt && t[|e.prompt|] == ' '
    ensures e.PrintHelp? ==> |t| == |HELP| + 1 && t[..|HELP|] == HELP
    ensures e.PrintUnrecognized? ==> t == "Unrecognized command.\n"
    ensures |t| > 0 && (t[|t| - 1] == '\n' <==> !e.ShowPrompt?)
  {
    match e
    case ShowPrompt(p) => p + " "
    case PrintHelp => HELP + "\n"
    case PrintUnrecognized => UNRECOGNIZED
  }

  datatype Transition = Transition(next: State, out: seq<Event>)

  /** What the loop prints in answer to a line that is not "halt". */
  function Answer(raw: seq<char>): Event
  {
    if Line(raw) == "help" then PrintHelp else PrintUnrecognized
  }

  /**
   * One pass of the loop on the line fgets returned: the prompt is shown, and
   * the line is dispatched. Once halted, the loop has been left and nothing
   * happens any more.
   */
  function Step(s: State, prompt: seq<char>, raw: seq<char>): (t: Transition)
    ensures t.next == Halted <==> s == Halted || Line(raw) == "halt"
    ensures s == Halted ==> t.out == []
    ensures s == Running ==>
      t.out == [ShowPrompt(prompt)] + (if t.next == Halted then [] else [Answer(raw)])
  {
    match s
    case Halted => Transition(Halted, [])
    case Running =>
      match Dispatch(raw)
      case Halt => Transition(Halted, [ShowPrompt(prompt)])
      case Help => Transition(Running, [ShowPrompt(prompt), PrintHelp])
      case Unrecognized => Transition(Running, [ShowPrompt(prompt), PrintUnrecognized])
  }

  /** The machine driven over a sequence of lines. */
  function Run(s: State, prompt: seq<char>, lines: seq<seq<char>>): (r: Transition)
    ensures |r.out| <= 2 * |lines|
    ensures s == Running && |lines| > 0 ==> |r.out| > 0 && r.out[0] == ShowPrompt(prompt)
    decreases |lines|
  {
    if |lines| == 0 then Transition(s, [])
    else
      var t := Step(s, prompt, lines[0]);
      var rest := Run(t.next, prompt, lines[1..]);
      Transition(rest.next, t.out + rest.out)
  }

  /** Halted is absorbing: no line read afterwards has any effect. */
  lemma {:induction false} HaltedAbsorbing(prompt: seq<char>, lines: seq<seq<char>>)
    ensures Run(Halted, prompt, lines) == Transition(Halted, [])
    decreases |lines|
  {
    if |lines| > 0 {
      HaltedAbsorbing(prompt, lines[1..]);
    }
  }

  /** Some line of `lines` is exactly "halt" once cut. */
  predicate HasHalt(lines: seq<seq<char>>)
  {
    exists i :: 0 <= i < |lines| && Line(lines[i]) == "halt"
  }

  /** A non-empty sequence of lines holds "halt" in its head or in its tail. */
  lemma {:induction false} HasHaltCons(lines: seq<seq<char>>)
    requires |lines| > 0
    ensures HasHalt(lines) <==> Line(lines[0]) == "halt" || HasHalt(lines[1..])
  {
    if HasHalt(lines) {
      var i :| 0 <= i < |lines| && Line(lines[i]) == "halt";
      if i > 0 {
        assert lines[1..][i - 1] == lines[i];
      }
    }
    if HasHalt(lines[1..]) {
      var i :| 0 <= i < |lines[1..]| && Line(lines[1..][i]) == "halt";
      assert lines[i + 1] == lines[1..][i];
    }
  }

  /** The machine ends Halted exactly when some line is "halt" (or it was halted already). */
  lemma {:induction false} RunHaltsIff(s: State, prompt: seq<char>, lines: seq<seq<char>>)
    ensures Run(s, prompt, lines).next == Halted <==> s == Halted || HasHalt(lines)
    decreases |lines|
  {
    if |lines| > 0 {
      HasHaltCons(lines);
      var t := Step(s, prompt, lines[0]);
      RunHaltsIff(t.next, prompt, lines[1..]);
    }
  }

  /** How main returns: its exit code, what it printed, how many lines it consumed. */
  datatype Exit = Exit(code: int, out: seq<Event>, consumed: nat)

  /** The loop from line 56 on, with the prompt already built. */
  function Loop(prompt: seq<char>, lines: seq<seq<char>>): (e: Exit)
    ensures e.consumed <= |lines|
    ensures e.code == 0 || e.code == ERR_FGETS
    ensures e.code == 0 ==> 0 < e.consumed
    ensures e.code == ERR_FGETS ==> e.consumed == |lines|
    ensures |e.out| == 2 * e.consumed + (if e.code == 0 then -1 else 1)
    ensures e.out[0] == ShowPrompt(prompt)
    decreases |lines|
  {
    if |lines| == 0 then Exit(ERR_FGETS, [ShowPrompt(prompt)], 0)
    else
      var t := Step(Running, prompt, lines[0]);
      if t.next == Halted then Exit(0, t.out, 1)
      else
        var rest := Loop(prompt, lines[1..]);
        Exit(rest.code, t.out + rest.out, rest.consumed + 1)
  }

  /**
   * The loop stops with status 0 exactly when some line is "halt", and then
   * right after the first such line; otherwise it reads every line and ends
   * with ERR_FGETS.
   */
  lemma {:induction false} LoopExit(prompt: seq<char>, lines: seq<seq<char>>)
    ensures var e := Loop(prompt, lines);
      && (e.code == 0 <==> HasHalt(lines))
      && (e.code == 0 ==> Line(lines[e.consumed - 1]) == "halt" && !HasHalt(lines[..e.consumed - 1]))
    decreases |lines|
  {
    if |lines| > 0 {
      HasHaltCons(lines);
      var t := Step(Running, prompt, lines[0]);
      if t.next == Halted {
        assert lines[..0] == [];
      } else {
        LoopExit(prompt, lines[1..]);
        LoopShift(lines, Loop(prompt, lines[1..]).consumed);
      }
    }
  }

  /** Consuming k lines of the tail is consuming k + 1 lines of the whole. */
  lemma {:induction false} LoopShift(lines: seq<seq<char>>, k: nat)
    requires 0 < |lines| && k <= |lines| - 1 && Line(lines[0]) != "halt"
    ensures 0 < k ==> lines[1..][k - 1] == lines[k]
    ensures 0 < k ==> (HasHalt(lines[1..][..k - 1]) <==> HasHalt(lines[..k]))
  {
    if 0 < k {
      var p := lines[..k];
      assert p[0] == lines[0];
      assert p[1..] == lines[1..][..k - 1];
      HasHaltCons(p);
    }
  }

  /**
   * main: ERR_MALLOC before anything is printed or read when the prompt or
   * the input buffer could not be allocated (lines 50 and 53); otherwise the
   * loop.
   */
  function Main(prompt: Option<seq<char>>, inputBuffer: bool, lines: seq<seq<char>>): (e: Exit)
    ensures prompt.None? || !inputBuffer ==> e == Exit(ERR_MALLOC, [], 0)
    ensures prompt.Some? && inputBuffer ==> (e.code == 0 <==> HasHalt(lines))
    ensures prompt.Some? && inputBuffer ==> (e.code == ERR_FGETS <==> !HasHalt(lines))
    ensures prompt.Some? && inputBuffer && e.code == 0 ==>
      0 < e.consumed <= |lines| && Line(lines[e.consumed - 1]) == "halt" && !HasHalt(lines[..e.consumed - 1])
    ensures prompt.Some? && inputBuffer ==> e == Loop(prompt.value, lines)
  {
    if prompt.None? then Exit(ERR_MALLOC, [], 0)
    else if !inputBuffer then Exit(ERR_MALLOC, [], 0)
    else
      LoopExit(prompt.value, lines);
      Loop(prompt.value, lines)
  }

  /**
   * The whole program: main (line 49) with the prompt getprompt builds from
   * the user name and the host name. It fails with ERR_MALLOC exactly when an
   * allocation fails, and otherwise first shows "name@host: ".
   */
  function Program(name: seq<char>, host: seq<char>, junk: seq<char>,
                   promptAlloc: bool, inputAlloc: bool, lines: seq<seq<char>>): (e: Exit)
    requires NUL !in name && NUL !in host
    requires |junk| == Prompt.HOSTNAME_BUF
    ensures e.code == ERR_MALLOC <==> !promptAlloc || !inputAlloc
    ensures promptAlloc && inputAlloc ==>
      |e.out| > 0 && e.out[0] == ShowPrompt(name + ['@'] + Prompt.Hostname(host, junk) + [':'])
  {
    Main(Prompt.Getprompt(name, host, junk, promptAlloc), inputAlloc, lines)
  }

  /**
   * The loop prints what the state machine prints on the lines it consumed,
   * plus the prompt shown before the fgets that returned NULL, and it stops
   * with status 0 exactly when the machine halted.
   */
  predicate AgreesWithMachine(prompt: seq<char>, lines: seq<seq<char>>)
  {
    var e := Loop(prompt, lines);
    var t := Run(Running, prompt, lines[..e.consumed]);
    && e.out == t.out + (if e.code == ERR_FGETS then [ShowPrompt(prompt)] else [])
    && (t.next == Halted <==> e.code == 0)
  }

  /** main's loop is the Running/Halted machine run on the lines it read. */
  lemma {:induction false} LoopIsMachine(prompt: seq<char>, lines: seq<seq<char>>)
    ensures AgreesWithMachine(prompt, lines)
    decreases |lines|
  {
    if |lines| > 0 {
      if Step(Running, prompt, lines[0]).next == Halted {
        HaltFirstAgrees(prompt, lines);
      } else {
        LoopIsMachine(prompt, lines[1..]);
        ContinueAgrees(prompt, lines);
      }
    }
  }

  /** A first line "halt": one prompt, then status 0. */
  lemma {:induction false} HaltFirstAgrees(prompt: seq<char>, lines: seq<seq<char>>)
    requires |lines| > 0 && Step(Running, prompt, lines[0]).next == Halted
    ensures AgreesWithMachine(prompt, lines)
  {
    var s := Step(Running, prompt, lines[0]);
    assert lines[..1] == [lines[0]];
    assert [lines[0]][1..] == [];
    assert Run(Halted, prompt, []) == Transition(Halted, []);
    assert Run(Running, prompt, [lines[0]]) == Transition(Halted, s.out);
  }

  /** A first line other than "halt": its answer, then the loop on the rest. */
  lemma {:induction false} ContinueAgrees(prompt: seq<char>, lines: seq<seq<char>>)
    requires |lines| > 0 && Step(Running, prompt, lines[0]).next == Running
    requires AgreesWithMachine(prompt, lines[1..])
    ensures AgreesWithMachine(prompt, lines)
  {
    var s := Step(Running, prompt, lines[0]);
    var r := Loop(prompt, lines[1..]);
    var e := Loop(prompt, lines);
    assert e == Exit(r.code, s.out + r.out, r.consumed + 1);
    var p := lines[..e.consumed];
    assert p[0] == lines[0] && p[1..] == lines[1..][..r.consumed];
    var tr := Run(Running, prompt, lines[1..][..r.consumed]);
    assert Run(Running, prompt, p) == Transition(tr.next, s.out + tr.out);
  }
}
