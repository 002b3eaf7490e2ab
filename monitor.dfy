/** `runcmd` (kern/monitor.c:111-148): tokenize a command line in place, then
    dispatch on its first word through the command table. */
module Monitor {
  import opened CommandLine
  import opened Commands

  /** What `runcmd` did with a line: the error it reported, or the command it
      invoked with the arguments that command receives as `argv`. */
  datatype Outcome =
    | TooManyArguments
    | EmptyLine
    | UnknownCommand(word: string)
    | Ran(handler: Handler, args: seq<string>)

  /** The texts of the arguments of the line `s`, in order. */
  function Arguments(s: seq<char>): (r: seq<string>)
    requires NUL in s
    ensures |r| == |TokenStarts(s)|
  {
    var toks := TokenStarts(s);
    seq(|toks|, j requires 0 <= j < |toks| => TokenText(s, toks[j]))
  }

  /** The reference meaning of `runcmd` on the line `s`: more than MAXARGS-1
      arguments is an error, an empty line does nothing, and otherwise the first
      entry of `table` named like the first argument runs. */
  function Interpret(s: seq<char>, table: seq<Command>): Outcome
    requires NUL in s
  {
    var toks := TokenStarts(s);
    if |toks| >= MaxArgs then TooManyArguments
    else if |toks| == 0 then EmptyLine
    else
      var args := Arguments(s);
      match Find(table, args[0])
      case None => UnknownCommand(args[0])
      case Some(k) => Ran(table[k].handler, args)
  }

  /** The value `runcmd` returns for an outcome. */
  function Status(o: Outcome): int
  {
    match o
    case Ran(h, _) => HandlerStatus(h)
    case _ => 0
  }

  /** `runcmd` (kern/monitor.c:111-148) on the NUL-terminated line in `buf`. */
  method RunCmd(buf: array<char>) returns (outcome: Outcome, status: int)
    requires NUL in buf[..]
    modifies buf
    ensures outcome == Interpret(old(buf[..]), Table)
    ensures status == Status(outcome)
    ensures buf[..] == Blanked(old(buf[..]), StopIndex(old(buf[..])))
  {
    ghost var s := buf[..];
    var argv, argc, tooMany := Tokenize(buf);
    if tooMany {
      return TooManyArguments, 0;
    }
    if argc == 0 {
      return EmptyLine, 0;
    }
    var t := buf[..];
    var starts := argv[..argc];
    forall k | 0 <= k < argc
      ensures starts[k] < |t| && NUL in t[starts[k]..]
      ensures CStrAt(t, starts[k]) == TokenText(s, starts[k])
    {
      ArgumentIsTerminated(s, k);
    }
    var args := seq(argc, k requires 0 <= k < argc => CStrAt(t, starts[k]));
    assert args == Arguments(s);
    var found := FindCommand(Table, args[0]);
    match found {
      case None =>
        outcome := UnknownCommand(args[0]);
      case Some(k) =>
        outcome := Ran(Table[k].handler, args);
    }
    status := Status(outcome);
  }

  /** `runcmd` never returns a negative value with this table, so the read-eval
      loop of `monitor` (kern/monitor.c:160-165), which stops only on a negative
      value, never stops. */
  lemma MonitorNeverExits(s: seq<char>)
    requires NUL in s
    ensures Status(Interpret(s, Table)) >= 0
  {
  }

  /** A line that is empty or all whitespace runs nothing
      (kern/monitor.c:140-141); any other line with at most MAXARGS-1 arguments
      reaches the table. */
  lemma {:induction false} BlankLineRunsNothing(s: seq<char>)
    requires NUL in s
    ensures Interpret(s, Table) == EmptyLine <==>
      forall j :: 0 <= j < Strlen(s) ==> IsWhite(s[j])
  {
    NoTokensIffBlank(s);
  }

  /** `backtrace` is not in the table, so a line whose command word is
      `backtrace` reports an unknown command and runs nothing
      (kern/monitor.c:25-29, 142-147). */
  lemma BacktraceIsUnknown(s: seq<char>)
    requires NUL in s && 0 < |TokenStarts(s)| < MaxArgs
    requires Arguments(s)[0] == "backtrace"
    ensures Interpret(s, Table) == UnknownCommand("backtrace")
  {
    TableLookups();
  }

  /** The line "backtrace" on its own is such a line. */
  lemma BacktraceLine()
    ensures Interpret("backtrace" + [NUL], Table) == UnknownCommand("backtrace")
  {
    var s := "backtrace" + [NUL];
    BacktraceLineSplits(s);
    assert Arguments(s)[0] == s[..9] == "backtrace";
    BacktraceIsUnknown(s);
  }

  /** How the tokenizer splits the line "backtrace". */
  lemma BacktraceLineSplits(s: seq<char>)
    requires s == "backtrace" + [NUL]
    ensures NUL in s && Strlen(s) == 9 && TokenStarts(s) == [0] && TokenEnd(s, 0) == 9
  {
    forall j | 0 <= j < 9 ensures !IsDelim(s[j]) {
      assert s[j] == "backtrace"[j];
    }
    StrlenIsFirstNul(s, 9);
    SingleWord(s, 9, 9);
    TokenEndAtFirstDelim(s, 0, 9);
  }
}
