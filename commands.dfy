/** The monitor's command table `commands[]` (kern/monitor.c:17-29), the
    lookup `runcmd` performs on it (kern/monitor.c:142-145) and the `help`
    command that lists it (kern/monitor.c:33-41). */
module Commands {

  datatype Option<T> = None | Some(value: T)

  /** The function pointer of a table entry, one case per command body. */
  datatype Handler = Help | KernInfoCmd | Show

  /** `struct Command`: a name, a one-line description and the function run. */
  datatype Command = Command(name: string, desc: string, handler: Handler)

  /** The static table, in the order of kern/monitor.c:25-29. `backtrace` is
      implemented (kern/monitor.c:65-102) but has no entry here. */
  const Table: seq<Command> := [
    Command("help", "Display this list of commands", Help),
    Command("kerninfo", "Display information about the kernel", KernInfoCmd),
    Command("show", "Show a dope neofetch pretty-print", Show)
  ]

  /** What each command returns to `runcmd`: `mon_help`, `mon_kerninfo` and
      `mon_show` all end in `return 0` (kern/monitor.c:40, 56, 62); none asks
      the monitor to exit, which takes a negative value (kern/monitor.c:20). */
  function HandlerStatus(h: Handler): (r: int)
    ensures r >= 0
  {
    match h
    case Help => 0
    case KernInfoCmd => 0
    case Show => 0
  }

  /** The index of the first entry of `table` at or after `from` whose name is
      exactly `name`, or None when there is none. */
  function FindFrom(table: seq<Command>, name: string, from: nat): (r: Option<nat>)
    requires from <= |table|
    ensures r.Some? ==> from <= r.value < |table| && table[r.value].name == name
    ensures r.Some? ==> forall j :: from <= j < r.value ==> table[j].name != name
    ensures r.None? <==> forall j :: from <= j < |table| ==> table[j].name != name
    decreases |table| - from
  {
    if from == |table| then None
    else if table[from].name == name then Some(from)
    else FindFrom(table, name, from + 1)
  }

  /** The entry `runcmd` dispatches to for the command word `name`. */
  function Find(table: seq<Command>, name: string): Option<nat>
  {
    FindFrom(table, name, 0)
  }

  /** The dispatch loop of `runcmd` (kern/monitor.c:142-145): the first entry
      whose name compares equal to `name` under `strcmp`, or None. */
  method FindCommand(table: seq<Command>, name: string) returns (r: Option<nat>)
    ensures r.Some? ==> r.value < |table| && table[r.value].name == name
    ensures r.Some? ==> forall j :: 0 <= j < r.value ==> table[j].name != name
    ensures r.None? <==> forall j :: 0 <= j < |table| ==> table[j].name != name
    ensures r == Find(table, name)
  {
    var i := 0;
    while i < |table|
      invariant 0 <= i <= |table|
      invariant forall j :: 0 <= j < i ==> table[j].name != name
    {
      if table[i].name == name {
        return Some(i);
      }
      i := i + 1;
    }
    return None;
  }

  /** The line `help` prints for an entry (kern/monitor.c:39). */
  function HelpLine(c: Command): string
  {
    c.name + " - " + c.desc + "\n"
  }

  /** `mon_help` (kern/monitor.c:33-41): one "name - description" line per
      table entry, in table order; returns 0. */
  method ListCommands(table: seq<Command>) returns (lines: seq<string>, status: int)
    ensures |lines| == |table| && status == 0
    ensures forall i :: 0 <= i < |table| ==>
      lines[i] == HelpLine(table[i])
  {
    lines := [];
    var i := 0;
    while i < |table|
      invariant 0 <= i <= |table| && |lines| == i
      invariant forall k :: 0 <= k < i ==>
        lines[k] == HelpLine(table[k])
    {
      lines := lines + [HelpLine(table[i])];
      i := i + 1;
    }
    status := 0;
  }

  /** Every name the dispatcher can reach is listed by `help`, on the line of
      the entry it dispatches to. */
  lemma HelpListsEveryCommand(table: seq<Command>, lines: seq<string>, name: string)
    requires |lines| == |table|
    requires forall i :: 0 <= i < |table| ==>
      lines[i] == HelpLine(table[i])
    requires Find(table, name).Some?
    ensures var k := Find(table, name).value;
      k < |lines| && |name| <= |lines[k]| && lines[k][..|name|] == name
  {
    var k := Find(table, name).value;
    assert HelpLine(table[k]) == name + (" - " + table[k].desc + "\n");
  }

  /** The three table names are distinct, so each entry is reached by its own
      name, and `backtrace` reaches none of them. */
  lemma TableLookups()
    ensures Find(Table, "help") == Some(0)
    ensures Find(Table, "kerninfo") == Some(1)
    ensures Find(Table, "show") == Some(2)
    ensures Find(Table, "backtrace") == None
  {
    assert Table[0].name == "help" && Table[1].name == "kerninfo" && Table[2].name == "show";
    assert "help" != "kerninfo" && "help" != "show" && "kerninfo" != "show";
    assert "backtrace" != "help" && "backtrace" != "kerninfo" && "backtrace" != "show";
  }
}
