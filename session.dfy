/** One pass of the command loop of main (main.c:232-290) as a state
    transition, and a whole session as the fold of those transitions over
    the lines read until "exit", a fatal create, or the end of input. */
module Session {
  import opened Bytes
  import opened Inodes
  import opened Load
  import opened Namespace
  import opened Commands

  /** What a line does, as the user sees it. */
  datatype Reply =
    | Moved(outcome: CdOutcome)
    | Made(status: CreateStatus, marker: Option<Marker>)
    | Listed(entries: seq<Inode>)
    | Quit
    | InvalidInput

  datatype Transition = Transition(next: State, reply: Reply)

  /** How a session ends: the live records are written back (on "exit" or at
      the end of input), or the process exits with status 1 on a full table,
      writing nothing. */
  datatype SessionEnd = Saved(records: seq<Inode>) | Aborted

  /** Commands whose parent step stays inside the array. */
  predicate Defined(s: State, cmd: Command)
  {
    cmd.Cd? ==> ParentStepDefined(s, cmd.arg)
  }

  /** The arguments a parsed line can carry: C strings without a newline. */
  predicate CStringArg(cmd: Command)
  {
    (cmd.Cd? || cmd.Mkdir? || cmd.Touch?) ==> Nul !in cmd.arg && Newline !in cmd.arg
  }

  /** The marker a create writes, when it appends a record. */
  function MarkerOf(s: State, kind: byte, name: seq<byte>): Option<Marker>
    requires s.count <= |s.slots|
  {
    if CreateStatusOf(s, name) != Created then None
    else if kind == DirKind then Some(DirectoryMarker(s.count, s.cursor))
    else Some(FileMarker(s.count, name))
  }

  /** One command applied to the state. Every reachable state keeps the
      invariant (count never above 1024), the live records only grow at the
      end, and a fatal create happens only in a full table. */
  function Apply(s: State, cmd: Command): (t: Transition)
    requires Inv(s) && Defined(s, cmd) && CStringArg(cmd)
    ensures Inv(t.next)
    ensures Live(s) <= Live(t.next)
    ensures InRange(s) ==> InRange(t.next)
    ensures t.reply == Made(TableFull, None) ==> s.count == Capacity && t.next == s
    ensures (t.reply.Listed? || t.reply == Quit || t.reply == InvalidInput) ==> t.next == s
  {
    match cmd
    case Cd(name) =>
      var outcome := ChangeDir(s, name);
      assert outcome.Entered? ==> outcome.to < Capacity by {
        if outcome.Entered? { CdEntersChildDirectory(s, name); }
      }
      Transition(AfterCd(s, outcome), Moved(outcome))
    case Mkdir(name) =>
      CreateAppends(s, DirKind, name);
      Transition(Create(s, DirKind, name), Made(CreateStatusOf(s, name), MarkerOf(s, DirKind, name)))
    case Touch(name) =>
      CreateAppends(s, FileKind, name);
      Transition(Create(s, FileKind, name), Made(CreateStatusOf(s, name), MarkerOf(s, FileKind, name)))
    case Ls => Transition(s, Listed(Children(Live(s), s.cursor)))
    case Exit => Transition(s, Quit)
    case Invalid => Transition(s, InvalidInput)
  }

  /** The lines of a session, run from state s: each line is parsed and
      applied until "exit" (save), a full-table create (abort) or the last
      line (save). */
  function Run(s: State, lines: seq<seq<byte>>): (State, SessionEnd)
    requires Inv(s) && InRange(s)
    decreases |lines|
  {
    if lines == [] then (s, Saved(Live(s)))
    else
      var t := Apply(s, ParseLine(lines[0]));
      if t.reply == Quit then (t.next, Saved(Live(t.next)))
      else if t.reply == Made(TableFull, None) then (t.next, Aborted)
      else Run(t.next, lines[1..])
  }

  /** Over a whole session: the invariant holds at the end, the records of
      the starting table are never changed or removed, an abort happens only
      with 1024 live records, and what is saved is exactly the final live
      table, which loads back unchanged. */
  lemma {:induction false} RunFacts(s: State, lines: seq<seq<byte>>)
    requires Inv(s) && InRange(s)
    ensures Inv(Run(s, lines).0) && InRange(Run(s, lines).0)
    ensures Live(s) <= Live(Run(s, lines).0)
    ensures Run(s, lines).1.Aborted? ==> Run(s, lines).0.count == Capacity
    ensures Run(s, lines).1.Saved? ==>
      && Run(s, lines).1.records == Live(Run(s, lines).0)
      && Survivors(Run(s, lines).1.records) == Run(s, lines).1.records
    decreases |lines|
  {
    var (u, end) := Run(s, lines);
    if lines != [] {
      var t := Apply(s, ParseLine(lines[0]));
      if t.reply != Quit && t.reply != Made(TableFull, None) {
        RunFacts(t.next, lines[1..]);
      }
    }
    if end.Saved? {
      SurvivorsOfWellFormed(Live(u));
    }
  }
}
