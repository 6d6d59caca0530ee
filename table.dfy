/** The program's global state (main.c:15-17) as an object: the 1024-slot
    array, the live count and the cursor, with the operations of main.c run
    in place on them, loop for loop. Each method is proved to leave the state
    that the value-level definitions of Load, Namespace and Session
    describe. */
module Table {
  import opened Bytes
  import opened Inodes
  import opened Load
  import opened Namespace
  import opened Commands
  import opened Session

  class InodeTable {
    var slots: array<Inode>   // inodeList
    var count: nat            // inodeCount
    var currentInode: u32     // currentInode

    /** The state as a value. */
    function Snapshot(): State
      reads this, slots
    {
      State(slots[..], count, currentInode)
    }

    /** The invariant of `Namespace.Inv`, stated on the fields rather than on
        `Snapshot()` so that the methods' proofs need not reason about the
        sequence `slots[..]` where the fields suffice; its ensures ties the
        two statements together. */
    ghost predicate Valid()
      reads this, slots
      ensures Valid() ==> Inv(Snapshot())
    {
      && slots.Length == Capacity
      && count <= Capacity
      && forall i | 0 <= i < count :: WellFormed(slots[i])
    }

    /** The zero-initialised globals at process start. */
    constructor ()
      ensures Valid() && fresh(slots)
      ensures Snapshot() == State(seq(Capacity, _ => Blank), 0, 0)
    {
      slots := new Inode[Capacity](_ => Blank);
      count := 0;
      currentInode := 0;
    }

    /** loadInodeList (main.c:28-66), given the records `fread` returned: they
        are copied into the first slots, then the admissible ones are
        terminated and packed to the front in order. The cursor is not
        touched. Slots the packing does not reach keep what the pass left in
        them. */
    method LoadInodeList(read: seq<Inode>)
      requires Valid() && |read| <= Capacity
      modifies this`count, slots
      ensures Valid()
      ensures Live(Snapshot()) == Survivors(read)
      ensures count <= |read|
      ensures forall j | count <= j < |read| :: slots[j] == Scrubbed(read[j])
      ensures forall j | |read| <= j < Capacity :: slots[j] == old(slots[j])
    {
      ghost var before := slots[..];
      CopyIn(read);
      PackedStart(slots[..], before, read);
      var validCount := 0;
      for i := 0 to |read|
        invariant Packed(slots[..], before, read, i, validCount)
      {
        validCount := Visit(before, read, i, validCount);
      }
      PackedEnd(slots[..], before, read, validCount);
      count := validCount;
    }

    /** The `fread` of loadInodeList (main.c:36-38): the records read land
        in the first slots; the others keep their contents. */
    method CopyIn(read: seq<Inode>)
      requires slots.Length == Capacity && |read| <= Capacity
      modifies slots
      ensures forall j | 0 <= j < |read| :: slots[j] == read[j]
      ensures forall j | |read| <= j < Capacity :: slots[j] == old(slots[j])
    {
      forall j | 0 <= j < |read| {
        slots[j] := read[j];
      }
    }

    /** One pass of the validation loop of loadInodeList (main.c:41-54) at
        slot i: a record with an inode number of 1024 or more, or a type
        other than 'd' or 'f', is skipped; any other is terminated and copied
        to slot `kept`, the next free place at the front. */
    method Visit(ghost before: seq<Inode>, read: seq<Inode>, i: nat, kept: nat) returns (kept': nat)
      requires slots.Length == Capacity && Packed(slots[..], before, read, i, kept) && i < |read|
      modifies slots
      ensures Packed(slots[..], before, read, i + 1, kept')
    {
      ghost var a := slots[..];
      PackedNext(a, before, read, i, kept);
      kept' := kept;
      var r := slots[i];
      if r.inode >= Capacity {
        // invalid inode number
      } else if r.kind != DirKind && r.kind != FileKind {
        // invalid inode type
      } else {
        r := Terminated(r);
        slots[i] := r;
        slots[kept] := r;
        assert slots[..] == a[i := r][kept := r];
        kept' := kept + 1;
      }
    }

    /** changeDirectory (main.c:82-108): the parent step, or a scan for the
        first live record under the cursor with this name. */
    method ChangeDirectory(name: seq<byte>) returns (outcome: CdOutcome)
      requires Valid() && Nul !in name && ParentStepDefined(Snapshot(), name)
      modifies this`currentInode
      ensures Valid()
      ensures outcome == ChangeDir(old(Snapshot()), name)
      ensures Snapshot() == AfterCd(old(Snapshot()), outcome)
    {
      ghost var s := Snapshot();
      if name == DotDot || name == DotSlashDotDot {
        if currentInode == 0 {
          outcome := AlreadyAtRoot;
        } else {
          currentInode := slots[currentInode].parentInode;
          outcome := MovedUp(currentInode);
        }
        return;
      }
      var i := 0;
      while i < count
        invariant i <= count
        invariant forall j | 0 <= j < i :: !Matches(s.slots[j], s.cursor, name)
      {
        if slots[i].parentInode == currentInode && CString(slots[i].name) == name {
          CdFirstMatch(s, name, i);
          if slots[i].kind != DirKind {
            outcome := NotADirectory;
            return;
          }
          currentInode := slots[i].inode;
          outcome := Entered(currentInode);
          return;
        }
        i := i + 1;
      }
      CdNotFound(s, name);
      outcome := NotFound;
    }

    /** listContents (main.c:111-121): the live records under the cursor, in
        storage order. Nothing changes. */
    method ListContents() returns (listing: seq<Inode>)
      requires Valid()
      ensures listing == Children(Live(Snapshot()), currentInode)
    {
      listing := [];
      for i := 0 to count
        invariant listing == Children(slots[..i], currentInode)
      {
        assert slots[..i + 1][..i] == slots[..i];
        if slots[i].parentInode == currentInode {
          listing := listing + [slots[i]];
        }
      }
      assert slots[..count] == Live(Snapshot());
    }

    /** The duplicate scan of the create functions (main.c:131-137, 174-180):
        is there a live record under the cursor with this name? */
    method SiblingNamed(target: seq<byte>) returns (found: bool)
      requires Valid()
      ensures found <==> exists i | 0 <= i < count :: Matches(slots[i], currentInode, target)
      ensures found <==> FindChild(Live(Snapshot()), currentInode, target).Some?
    {
      ghost var live := Live(Snapshot());
      assert forall j | 0 <= j < count :: live[j] == slots[j];
      found := false;
      var i := 0;
      while i < count
        invariant i <= count
        invariant forall j | 0 <= j < i :: !Matches(slots[j], currentInode, target)
      {
        if slots[i].parentInode == currentInode && CString(slots[i].name) == target {
          found := true;
          return;
        }
        i := i + 1;
      }
    }

    /** The body shared by createDirectory and createFile (main.c:124-151,
        167-194): duplicate check on the argument cut to 32 bytes, then the
        capacity check, then the new record written at slot `count`. */
    method Insert(name: seq<byte>, kind: byte) returns (status: CreateStatus)
      requires Valid() && Nul !in name && (kind == DirKind || kind == FileKind)
      modifies this`count, slots
      ensures Valid()
      ensures status == CreateStatusOf(old(Snapshot()), name)
      ensures Snapshot() == Create(old(Snapshot()), kind, name)
    {
      CreateAppends(Snapshot(), kind, name);
      var truncated := Truncate(name, NameSize);
      var clash := SiblingNamed(truncated);
      if clash {
        return NameExists;
      }
      if count >= Capacity {
        return TableFull;
      }
      slots[count] := NewRecord(count, currentInode, kind, name);
      count := count + 1;
      status := Created;
    }

    /** createDirectory (main.c:124-165); the marker file it writes afterwards
        is returned as a value. */
    method CreateDirectory(name: seq<byte>) returns (status: CreateStatus, marker: Option<Marker>)
      requires Valid() && Nul !in name
      modifies this`count, slots
      ensures Valid()
      ensures status == CreateStatusOf(old(Snapshot()), name)
      ensures Snapshot() == Create(old(Snapshot()), DirKind, name)
      ensures marker == MarkerOf(old(Snapshot()), DirKind, name)
    {
      status := Insert(name, DirKind);
      marker := if status == Created then Some(DirectoryMarker(count - 1, currentInode)) else None;
    }

    /** createFile (main.c:167-208); the marker file it writes afterwards is
        returned as a value. */
    method CreateFile(name: seq<byte>) returns (status: CreateStatus, marker: Option<Marker>)
      requires Valid() && Nul !in name
      modifies this`count, slots
      ensures Valid()
      ensures status == CreateStatusOf(old(Snapshot()), name)
      ensures Snapshot() == Create(old(Snapshot()), FileKind, name)
      ensures marker == MarkerOf(old(Snapshot()), FileKind, name)
    {
      status := Insert(name, FileKind);
      marker := if status == Created then Some(FileMarker(count - 1, name)) else None;
    }

    /** saveInodeList (main.c:69-79): the live records, which load back
        unchanged. */
    method SaveInodeList() returns (written: seq<Inode>)
      requires Valid()
      ensures written == Live(Snapshot())
      ensures Survivors(written) == written
    {
      written := slots[..count];
      SurvivorsOfWellFormed(written);
    }

    /** One pass of the command loop (main.c:242-279): parse the line and run
        the command it names. */
    method Step(line: seq<byte>) returns (reply: Reply)
      requires Valid() && Defined(Snapshot(), ParseLine(line))
      modifies this, slots
      ensures Valid() && slots == old(slots)
      ensures Transition(Snapshot(), reply) == Apply(old(Snapshot()), ParseLine(line))
    {
      match ParseLine(line)
      case Cd(arg) =>
        var outcome := ChangeDirectory(arg);
        reply := Moved(outcome);
      case Mkdir(arg) =>
        var status, marker := CreateDirectory(arg);
        reply := Made(status, marker);
      case Touch(arg) =>
        var status, marker := CreateFile(arg);
        reply := Made(status, marker);
      case Ls =>
        var listing := ListContents();
        reply := Listed(listing);
      case Exit =>
        reply := Quit;
      case Invalid =>
        reply := InvalidInput;
    }

    /** The command loop of main (main.c:232-290) over the lines `getline`
        delivers: it stops at "exit" or at the end of input and saves, or
        stops at a create in a full table and saves nothing. */
    method CommandLoop(lines: seq<seq<byte>>) returns (end: SessionEnd)
      requires Valid() && InRange(Snapshot())
      modifies this, slots
      ensures Valid() && slots == old(slots)
      ensures (Snapshot(), end) == Run(old(Snapshot()), lines)
    {
      var k := 0;
      while k < |lines|
        invariant k <= |lines|
        invariant Valid() && slots == old(slots) && InRange(Snapshot())
        invariant Run(Snapshot(), lines[k..]) == Run(old(Snapshot()), lines)
      {
        ghost var before := Snapshot();
        assert lines[k..][0] == lines[k] && lines[k..][1..] == lines[k + 1..];
        var reply := Step(lines[k]);
        if reply == Quit {
          var written := SaveInodeList();
          end := Saved(written);
          return;
        }
        if reply == Made(TableFull, None) {
          end := Aborted;
          return;
        }
        k := k + 1;
      }
      var written := SaveInodeList();
      end := Saved(written);
    }
  }
}
