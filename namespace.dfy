/** The inode table as a value, and what changeDirectory (main.c:82-108),
    listContents (main.c:111-121), createDirectory (main.c:124-165) and
    createFile (main.c:167-208) do to it. The class in table.dfy runs the
    same operations in place on an array and is proved to agree with these
    definitions. */
module Namespace {
  import opened Bytes
  import opened Inodes

  /** The program's globals: all 1024 slots of inodeList (the live prefix and
      whatever is left beyond it), inodeCount and currentInode. */
  datatype State = State(slots: seq<Inode>, count: nat, cursor: u32)

  /** What every reachable state satisfies. */
  predicate Inv(s: State)
  {
    && |s.slots| == Capacity
    && s.count <= Capacity
    && forall i | 0 <= i < s.count :: WellFormed(s.slots[i])
  }

  /** The live records, in storage order. */
  function Live(s: State): seq<Inode>
    requires s.count <= |s.slots|
  {
    s.slots[..s.count]
  }

  /** Every slot names a parent inside the array and so does the cursor:
      under this condition `cd ..` never reads past the array. */
  predicate InRange(s: State)
  {
    && s.cursor < Capacity
    && forall i | 0 <= i < |s.slots| :: s.slots[i].parentInode < Capacity
  }

  // ---------------------------------------------------------------- lookup

  /** The test both scans apply to a record: it lives under `parent` and its
      name compares equal under `strcmp`. */
  predicate Matches(r: Inode, parent: u32, name: seq<byte>)
  {
    r.parentInode == parent && NameOf(r) == name
  }

  /** The first record, in storage order, that lives under `parent` and has
      this name. */
  function FindChild(live: seq<Inode>, parent: u32, name: seq<byte>): (found: Option<nat>)
    ensures found.Some? ==> found.value < |live| && Matches(live[found.value], parent, name)
    ensures found.Some? ==> forall j | 0 <= j < found.value :: !Matches(live[j], parent, name)
    ensures found.None? <==> forall j | 0 <= j < |live| :: !Matches(live[j], parent, name)
  {
    if live == [] then None
    else if Matches(live[0], parent, name) then Some(0)
    else
      match FindChild(live[1..], parent, name)
      case None => None
      case Some(i) => Some(i + 1)
  }

  /** The records that live under `parent`, in storage order: what `ls`
      prints. */
  function Children(live: seq<Inode>, parent: u32): (kids: seq<Inode>)
    ensures |kids| <= |live|
    ensures forall r :: r in kids <==> r in live && r.parentInode == parent
  {
    if live == [] then []
    else
      var n := |live| - 1;
      assert live == live[..n] + [live[n]];
      Children(live[..n], parent) + (if live[n].parentInode == parent then [live[n]] else [])
  }

  /** Listing keeps storage order: the children of a concatenation are the
      children of the first part followed by those of the second. */
  lemma {:induction false} ChildrenAppend(a: seq<Inode>, b: seq<Inode>, parent: u32)
    ensures Children(a + b, parent) == Children(a, parent) + Children(b, parent)
  {
    if b == [] {
      assert a + b == a;
    } else {
      var n := |b| - 1;
      assert (a + b)[..|a + b| - 1] == a + b[..n];
      ChildrenAppend(a, b[..n], parent);
    }
  }

  /** No two records under the same parent carry the same name. */
  predicate UniqueSiblings(live: seq<Inode>)
  {
    forall i, j | 0 <= i < j < |live| ::
      live[i].parentInode == live[j].parentInode ==> NameOf(live[i]) != NameOf(live[j])
  }

  // ------------------------------------------------------ change directory

  const DotDot: seq<byte> := [46, 46]               // ".."
  const DotSlashDotDot: seq<byte> := [46, 47, 46, 46] // "./.."

  /** The two spellings `cd` treats as "go to the parent". */
  predicate IsParentToken(name: seq<byte>)
  {
    name == DotDot || name == DotSlashDotDot
  }

  /** What `cd` reports, with the cursor it moves to where it moves. */
  datatype CdOutcome = AlreadyAtRoot | MovedUp(to: u32) | Entered(to: u32) | NotADirectory | NotFound

  /** The parent step reads slot `cursor` of the array; it is defined only
      while that slot exists. */
  predicate ParentStepDefined(s: State, name: seq<byte>)
  {
    IsParentToken(name) && s.cursor != 0 ==> s.cursor < |s.slots|
  }

  /** changeDirectory (main.c:82-108). The parent step uses the cursor as a
      slot index; a successful lookup stores the record's id field. */
  function ChangeDir(s: State, name: seq<byte>): CdOutcome
    requires s.count <= |s.slots|
    requires Nul !in name && ParentStepDefined(s, name)
  {
    if IsParentToken(name) then
      if s.cursor == 0 then AlreadyAtRoot else MovedUp(s.slots[s.cursor].parentInode)
    else
      match FindChild(Live(s), s.cursor, name)
      case None => NotFound
      case Some(i) => if s.slots[i].kind != DirKind then NotADirectory else Entered(s.slots[i].inode)
  }

  /** The state after `cd` reported `outcome`: only the cursor can change. */
  function AfterCd(s: State, outcome: CdOutcome): State
  {
    match outcome
    case MovedUp(to) => s.(cursor := to)
    case Entered(to) => s.(cursor := to)
    case _ => s
  }

  /** At the root the parent step does nothing; elsewhere it moves to the
      parentInode of the slot the cursor indexes. */
  lemma CdParent(s: State, name: seq<byte>)
    requires Inv(s) && IsParentToken(name) && Nul !in name && ParentStepDefined(s, name)
    ensures s.cursor == 0 ==> AfterCd(s, ChangeDir(s, name)) == s
    ensures s.cursor != 0 ==> AfterCd(s, ChangeDir(s, name)) == s.(cursor := s.slots[s.cursor].parentInode)
  {
  }

  /** While ids are dense, the slot the parent step reads is the record whose
      id is the cursor. */
  lemma CdParentOfDense(s: State, name: seq<byte>)
    requires Inv(s) && IsParentToken(name) && Nul !in name && DenseIds(Live(s))
    requires 0 < s.cursor < s.count
    ensures exists i | 0 <= i < s.count ::
      s.slots[i].inode == s.cursor && ChangeDir(s, name) == MovedUp(s.slots[i].parentInode)
  {
    assert s.slots[s.cursor] == Live(s)[s.cursor];
  }

  /** Only the first matching record decides the outcome: when it is not a
      directory `cd` fails, even if a directory of the same name comes later. */
  lemma CdFirstMatch(s: State, name: seq<byte>, i: nat)
    requires Inv(s) && !IsParentToken(name) && Nul !in name
    requires i < s.count && Matches(s.slots[i], s.cursor, name)
    requires forall j | 0 <= j < i :: !Matches(s.slots[j], s.cursor, name)
    ensures ChangeDir(s, name) ==
      if s.slots[i].kind == DirKind then Entered(s.slots[i].inode) else NotADirectory
  {
    var live := Live(s);
    assert forall j | 0 <= j < s.count :: live[j] == s.slots[j];
    var f := FindChild(live, s.cursor, name);
    assert f.Some?;
    assert f.value == i;
  }

  /** `cd` fails with "not found" exactly when no live record under the
      cursor has that name. */
  lemma CdNotFound(s: State, name: seq<byte>)
    requires Inv(s) && !IsParentToken(name) && Nul !in name
    ensures ChangeDir(s, name) == NotFound <==>
      forall j | 0 <= j < s.count :: !Matches(s.slots[j], s.cursor, name)
  {
    var live := Live(s);
    assert forall j | 0 <= j < s.count :: live[j] == s.slots[j];
  }

  /** A successful `cd name` lands on the id of a directory living under the
      old cursor, and that id is inside the table. */
  lemma CdEntersChildDirectory(s: State, name: seq<byte>)
    requires Inv(s) && Nul !in name && ParentStepDefined(s, name)
    requires ChangeDir(s, name).Entered?
    ensures ChangeDir(s, name).to < Capacity
    ensures exists i | 0 <= i < s.count ::
      Matches(s.slots[i], s.cursor, name) && s.slots[i].kind == DirKind &&
      s.slots[i].inode == ChangeDir(s, name).to
  {
    var live := Live(s);
    assert forall j | 0 <= j < s.count :: live[j] == s.slots[j];
    var i := FindChild(live, s.cursor, name).value;
    assert WellFormed(s.slots[i]);
  }

  /** `cd` compares the whole argument, while stored names have at most 31
      bytes: an argument of 32 bytes or more is never found. */
  lemma CdLongNameNotFound(s: State, name: seq<byte>)
    requires Inv(s) && Nul !in name && |name| >= NameSize
    ensures ChangeDir(s, name) == NotFound
  {
    forall j | 0 <= j < s.count
      ensures !Matches(s.slots[j], s.cursor, name)
    {
      NameOfShort(s.slots[j]);
    }
    CdNotFound(s, name);
  }

  // ------------------------------------------------------------- creation

  /** How a create ends: a record appended, a sibling of that name already
      there, or the table full (the program exits with status 1). */
  datatype CreateStatus = Created | NameExists | TableFull

  /** The name field a new record gets: the first 31 bytes of the argument,
      NUL padded (main.c:149-150). */
  function StoredName(name: seq<byte>): Name
  {
    var t := Truncate(name, NameSize - 1);
    t + seq(NameSize - |t|, _ => Nul)
  }

  /** The stored name reads back as the argument cut to 31 bytes, and its
      last byte is the terminator. */
  lemma StoredNameIsTruncation(name: seq<byte>)
    requires Nul !in name
    ensures CString(StoredName(name)) == Truncate(name, NameSize - 1)
    ensures StoredName(name)[NameSize - 1] == Nul
  {
    var t := Truncate(name, NameSize - 1);
    assert t <= name;
    assert Nul !in t by {
      forall k | 0 <= k < |t| ensures t[k] != Nul {
        assert t[k] == name[k];
      }
    }
    TakeUntilIs(StoredName(name), Nul, t);
  }

  /** The record a create appends: id = old count, parent = cursor. */
  function NewRecord(id: nat, parent: u32, kind: byte, name: seq<byte>): Inode
    requires id < Capacity
  {
    Inode(id, parent, kind, StoredName(name))
  }

  /** The duplicate check (on the argument cut to 32 bytes) runs first, then
      the capacity check (main.c:126-143). */
  function CreateStatusOf(s: State, name: seq<byte>): CreateStatus
    requires s.count <= |s.slots|
  {
    if FindChild(Live(s), s.cursor, Truncate(name, NameSize)).Some? then NameExists
    else if s.count >= Capacity then TableFull
    else Created
  }

  /** The state after a create of a record of type `kind`. */
  function Create(s: State, kind: byte, name: seq<byte>): State
    requires |s.slots| == Capacity && s.count <= Capacity
  {
    if CreateStatusOf(s, name) == Created then
      State(s.slots[s.count := NewRecord(s.count, s.cursor, kind, name)], s.count + 1, s.cursor)
    else s
  }

  /** A successful create appends exactly one well-formed record and keeps
      everything else: the earlier records, the cursor, the slots beyond. A
      failed one changes nothing. Dense ids stay dense. */
  lemma CreateAppends(s: State, kind: byte, name: seq<byte>)
    requires Inv(s) && Nul !in name && (kind == DirKind || kind == FileKind)
    ensures Inv(Create(s, kind, name))
    ensures Create(s, kind, name).cursor == s.cursor
    ensures CreateStatusOf(s, name) == Created ==>
      && Create(s, kind, name).count == s.count + 1
      && Live(Create(s, kind, name)) == Live(s) + [NewRecord(s.count, s.cursor, kind, name)]
      && forall i | s.count < i < Capacity :: Create(s, kind, name).slots[i] == s.slots[i]
    ensures CreateStatusOf(s, name) != Created ==> Create(s, kind, name) == s
    ensures DenseIds(Live(s)) ==> DenseIds(Live(Create(s, kind, name)))
  {
    StoredNameIsTruncation(name);
    if CreateStatusOf(s, name) == Created {
      var t := Create(s, kind, name);
      assert Live(t) == Live(s) + [NewRecord(s.count, s.cursor, kind, name)];
    }
  }

  /** The duplicate check runs before the capacity check: a name clash is
      reported as such even in a full table. Without a clash, a full table
      makes create fail and append nothing. */
  lemma CreateCheckOrder(s: State, name: seq<byte>)
    requires Inv(s)
    ensures (exists i | 0 <= i < s.count :: Matches(s.slots[i], s.cursor, Truncate(name, NameSize)))
              ==> CreateStatusOf(s, name) == NameExists
    ensures (forall i | 0 <= i < s.count :: !Matches(s.slots[i], s.cursor, Truncate(name, NameSize)))
              ==> CreateStatusOf(s, name) == (if s.count == Capacity then TableFull else Created)
  {
    var live := Live(s);
    assert forall j | 0 <= j < s.count :: live[j] == s.slots[j];
  }

  /** Stored names have at most 31 bytes while the duplicate check compares
      with the argument cut to 32: an argument of 32 bytes or more never
      collides. */
  lemma LongNameNeverCollides(s: State, name: seq<byte>)
    requires Inv(s) && |name| >= NameSize
    ensures FindChild(Live(s), s.cursor, Truncate(name, NameSize)) == None
    ensures CreateStatusOf(s, name) != NameExists
  {
    var live := Live(s);
    forall j | 0 <= j < |live|
      ensures !Matches(live[j], s.cursor, Truncate(name, NameSize))
    {
      assert live[j] == s.slots[j];
      NameOfShort(live[j]);
    }
  }

  /** Creating the same long name twice under one parent succeeds both times
      and leaves two siblings whose stored names are identical. */
  lemma RepeatedLongName(s: State, kind: byte, name: seq<byte>)
    requires Inv(s) && Nul !in name && (kind == DirKind || kind == FileKind)
    requires |name| >= NameSize && s.count + 2 <= Capacity
    ensures CreateStatusOf(s, name) == Created
    ensures CreateStatusOf(Create(s, kind, name), name) == Created
    ensures var u := Create(Create(s, kind, name), kind, name);
      && u.count == s.count + 2
      && Matches(u.slots[s.count], s.cursor, Truncate(name, NameSize - 1))
      && Matches(u.slots[s.count + 1], s.cursor, Truncate(name, NameSize - 1))
      && !UniqueSiblings(Live(u))
  {
    LongNameNeverCollides(s, name);
    CreateAppends(s, kind, name);
    var t := Create(s, kind, name);
    LongNameNeverCollides(t, name);
    CreateAppends(t, kind, name);
    var u := Create(t, kind, name);
    StoredNameIsTruncation(name);
    var r0, r1 := NewRecord(s.count, s.cursor, kind, name), NewRecord(s.count + 1, s.cursor, kind, name);
    var live := Live(u);
    assert live == Live(s) + [r0] + [r1];
    assert live[s.count] == r0 == u.slots[s.count];
    assert live[s.count + 1] == r1 == u.slots[s.count + 1];
    assert NameOf(r0) == NameOf(r1) == Truncate(name, NameSize - 1);
  }

  /** For names of at most 31 bytes the two truncations agree, so a
      successful create keeps siblings unique. */
  lemma ShortNameKeepsSiblingsUnique(s: State, kind: byte, name: seq<byte>)
    requires Inv(s) && Nul !in name && (kind == DirKind || kind == FileKind)
    requires |name| < NameSize && UniqueSiblings(Live(s))
    ensures UniqueSiblings(Live(Create(s, kind, name)))
  {
    CreateAppends(s, kind, name);
    if CreateStatusOf(s, name) == Created {
      StoredNameIsTruncation(name);
      var live := Live(Create(s, kind, name));
      var r := NewRecord(s.count, s.cursor, kind, name);
      assert live == Live(s) + [r];
      assert NameOf(r) == Truncate(name, NameSize);
      forall i, j | 0 <= i < j < |live| && live[i].parentInode == live[j].parentInode
        ensures NameOf(live[i]) != NameOf(live[j])
      {
        if j == s.count {
          assert live[i] == Live(s)[i];
          assert !Matches(Live(s)[i], s.cursor, Truncate(name, NameSize));
        } else {
          assert live[i] == Live(s)[i] && live[j] == Live(s)[j];
        }
      }
    }
  }

  /** After a successful create of a name of at most 31 bytes, creating it
      again under the same parent, with either type, reports a clash; under
      another parent the new record is not in the way. */
  lemma SecondCreateClashes(s: State, kind: byte, name: seq<byte>, other: u32)
    requires Inv(s) && Nul !in name && (kind == DirKind || kind == FileKind)
    requires |name| < NameSize && CreateStatusOf(s, name) == Created
    requires other != s.cursor
    ensures CreateStatusOf(Create(s, kind, name), name) == NameExists
    ensures FindChild(Live(Create(s, kind, name)), other, Truncate(name, NameSize)) ==
            FindChild(Live(s), other, Truncate(name, NameSize))
  {
    CreateAppends(s, kind, name);
    StoredNameIsTruncation(name);
    var t := Create(s, kind, name);
    var r := NewRecord(s.count, s.cursor, kind, name);
    assert Live(t) == Live(s) + [r];
    assert Matches(Live(t)[s.count], s.cursor, Truncate(name, NameSize));
    FindAppendMiss(Live(s), r, other, Truncate(name, NameSize));
  }

  /** Appending a record that does not match leaves the first match where it
      was. */
  lemma FindAppendMiss(live: seq<Inode>, r: Inode, parent: u32, name: seq<byte>)
    requires !Matches(r, parent, name)
    ensures FindChild(live + [r], parent, name) == FindChild(live, parent, name)
  {
    var f := FindChild(live + [r], parent, name);
    var g := FindChild(live, parent, name);
    assert forall j | 0 <= j < |live| :: (live + [r])[j] == live[j];
    if g.Some? {
      assert f.Some?;
      assert f.value == g.value;
    }
  }

  // -------------------------------------------------------- marker files

  /** The text file a create writes beside the table: named by the new id,
      holding "id\n parent\n" for a directory (main.c:163) or the name cut to
      32 bytes and "\n" for a file (main.c:206). */
  datatype Marker = Marker(fileName: seq<byte>, content: seq<byte>)

  function DirectoryMarker(id: nat, parent: u32): Marker
  {
    Marker(Digits(id), Digits(id) + [Newline, Space] + Digits(parent) + [Newline])
  }

  function FileMarker(id: nat, name: seq<byte>): Marker
  {
    Marker(Digits(id), Truncate(name, NameSize) + [Newline])
  }

  /** A directory marker's first line is its own file name, the new id in
      decimal, which reads back as that id. */
  lemma DirectoryMarkerFirstLine(id: nat, parent: u32)
    ensures DirectoryMarker(id, parent).fileName == Digits(id)
    ensures TakeUntil(DirectoryMarker(id, parent).content, Newline) == Digits(id)
    ensures DigitsValue(Digits(id)) == id
  {
    var d, p := Digits(id), Digits(parent);
    NoNewlineInDigits(d);
    NoNewlineInDigits(p);
    TwoLines(DirectoryMarker(id, parent).content, d, p);
    DigitsRoundTrip(id);
  }

  /** After the first line and the space, a directory marker's second line
      is the parent id in decimal, which reads back as that id. */
  lemma DirectoryMarkerSecondLine(id: nat, parent: u32)
    ensures |Digits(id)| + 2 <= |DirectoryMarker(id, parent).content|
    ensures TakeUntil(DirectoryMarker(id, parent).content[|Digits(id)| + 2..], Newline) == Digits(parent)
    ensures DigitsValue(Digits(parent)) == parent
  {
    var d, p := Digits(id), Digits(parent);
    NoNewlineInDigits(d);
    NoNewlineInDigits(p);
    TwoLines(DirectoryMarker(id, parent).content, d, p);
    DigitsRoundTrip(parent);
  }

  lemma NoNewlineInDigits(d: seq<byte>)
    requires forall k | 0 <= k < |d| :: IsDigit(d[k])
    ensures Newline !in d
  {
    assert forall k | 0 <= k < |d| :: d[k] != Newline;
  }

  /** "d\n p\n" read line by line, skipping the space, gives back d and p. */
  lemma TwoLines(c: seq<byte>, d: seq<byte>, p: seq<byte>)
    requires Newline !in d && Newline !in p
    requires c == d + [Newline, Space] + p + [Newline]
    ensures TakeUntil(c, Newline) == d
    ensures |d| + 2 <= |c| && TakeUntil(c[|d| + 2..], Newline) == p
  {
    assert c[|d|] == Newline;
    TakeUntilIs(c, Newline, d);
    assert c[|d| + 2..] == p + [Newline];
    TakeUntilIs(p + [Newline], Newline, p);
  }

  /** A file marker's first line is the argument cut to 32 bytes. */
  lemma FileMarkerReadsBack(id: nat, name: seq<byte>)
    requires Newline !in name
    ensures TakeUntil(FileMarker(id, name).content, Newline) == Truncate(name, NameSize)
  {
    var t := Truncate(name, NameSize);
    assert Newline !in t by {
      forall k | 0 <= k < |t| ensures t[k] != Newline {
        assert t[k] == name[k];
      }
    }
    TakeUntilIs(t + [Newline], Newline, t);
  }
}
