/** A worked session, one command at a time: in a table holding only the
    root directory, "mkdir docs", "cd docs", "touch a.txt", "ls", "cd ..",
    "ls"; and a repeated "mkdir docs" at the root. The states after each step
    are written out: S0 (root only), S1 (docs added), S1 with cursor 1, S3
    (a.txt added), S3 with cursor 0. */
module Scenario {
  import opened Bytes
  import opened Inodes
  import opened Namespace
  import opened Commands
  import opened Session

  const Docs: seq<byte> := [100, 111, 99, 115]        // "docs"
  const File: seq<byte> := [97, 46, 116, 120, 116]    // "a.txt"

  const Root: Inode := Inode(0, 0, DirKind, Blank.name)
  const DocsDir: Inode := Inode(1, 0, DirKind, StoredName(Docs))
  const FileRec: Inode := Inode(2, 1, FileKind, StoredName(File))

  /** The table with only the root directory, cursor at the root. */
  function S0(): State { State([Root] + seq(Capacity - 1, _ => Blank), 1, 0) }
  function S1(): State { State(S0().slots[1 := DocsDir], 2, 0) }
  function S3(): State { State(S1().slots[2 := FileRec], 3, 1) }

  lemma NamesReadBack()
    ensures NameOf(Root) == []
    ensures NameOf(DocsDir) == Docs && NameOf(FileRec) == File
  {
    TakeUntilIs(Root.name, Nul, []);
    StoredNameIsTruncation(Docs);
    StoredNameIsTruncation(File);
  }

  /** "mkdir docs" appends record 1 under the root. */
  lemma MkdirDocs()
    ensures Inv(S0())
    ensures Apply(S0(), Mkdir(Docs)) == Transition(S1(), Made(Created, Some(DirectoryMarker(1, 0))))
  {
    NamesReadBack();
    assert Live(S0()) == [Root];
    assert !Matches(Root, 0, Truncate(Docs, NameSize));
    CreateAppends(S0(), DirKind, Docs);
  }

  /** "cd docs" moves the cursor to 1. */
  lemma CdDocs()
    ensures Inv(S1())
    ensures Apply(S1(), Cd(Docs)) == Transition(S1().(cursor := 1), Moved(Entered(1)))
  {
    MkdirDocs();
    NamesReadBack();
    assert S1().slots[0] == Root && S1().slots[1] == DocsDir;
    CdFirstMatch(S1(), Docs, 1);
  }

  /** "touch a.txt" inside docs appends record 2 under record 1. */
  lemma TouchFile()
    ensures Inv(S3())
    ensures Apply(S1().(cursor := 1), Touch(File)) == Transition(S3(), Made(Created, Some(FileMarker(2, File))))
  {
    CdDocs();
    NamesReadBack();
    var s2 := S1().(cursor := 1);
    assert Live(s2) == [Root, DocsDir];
    assert !Matches(Live(s2)[0], 1, Truncate(File, NameSize));
    assert !Matches(Live(s2)[1], 1, Truncate(File, NameSize));
    CreateAppends(s2, FileKind, File);
  }

  /** "ls" inside docs lists only a.txt. */
  lemma LsInDocs()
    ensures Inv(S3())
    ensures Apply(S3(), Ls).reply == Listed([FileRec])
  {
    TouchFile();
    var live := [Root, DocsDir] + [FileRec];
    assert Live(S3()) == live;
    assert Children(live, 1) == [FileRec] by {
      DocsChildren();
    }
  }

  /** The records under id 1 of the three-record table. */
  lemma DocsChildren()
    ensures Children([Root, DocsDir] + [FileRec], 1) == [FileRec]
  {
    ChildrenAppend([Root, DocsDir], [FileRec], 1);
    ChildrenAppend([Root], [DocsDir], 1);
    assert [Root, DocsDir] == [Root] + [DocsDir];
    assert Children([Root], 1) == [] by { assert [Root][..0] == []; }
    assert Children([DocsDir], 1) == [] by { assert [DocsDir][..0] == []; }
    assert Children([FileRec], 1) == [FileRec] by { assert [FileRec][..0] == []; }
  }

  /** "cd .." from docs goes back to the root. */
  lemma CdBack()
    ensures Inv(S3())
    ensures Apply(S3(), Cd(DotDot)) == Transition(S3().(cursor := 0), Moved(MovedUp(0)))
  {
    TouchFile();
    assert S3().slots[1] == DocsDir;
  }

  /** "ls" at the root lists docs, and the root record itself as well: its
      parentInode is 0, so it counts as its own child. */
  lemma LsAtRoot()
    ensures Inv(S3())
    ensures Apply(S3().(cursor := 0), Ls).reply == Listed([Root, DocsDir])
  {
    TouchFile();
    var s5 := S3().(cursor := 0);
    var live := [Root, DocsDir] + [FileRec];
    assert Live(s5) == live;
    assert Children(live, 0) == [Root, DocsDir] by {
      RootChildren();
    }
  }

  /** The records under id 0 of the three-record table. */
  lemma RootChildren()
    ensures Children([Root, DocsDir] + [FileRec], 0) == [Root, DocsDir]
  {
    ChildrenAppend([Root, DocsDir], [FileRec], 0);
    ChildrenAppend([Root], [DocsDir], 0);
    assert [Root, DocsDir] == [Root] + [DocsDir];
    assert Children([Root], 0) == [Root] by { assert [Root][..0] == []; }
    assert Children([DocsDir], 0) == [DocsDir] by { assert [DocsDir][..0] == []; }
    assert Children([FileRec], 0) == [] by { assert [FileRec][..0] == []; }
  }

  /** A second "mkdir docs" at the root is a clash: nothing changes. */
  lemma MkdirDocsAgain()
    ensures Inv(S1())
    ensures Apply(S1(), Mkdir(Docs)) == Transition(S1(), Made(NameExists, None))
  {
    MkdirDocs();
    NamesReadBack();
    assert Live(S1())[1] == DocsDir;
    assert Matches(Live(S1())[1], 0, Truncate(Docs, NameSize));
  }

  /** A session started from an empty table file: the first create gets id 0
      and parent 0, so the new record is its own parent. */
  const SelfRoot: Inode := Inode(0, 0, DirKind, StoredName(Docs))

  function E0(): State { State(seq(Capacity, _ => Blank), 0, 0) }
  function E1(): State { State(E0().slots[0 := SelfRoot], 1, 0) }

  /** "mkdir docs" in an empty table writes record 0 under 0. */
  lemma FirstMkdirFromEmpty()
    ensures Inv(E0())
    ensures Apply(E0(), Mkdir(Docs)) == Transition(E1(), Made(Created, Some(DirectoryMarker(0, 0))))
  {
    assert Live(E0()) == [];
    CreateAppends(E0(), DirKind, Docs);
  }

  /** "cd docs" then enters id 0, so the cursor stays where it was. */
  lemma CdIntoSelfRoot()
    ensures Inv(E1())
    ensures Apply(E1(), Cd(Docs)) == Transition(E1(), Moved(Entered(0)))
  {
    FirstMkdirFromEmpty();
    StoredNameIsTruncation(Docs);
    assert E1().slots[0] == SelfRoot;
    CdFirstMatch(E1(), Docs, 0);
  }

  /** "ls" at 0 lists the record itself. */
  lemma LsSelfRoot()
    ensures Inv(E1())
    ensures Apply(E1(), Ls).reply == Listed([SelfRoot])
  {
    FirstMkdirFromEmpty();
    assert Live(E1()) == [SelfRoot];
    assert Children([SelfRoot], 0) == [SelfRoot] by { assert [SelfRoot][..0] == []; }
  }
}
