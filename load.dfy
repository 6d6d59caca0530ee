/** What the validation/compaction pass of loadInodeList (main.c:40-54)
    leaves behind, stated on the sequence of records that `fread` returned. */
module Load {
  import opened Bytes
  import opened Inodes

  /** What the pass leaves in a slot it visits and does not overwrite
      afterwards: an admissible record gets its terminator forced in place
      before it is copied down; any other record is left as read. */
  function Scrubbed(r: Inode): Inode
  {
    if Admissible(r) then Terminated(r) else r
  }

  /** The records load keeps: the admissible ones, terminated, in the order
      read. Ids are kept as read, never renumbered. */
  function Survivors(read: seq<Inode>): (live: seq<Inode>)
    ensures |live| <= |read|
    ensures forall k | 0 <= k < |live| :: WellFormed(live[k])
  {
    if read == [] then []
    else
      var last := read[|read| - 1];
      Survivors(read[..|read| - 1]) + (if Admissible(last) then [Terminated(last)] else [])
  }

  /** The positions, in the records read, of the records load keeps. Its
      contract says that Survivors is exactly the subsequence of admissible
      records: every kept position is admissible and every admissible
      position is kept, in increasing order. */
  function Kept(read: seq<Inode>): (idx: seq<nat>)
    ensures |idx| == |Survivors(read)|
    ensures forall k | 0 <= k < |idx| ::
      idx[k] < |read| && Admissible(read[idx[k]]) && Survivors(read)[k] == Terminated(read[idx[k]])
    ensures forall k, l | 0 <= k < l < |idx| :: idx[k] < idx[l]
    ensures forall j | 0 <= j < |read| && Admissible(read[j]) :: j in idx
  {
    if read == [] then []
    else
      var n := |read| - 1;
      var front := read[..n];
      var idx := Kept(front);
      assert forall k | 0 <= k < |idx| :: read[idx[k]] == front[idx[k]];
      if Admissible(read[n]) then idx + [n] else idx
  }

  /** Survivors of a concatenation is the concatenation of the survivors:
      the order of the records read is the order of the records kept. */
  lemma {:induction false} SurvivorsAppend(a: seq<Inode>, b: seq<Inode>)
    ensures Survivors(a + b) == Survivors(a) + Survivors(b)
  {
    if b == [] {
      assert a + b == a;
    } else {
      var n := |b| - 1;
      assert (a + b)[..|a + b| - 1] == a + b[..n];
      SurvivorsAppend(a, b[..n]);
    }
  }

  /** A table whose records are all well formed loads back unchanged: saving
      the live records and loading them again is the identity. */
  lemma {:induction false} SurvivorsOfWellFormed(s: seq<Inode>)
    requires forall k | 0 <= k < |s| :: WellFormed(s[k])
    ensures Survivors(s) == s
  {
    if s != [] {
      var n := |s| - 1;
      assert s[n].name[NameSize - 1 := Nul] == s[n].name;
      SurvivorsOfWellFormed(s[..n]);
    }
  }

  /** Load never drops an admissible record, whatever its name field holds:
      as many records survive as were read. */
  lemma {:induction false} AllAdmissibleKept(s: seq<Inode>)
    requires forall k | 0 <= k < |s| :: Admissible(s[k])
    ensures |Survivors(s)| == |s|
  {
    if s != [] {
      AllAdmissibleKept(s[..|s| - 1]);
    }
  }

  /** One record with a bad id or type among the records read is dropped and
      the rest close up around it; when the others are all admissible the
      count is one less than the number read. */
  lemma DropsOneInvalid(a: seq<Inode>, x: Inode, b: seq<Inode>)
    requires !Admissible(x)
    ensures Survivors(a + [x] + b) == Survivors(a + b)
    ensures (forall k | 0 <= k < |a + b| :: Admissible((a + b)[k])) ==>
              |Survivors(a + [x] + b)| == |a + [x] + b| - 1
  {
    SurvivorsAppend(a + [x], b);
    SurvivorsAppend(a, [x]);
    SurvivorsAppend(a, b);
    assert Survivors([x]) == [] by {
      assert [x][..0] == [];
    }
    if forall k | 0 <= k < |a + b| :: Admissible((a + b)[k]) {
      AllAdmissibleKept(a + b);
    }
  }

  /** Where the in-place pass stands after visiting the first i of the
      records read, `kept` of them admissible: the front of the array holds
      their survivors, the visited slots above it hold what the visit left
      there, the unvisited slots still hold the records read, and the slots
      past the records read are untouched. */
  ghost predicate Packed(a: seq<Inode>, before: seq<Inode>, read: seq<Inode>, i: nat, kept: nat)
  {
    && |a| == |before| && |read| <= |a|
    && kept <= i <= |read|
    && a[..kept] == Survivors(read[..i])
    && (forall j | kept <= j < i :: a[j] == Scrubbed(read[j]))
    && (forall j | i <= j < |read| :: a[j] == read[j])
    && (forall j | |read| <= j < |a| :: a[j] == before[j])
  }

  /** Once the records read are in the array, nothing has been visited. */
  lemma PackedStart(a: seq<Inode>, before: seq<Inode>, read: seq<Inode>)
    requires |a| == |before| && |read| <= |a|
    requires forall j | 0 <= j < |read| :: a[j] == read[j]
    requires forall j | |read| <= j < |a| :: a[j] == before[j]
    ensures Packed(a, before, read, 0, 0)
  {
    assert read[..0] == [];
  }

  /** One visit: an admissible record is terminated in its own slot and
      copied to slot `kept`; any other record is skipped. */
  lemma PackedNext(a: seq<Inode>, before: seq<Inode>, read: seq<Inode>, i: nat, kept: nat)
    requires Packed(a, before, read, i, kept) && i < |read|
    ensures a[i] == read[i]
    ensures Admissible(read[i]) ==>
      Packed(a[i := Terminated(read[i])][kept := Terminated(read[i])], before, read, i + 1, kept + 1)
    ensures !Admissible(read[i]) ==> Packed(a, before, read, i + 1, kept)
  {
    var x := read[i];
    var p := read[..i + 1];
    assert p[..|p| - 1] == read[..i];
    if Admissible(x) {
      var t := Terminated(x);
      var b := a[i := t][kept := t];
      assert Survivors(p) == Survivors(read[..i]) + [t];
      assert b[..kept + 1] == a[..kept] + [t];
    } else {
      assert Survivors(p) == Survivors(read[..i]);
    }
  }

  /** After the last visit the front of the array is exactly the survivors. */
  lemma PackedEnd(a: seq<Inode>, before: seq<Inode>, read: seq<Inode>, kept: nat)
    requires Packed(a, before, read, |read|, kept)
    ensures kept <= |read| && a[..kept] == Survivors(read)
    ensures forall j | 0 <= j < kept :: WellFormed(a[j])
    ensures forall j | kept <= j < |read| :: a[j] == Scrubbed(read[j])
    ensures forall j | |read| <= j < |a| :: a[j] == before[j]
  {
    assert read[..|read|] == read;
    assert forall j | 0 <= j < kept :: a[j] == Survivors(read)[j];
  }

  /** Load keeps ids rather than renumbering them, so a table whose ids were
      dense before load need not be after it: here the record with id 2 ends
      up in slot 1. */
  lemma LoadKeepsIds()
    ensures exists read: seq<Inode> :: DenseIds(read) && !DenseIds(Survivors(read))
  {
    var root := Inode(0, 0, DirKind, Blank.name);
    var bad := Inode(1, 0, 0, Blank.name);
    var docs := Inode(2, 0, DirKind, Blank.name);
    var read := [root, bad, docs];
    assert read[..2][..1] == [root];
    assert read[..2] == [root, bad];
    assert Survivors([root]) == [Terminated(root)] by {
      assert [root][..0] == [];
    }
    assert Survivors(read) == [Terminated(root), Terminated(docs)];
    assert DenseIds(read);
    assert Survivors(read)[1].inode == 2;
  }
}
