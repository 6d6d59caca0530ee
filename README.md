# Inode table emulator — a Dafny model

The program keeps a flat file system as a table of inode records in a
static 1024-slot array. Each record has an id, a parent id, a type byte
(`'d'` or `'f'`) and a 32-byte name field. Beside the array the program
keeps the number of live records and a *cursor*, the current directory.

At startup the program reads the table, validates it and packs it. It then
runs a command loop over lines read from standard input:

- `cd name`, `cd ..` and `cd ./..` change the current directory;
- `ls` lists the current directory;
- `mkdir name` and `touch name` create a record and write a small marker file;
- `exit` saves the table and stops.

This project models that core, which is all in `main.c`.

- `bytes.dfy` (module `Bytes`) holds the C vocabulary the program relies on,
  stated as functions on byte sequences:
  - the integer widths;
  - `strchr` and the NUL that ends a C string;
  - `strncpy` truncation;
  - decimal printing, with its read-back.
- `inode.dfy` (module `Inodes`) holds the record, the constants and the test
  that loading applies to each record.
- `load.dfy` (module `Load`) holds the validation and compaction pass of
  loading, as a function on the records read, and the in-place procedure's
  progress predicate.
- `namespace.dfy` (module `Namespace`) holds the table as a value: all 1024
  slots, the live count and the cursor. It defines `cd`, `ls`, `mkdir`,
  `touch` and their marker files as functions, with lemmas about them.
- `commands.dfy` (module `Commands`) covers how the command loop cuts a line
  at its newline and first space and dispatches on the command word.
- `session.dfy` (module `Session`) covers one pass of the loop as a state
  transition, and a whole session as the fold of those transitions.
- `table.dfy` (module `Table`, class `InodeTable`) holds the program's
  global state as an object: an `array` of 1024 records, the count and the
  cursor. Its methods run the program's loops in place, and each is proved
  to leave exactly the state that the value-level functions describe.
- `scenario.dfy` (module `Scenario`) holds worked sessions, checked step by
  step. The first runs `mkdir docs`, `cd docs`, `touch a.txt`, `ls`, `cd ..`,
  `ls` and a repeated `mkdir docs` on a table holding only a root directory.
  The second runs `mkdir docs`, `cd docs` and `ls` on an empty table.

The model keeps the program's quirks; it does not fix them:

- **Name truncation.** A create compares the argument cut to 32 bytes with
  the stored names, but stores only its first 31 bytes. So an argument of 32
  bytes or more never collides, and can be created twice under one parent.
  `cd` with that long argument itself never finds the record
  (`CdLongNameNotFound`); `cd` with its first 31 bytes does.
- **Check order.** A create checks for a duplicate name before it checks
  capacity. A full table ends the process (`exit(1)`) without saving; the
  model reports this as `TableFull` and a session ends as `Aborted`.
- **The cursor's two meanings.** `cd ..` uses the cursor as a slot index into
  the whole array, while `cd name` stores the record's id. The two agree
  only while ids equal positions (`DenseIds`). Loading keeps ids as read and
  never renumbers them, so after a load that dropped a record they may
  disagree.
- **The root can list itself.** When the root record's parent id is 0, `ls`
  at the root lists the root record as well as its children
  (main.c:113-114). When the table starts empty, the first create gets id 0
  and parent 0 (main.c:146-147). That record then lists itself at the root,
  and `cd` into it leaves the cursor at 0 (`Scenario.CdIntoSelfRoot`).
- **A missing table file is fatal.** `loadInodeList` exits with status 1
  when `fopen` fails (main.c:30-34). That path is I/O and is left out (see
  below).

## Model

| member | source | states |
|---|---|---|
| Bytes.TakeUntil | main.c:242-248 | The result is a prefix of the input without the stop byte. When shorter than the input, it is followed by the stop byte. (`strchr` cut; also the end of a C string.) |
| Bytes.TakeUntilIs | main.c:242-248 | Those three properties determine the result uniquely. |
| Bytes.Digits | main.c:155 | The decimal text of a number is non-empty, all digits, and has no leading zero. |
| Bytes.DigitsRoundTrip | main.c:155 | Reading the decimal text back as a number gives the number printed. |
| Inodes.NameOfShort | main.c:49 | A name field whose last byte is NUL reads as a string of at most 31 bytes. |
| Load.Survivors | main.c:41-54 | The records load keeps are no more than the records read, and every one is well formed. |
| Load.Kept | main.c:41-54 | The survivors are exactly the admissible records read, terminated, in increasing position, with none missing. |
| Load.SurvivorsAppend | main.c:42-52 | Loading distributes over concatenation, so the records read keep their order. |
| Load.SurvivorsOfWellFormed | main.c:69-79 | A table of well-formed records loads back unchanged, so a save followed by a load is the identity. |
| Load.DropsOneInvalid | main.c:43-46 | A record with a bad id or type is dropped and the others close up. With all others admissible, whatever their name fields hold, the count drops by exactly one. |
| Load.AllAdmissibleKept | main.c:42-52 | Load keeps every admissible record, whatever its name field holds: as many survive as were read. |
| Load.PackedStart | main.c:36-41 | After the records are read into the array, the packing pass stands at its start. |
| Load.PackedNext | main.c:42-52 | One visit terminates and moves an admissible record to the next free front slot, or skips an invalid one. Either way the pass's invariant moves on one record. |
| Load.PackedEnd | main.c:54 | After the last visit, the front of the array is exactly the survivors. The slots above keep what the pass left in them. |
| Load.LoadKeepsIds | main.c:50 | There are records read with dense ids whose survivors do not have dense ids: load does not renumber. |
| Inodes.Admissible | main.c:43-46 | Defines the test load applies: an inode number below 1024 and a type of 'd' or 'f'. `Load.Kept` and `Load.DropsOneInvalid` state what load does with it. |
| Inodes.Terminated | main.c:49 | Defines the record with the last name byte set to NUL, the in-place write `name[31] = '\0'`. `Inodes.NameOfShort` states what it achieves. |
| Load.Scrubbed | main.c:43-49 | Defines what a visit leaves in slot i: the terminated record if it is admissible, the record unchanged otherwise. `Load.PackedEnd` and `Table.InodeTable.LoadInodeList` state where it is left. |
| Namespace.Matches | main.c:96 | Defines the scan test (also at main.c:133 and 176): the parent id equals the cursor and the name compares equal under `strcmp`. `Namespace.FindChild` states the first match under it. |
| Namespace.FindChild | main.c:94-105 | First-match lookup. It returns the least position matching parent and name (as `strcmp` compares), and returns none exactly when no live record matches. |
| Namespace.Children | main.c:111-121 | What `ls` shows is no longer than the live table. A record is shown exactly when it is live and its parent is the cursor. |
| Namespace.ChildrenAppend | main.c:113-118 | Listing keeps storage order: it distributes over concatenation. |
| Namespace.IsParentToken | main.c:84 | Defines the two spellings `cd` treats as the parent step, `..` and `./..`. `Namespace.CdParent` states the step. |
| Namespace.AfterCd | main.c:88-102 | Defines the state after `cd`: the cursor moved on `MovedUp` and `Entered`, the state unchanged otherwise. `Table.InodeTable.ChangeDirectory` is proved to leave it. |
| Namespace.CdParent | main.c:84-91 | `..` at the root changes nothing. Elsewhere it sets the cursor to the parent field of the slot the cursor indexes. |
| Namespace.CdParentOfDense | main.c:88 | With dense ids, that slot is the record whose id is the cursor. |
| Namespace.CdFirstMatch | main.c:94-103 | The first matching record decides the outcome: a directory is entered at its id, and anything else is "not a directory", even if a matching directory comes later. |
| Namespace.CdNotFound | main.c:94-107 | `cd` reports "not found" if and only if no live record under the cursor has that name. |
| Namespace.CdEntersChildDirectory | main.c:96-102 | A successful `cd name` lands on the id of a matching directory under the old cursor, and that id is below 1024. |
| Namespace.CdLongNameNotFound | main.c:96 | An argument of 32 bytes or more is never found by `cd`. |
| Namespace.StoredNameIsTruncation | main.c:149-150 | The stored name reads back as the argument cut to 31 bytes, and its last byte is NUL. |
| Namespace.CreateAppends | main.c:145-151 | A successful create appends exactly the record (id = old count, parent = cursor, type, 31-byte name) and keeps the invariant, the cursor, the earlier records and the later slots. A failed create changes nothing. Dense ids stay dense. |
| Namespace.CreateCheckOrder | main.c:130-143 | A name clash gives `NameExists`, even in a full table. Without a clash, a full table gives `TableFull` and any other table gives `Created`. |
| Namespace.LongNameNeverCollides | main.c:126-137 | An argument of 32 bytes or more never clashes with a stored name. |
| Namespace.RepeatedLongName | main.c:124-151 | The same long name created twice under one parent succeeds twice, and leaves two siblings with equal names. |
| Namespace.ShortNameKeepsSiblingsUnique | main.c:126-151 | For names of at most 31 bytes, create keeps sibling names unique. |
| Namespace.SecondCreateClashes | main.c:131-137 | After a successful create of a short name, creating it again under the same parent clashes. Under another parent, the lookup is unaffected. |
| Namespace.FindAppendMiss | main.c:94-105 | Appending a non-matching record does not change a lookup. |
| Namespace.DirectoryMarkerFirstLine | main.c:153-163 | A directory marker's first line is its file name, the new id in decimal, and it reads back as that id. |
| Namespace.DirectoryMarkerSecondLine | main.c:163 | After the space, the marker's second line is the parent id in decimal, and it reads back as that id. |
| Namespace.FileMarkerReadsBack | main.c:196-206 | A file marker's first line is the argument cut to 32 bytes. |
| Namespace.ChangeDir | main.c:82-108 | Computes what `cd` reports: the parent step for `..` and `./..`, otherwise the first match of `FindChild` decides. Its properties are stated by `CdParent`, `CdFirstMatch`, `CdNotFound`, `CdEntersChildDirectory` and `CdLongNameNotFound`; `Table.InodeTable.ChangeDirectory` is proved to compute it. |
| Namespace.StoredName | main.c:149-150 | Computes the name field of a new record: the argument cut to 31 bytes, padded with NULs. `StoredNameIsTruncation` states that it reads back as that cut and ends in a NUL. |
| Namespace.NewRecord | main.c:146-150 | Defines the record a create writes: id the old count, parent the cursor, the given type and the stored name. `Namespace.CreateAppends` states that exactly it is appended. |
| Namespace.CreateStatusOf | main.c:126-143 | Computes how a create ends: the duplicate check on the argument cut to 32 bytes, then the capacity check. `CreateCheckOrder`, `LongNameNeverCollides` and `SecondCreateClashes` state its properties. |
| Namespace.Create | main.c:145-151 | Computes the state after a create: the new record written at slot `count` and the count raised by one, or the state unchanged. `CreateAppends`, `ShortNameKeepsSiblingsUnique` and `RepeatedLongName` state its properties. |
| Namespace.DirectoryMarker | main.c:153-163 | Computes the marker a `mkdir` writes: file name the new id in decimal, content "id\n parent\n". `DirectoryMarkerFirstLine` and `DirectoryMarkerSecondLine` state that both ids read back. |
| Namespace.FileMarker | main.c:196-206 | Computes the marker a `touch` writes: file name the new id in decimal, content the argument cut to 32 bytes and a newline. `FileMarkerReadsBack` states its read-back. |
| Session.MarkerOf | main.c:153-165 | Computes the marker a create writes: the directory or file marker for the new id when a record was appended, none otherwise. `Table.InodeTable.CreateDirectory` and `Table.InodeTable.CreateFile` are proved to return it. |
| Session.Run | main.c:232-290 | Computes a whole session: it folds `Apply` over the lines, and stops with a save at `exit` or at the end of input, or with an abort at a create in a full table. `RunFacts` states its properties; `Table.InodeTable.CommandLoop` is proved to compute it. |
| Commands.Effective | main.c:242-245 | Defines the text the loop works on: the buffer up to its first NUL, cut at the first newline. `Commands.EffectiveIs` states it for a line of text and a newline. |
| Commands.Word | main.c:248-256 | Defines the command word: the effective text before its first space. `Commands.ParseLine` states the dispatch on it. |
| Scenario.FirstMkdirFromEmpty | main.c:124-165 | `mkdir docs` on an empty table writes record 0 with parent 0 and marker "0\n 0\n". |
| Scenario.CdIntoSelfRoot | main.c:94-103 | `cd docs` then enters id 0, so the cursor stays at 0. |
| Scenario.LsSelfRoot | main.c:111-121 | `ls` at 0 then lists that record itself. |
| Commands.ParseLine | main.c:242-280 | A parsed argument has no NUL and no newline. For `cd`, `mkdir` and `touch`, the text before the newline is the word, a space, then the argument. `ls` and `exit` are recognised exactly by their word. A line is invalid exactly when its word is unknown, or its word needs an argument and there is no space. |
| Commands.ParseWithArgument | main.c:248-267 | A `cd`, `mkdir` or `touch` line with an argument (the argument may itself contain spaces) parses to that command and argument. |
| Commands.ArgumentRequired | main.c:253-280 | `cd`, `mkdir` and `touch` without an argument are invalid input. |
| Commands.ParseBare | main.c:268-271 | `ls` and `exit` work with or without trailing text. |
| Commands.EffectiveIs | main.c:242-245 | The text before the first newline is what the program works on. |
| Session.Apply | main.c:258-280 | One command keeps the invariant, only appends to the live records, and keeps every parent id in range. `TableFull` happens only with 1024 live records and changes nothing. `ls`, `exit` and invalid input change nothing. |
| Session.RunFacts | main.c:232-290 | Over a whole session, the invariant holds and the starting records are never changed or removed. An abort happens only in a full table. What is saved is exactly the final live table, and it loads back unchanged. |
| Scenario.NamesReadBack | main.c:149-150 | The root's name is empty; "docs" and "a.txt" are stored so that they read back unchanged. |
| Scenario.MkdirDocs | main.c:124-165 | `mkdir docs` in a table holding only the root appends record 1 under 0 and writes marker "1\n 0\n". |
| Scenario.CdDocs | main.c:94-103 | `cd docs` then sets the cursor to 1. |
| Scenario.TouchFile | main.c:167-208 | `touch a.txt` inside docs appends record 2 under 1. |
| Scenario.LsInDocs | main.c:111-121 | `ls` inside docs lists only a.txt. |
| Scenario.DocsChildren | main.c:113-118 | The three-record table has one record under id 1. |
| Scenario.CdBack | main.c:84-91 | `cd ..` from docs moves the cursor back to 0. |
| Scenario.LsAtRoot | main.c:111-121 | `ls` at the root lists the root record and docs. |
| Scenario.RootChildren | main.c:113-118 | The three-record table has the root and docs under id 0. |
| Scenario.MkdirDocsAgain | main.c:131-137 | A second `mkdir docs` at the root clashes and leaves the table unchanged. |
| Table.InodeTable.constructor | main.c:15-17 | The zero-initialised globals: 1024 blank slots, count 0, cursor 0. |
| Table.InodeTable.LoadInodeList | main.c:36-54 | In place: the live records become exactly the survivors of the records read. The count is at most the number read. The slots the pass visited hold what it left there, later slots are untouched, and the cursor is unchanged. |
| Table.InodeTable.CopyIn | main.c:37 | The records read land in the first slots; the other slots are unchanged. |
| Table.InodeTable.Visit | main.c:43-51 | One loop pass keeps the invariant of the packing pass. |
| Table.InodeTable.ChangeDirectory | main.c:82-108 | The loop's outcome is the outcome `Namespace.ChangeDir` specifies. The new state is the old one with only the cursor moved, as that outcome says. |
| Table.InodeTable.ListContents | main.c:111-121 | The loop collects exactly `Children` of the live table under the cursor. |
| Table.InodeTable.SiblingNamed | main.c:131-137 | The duplicate scan finds a match if and only if a live record under the cursor has that name. |
| Table.InodeTable.Insert | main.c:126-151 | The status and the new state are those of `CreateStatusOf` and `Create`. |
| Table.InodeTable.CreateDirectory | main.c:124-165 | As `Insert` for type `'d'`. The marker is the directory marker exactly when a record was appended. |
| Table.InodeTable.CreateFile | main.c:167-208 | As `Insert` for type `'f'`. The marker is the file marker exactly when a record was appended. |
| Table.InodeTable.SaveInodeList | main.c:69-79 | What is written is exactly the live records, and it loads back unchanged. |
| Table.InodeTable.Step | main.c:242-283 | One pass of the loop performs exactly the transition `Session.Apply` specifies for the parsed line. |
| Table.InodeTable.CommandLoop | main.c:232-290 | The loop ends in exactly the state and with exactly the ending that `Session.Run` specifies for the lines. |

## Left out

- File I/O and the byte layout of the table file. `fopen`, `fread` and
  `fwrite` are not modelled: loading takes the decoded records as a
  parameter, and saving returns the records it would write. The struct
  padding of the on-disk record is not modelled either.
- The exit when the table file is missing or cannot be opened
  (main.c:30-34, main.c:70-74). This is I/O.
- Marker files are values (file name and content); the file write is left
  out. So is the fall back to the prompt when `fopen` of the marker fails
  (main.c:157-160, 200-203).
- `exit(1)` when a create finds the table full is the outcome `TableFull`,
  and for a session the ending `Aborted`. The end of the process is not modelled.
- `printf` output and prompt text are left out. Messages are outcome values
  (`CdOutcome`, `CreateStatus`), and `ls` returns the records it would print.
- `main`'s argument count check and `chdir` into the data directory
  (main.c:211-221) are process set-up and are left out.
- `getline`, `strdup` and `free` are left out. The input is a sequence of
  lines, each a byte sequence. The end of input ends the sequence.
- The commented-out root check of loadInodeList (main.c:56-65) is dead code.
- Table.InodeTable.ChangeDirectory: `cd ..` with a cursor of 1024 or more
  reads outside the array, which is undefined behaviour in C. It carries a
  precondition (`ParentStepDefined`) instead.
- Session.Run: requires every slot's parent id and the cursor to be below
  1024. This is sufficient for every `cd ..` on the way to be defined, but
  it is not necessary.
- Table.InodeTable.CommandLoop: carries the same range requirement as
  Session.Run.
- Table.InodeTable.LoadInodeList: requires at most 1024 records, which is
  what `fread` with a count of 1024 can return.
