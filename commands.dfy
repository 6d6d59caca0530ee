/** How the command loop of main (main.c:242-279) turns one line read by
    `getline` into a command: the line is read as a C string, cut at its
    first newline, and split at its first space into a command word and an
    argument. */
module Commands {
  import opened Bytes

  datatype Command = Cd(arg: seq<byte>) | Mkdir(arg: seq<byte>) | Touch(arg: seq<byte>) | Ls | Exit | Invalid

  const CdWord: seq<byte> := [99, 100]                      // "cd"
  const MkdirWord: seq<byte> := [109, 107, 100, 105, 114]   // "mkdir"
  const TouchWord: seq<byte> := [116, 111, 117, 99, 104]    // "touch"
  const LsWord: seq<byte> := [108, 115]                     // "ls"
  const ExitWord: seq<byte> := [101, 120, 105, 116]         // "exit"

  /** The text the program works on: the buffer up to its first NUL (string
      functions stop there), cut at the first newline. */
  function Effective(line: seq<byte>): seq<byte>
  {
    TakeUntil(CString(line), Newline)
  }

  /** The command word: the effective text before its first space. */
  function Word(line: seq<byte>): seq<byte>
  {
    TakeUntil(Effective(line), Space)
  }

  /** The dispatch of one line. "cd", "mkdir" and "touch" carry everything
      after the first space as their argument and need one; "ls" and "exit"
      run whatever follows; any other word is invalid input. */
  function ParseLine(line: seq<byte>): (cmd: Command)
    ensures (cmd.Cd? || cmd.Mkdir? || cmd.Touch?) ==> Nul !in cmd.arg && Newline !in cmd.arg
    ensures cmd.Cd? ==> Effective(line) == CdWord + [Space] + cmd.arg
    ensures cmd.Mkdir? ==> Effective(line) == MkdirWord + [Space] + cmd.arg
    ensures cmd.Touch? ==> Effective(line) == TouchWord + [Space] + cmd.arg
    ensures cmd == Ls <==> Word(line) == LsWord
    ensures cmd == Exit <==> Word(line) == ExitWord
    ensures cmd == Invalid <==>
      || Word(line) !in {CdWord, MkdirWord, TouchWord, LsWord, ExitWord}
      || (Word(line) in {CdWord, MkdirWord, TouchWord} && Space !in Effective(line))
  {
    var e := Effective(line);
    var word := TakeUntil(e, Space);
    var hasArg := |word| < |e|;
    var arg := if hasArg then e[|word| + 1..] else [];
    assert hasArg ==> e == word + [Space] + arg;
    assert hasArg <==> Space in e;
    assert Nul !in arg && Newline !in arg by {
      assert Nul !in CString(line);
      assert forall k | 0 <= k < |arg| :: arg[k] in e;
    }
    if word == CdWord && hasArg then Cd(arg)
    else if word == MkdirWord && hasArg then Mkdir(arg)
    else if word == TouchWord && hasArg then Touch(arg)
    else if word == LsWord then Ls
    else if word == ExitWord then Exit
    else Invalid
  }

  /** A "cd", "mkdir" or "touch" line followed by an argument (which may
      itself contain spaces) parses to that command with that argument,
      whatever comes after the newline. */
  lemma ParseWithArgument(word: seq<byte>, arg: seq<byte>, rest: seq<byte>)
    requires word in {CdWord, MkdirWord, TouchWord}
    requires Nul !in arg && Newline !in arg
    ensures var cmd := ParseLine(word + [Space] + arg + [Newline] + rest);
      && (word == CdWord ==> cmd == Cd(arg))
      && (word == MkdirWord ==> cmd == Mkdir(arg))
      && (word == TouchWord ==> cmd == Touch(arg))
  {
    var line := word + [Space] + arg + [Newline] + rest;
    var text := word + [Space] + arg;
    assert Nul !in text;
    EffectiveIs(line, text, rest);
    TakeUntilIs(text, Space, word);
  }

  /** "cd", "mkdir" and "touch" without an argument are invalid input. */
  lemma ArgumentRequired(word: seq<byte>, rest: seq<byte>)
    requires word in {CdWord, MkdirWord, TouchWord}
    ensures ParseLine(word + [Newline] + rest) == Invalid
  {
    EffectiveIs(word + [Newline] + rest, word, rest);
    TakeUntilIs(word, Space, word);
  }

  /** "ls" and "exit" run with or without an argument. */
  lemma ParseBare(word: seq<byte>, tail: seq<byte>, rest: seq<byte>)
    requires word in {LsWord, ExitWord}
    requires Nul !in tail && Newline !in tail
    requires tail == [] || tail[0] == Space
    ensures ParseLine(word + tail + [Newline] + rest) == if word == LsWord then Ls else Exit
  {
    var text := word + tail;
    EffectiveIs(word + tail + [Newline] + rest, text, rest);
    TakeUntilIs(text, Space, word);
  }

  /** A line whose text before the newline is `text` has that text as its
      effective part. */
  lemma EffectiveIs(line: seq<byte>, text: seq<byte>, rest: seq<byte>)
    requires line == text + [Newline] + rest
    requires Nul !in text && Newline !in text
    ensures Effective(line) == text
  {
    var cut := TakeUntil(line, Nul);
    assert line == text + ([Newline] + rest);
    assert text <= cut by {
      assert |cut| >= |text|;
      assert cut[..|text|] == line[..|text|] == text;
    }
    assert |text| < |cut| ==> cut[|text|] == Newline;
    TakeUntilIs(cut, Newline, text);
  }
}
