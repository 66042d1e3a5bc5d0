/** The shell's state (mssh.go:40-49) and what one input line does to it: GetInput and
    PushInput around the one-slot pending line, Execute's classification of a line, the
    `!` commands of HandleCommand, ExpandShortcut, and loading and saving the shortcut
    file. The network endpoint is a `connected` flag; the shortcut file's text is a field. */
module Session {
  import opened Errors
  import opened GoStrings
  import opened Shortcuts
  import Packet

  /** The most expansions PushInput accepts between two typed lines (mssh.go:406). */
  const MaxNesting := 10

  /** What a line does besides changing the state: the error Execute returns, or what the
      shell would print or hand to the network. */
  datatype Outcome =
    | Done
    | Quit                                          // ErrQuit: the main loop stops
    | Failed(error: Error)
    | Shown(text: string)                           // '@?name': the expansion, displayed only
    | Listed(names: seq<string>)                    // '!s': every shortcut name, sorted
    | Found(name: string, definition: Option<string>) // '!s name'
    | Sent(packet: Packet.Element)                  // a message for the connected peer
    | Submitted(packet: Packet.Element)             // a request for the connected peer
    | Delegated(command: char)                      // '!t', '!c', '!d', '!l': left to the network

  /** The state as a value. `chained` counts the lines GetInput has taken from the pending
      slot since it last read a typed line; the source keeps no such counter, it is here
      to state the nesting bound. `file` is the shortcut file's text, None when there is
      no file. */
  datatype Shell = Shell(
    connected: bool,
    name: string,
    shortcuts: map<string, string>,
    pending: Option<string>,
    nesting: int,
    chained: nat,
    file: Option<string>)

  /** The state after an operation, and its outcome. */
  datatype Step = Step(shell: Shell, outcome: Outcome)

  /** The state after GetInput, and the line it returns. */
  datatype Input = Input(shell: Shell, line: string)

  /** The state main starts from (mssh.go:459-466), before the shortcuts are loaded. */
  function Initial(file: Option<string>): (s: Shell)
    ensures Bounded(s) && !s.connected && s.shortcuts == map[] && s.pending.None? && s.file == file
  {
    Shell(false, "mssh", map[], None, 0, 0, file)
  }

  /** The nesting invariant: a pending line was pushed at a depth of at most MaxNesting,
      and no more lines have been taken from the slot than pushes counted. */
  predicate Bounded(s: Shell)
  {
    && 0 <= s.nesting
    && s.chained <= s.nesting
    && s.chained <= MaxNesting
    && (s.pending.Some? ==> s.chained < s.nesting <= MaxNesting)
  }

  // ---------------------------------------------------------------------------------
  // The transitions, as functions of the state

  /** GetInput (mssh.go:377-401): the pending line if there is one, which empties the slot;
      otherwise the typed line without its newline, which starts a new chain. */
  function NextInput(s: Shell, typed: string): (r: Input)
    ensures Bounded(s) ==> Bounded(r.shell)
    ensures s.pending.Some? ==>
      r.line == s.pending.value && r.shell == s.(pending := None, chained := s.chained + 1)
    ensures s.pending.None? ==>
      r.line == TrimNewline(typed) && r.shell == s.(nesting := 0, chained := 0)
  {
    if s.pending.Some? then Input(s.(pending := None, chained := s.chained + 1), s.pending.value)
    else Input(s.(nesting := 0, chained := 0), TrimNewline(typed))
  }

  /** PushInput (mssh.go:403-413): one level deeper; past MaxNesting the slot is emptied
      and the push fails. */
  function Push(s: Shell, line: string): (r: Step)
    ensures Bounded(s) ==> Bounded(r.shell)
    ensures r.shell == s.(nesting := s.nesting + 1, pending := r.shell.pending)
    ensures r.shell.pending == Some(line) <==> s.nesting < MaxNesting
    ensures s.nesting < MaxNesting ==> r.outcome == Done
    ensures s.nesting >= MaxNesting ==> r.outcome == Failed(RecursionLimit) && r.shell.pending.None?
  {
    var nesting := s.nesting + 1;
    if nesting > MaxNesting then Step(s.(nesting := nesting, pending := None), Failed(RecursionLimit))
    else Step(s.(nesting := nesting, pending := Some(line)), Done)
  }

  /** ExpandShortcut (mssh.go:280-330) with `args` the CSV reading of the text after '@':
      a shown expansion changes nothing, any other is pushed as the next line. */
  function ExpandStep(s: Shell, args: Option<seq<string>>): (r: Step)
    ensures Bounded(s) ==> Bounded(r.shell)
    ensures !r.outcome.Sent? && !r.outcome.Submitted?
    ensures var x := ExpandCall(s.shortcuts, args);
      && (x.Err? ==> r == Step(s, Failed(x.error)))
      && (x.Ok? && x.value.showOnly ==> r == Step(s, Shown(x.value.text)))
      && (x.Ok? && !x.value.showOnly ==> r.shell == s.(nesting := s.nesting + 1, pending := r.shell.pending))
      && (x.Ok? && !x.value.showOnly && s.nesting < MaxNesting ==> r.outcome == Done && r.shell.pending == Some(x.value.text))
      && (x.Ok? && !x.value.showOnly && s.nesting >= MaxNesting ==> r.outcome == Failed(RecursionLimit) && r.shell.pending.None?)
  {
    match ExpandCall(s.shortcuts, args)
    case Err(e) => Step(s, Failed(e))
    case Ok(x) => if x.showOnly then Step(s, Shown(x.text)) else Push(s, x.text)
  }

  /** The `!s` command (mssh.go:225-251): the line split in at most three at spaces
      lists the names, looks one up, or defines one and saves the file. */
  ghost function ShortcutCommand(s: Shell, line: string): (r: Step)
    ensures r.shell == s.(shortcuts := r.shell.shortcuts, file := r.shell.file)
    ensures !r.outcome.Sent? && !r.outcome.Submitted?
  {
    var parts := SplitN(line, ' ', 3);
    if |parts| == 1 then Step(s, Listed(SortedNames(s.shortcuts.Keys)))
    else if |parts| == 2 then
      Step(s, Found(parts[1], if parts[1] in s.shortcuts then Some(s.shortcuts[parts[1]]) else None))
    else
      Saved(s.(shortcuts := s.shortcuts[parts[1] := parts[2]]))
  }

  /** The state after saveShortcuts (mssh.go:445-456), names written in sorted order. */
  ghost function Saved(s: Shell): (r: Step)
    ensures r.shell == s.(file := r.shell.file) && r.outcome == Done
  {
    var order := SortedNames(s.shortcuts.Keys);
    SortedNamesSorted(s.shortcuts.Keys);
    Step(s.(file := Some(Serialize(s.shortcuts, order))), Done)
  }

  /** HandleCommand (mssh.go:191-272) on a line starting with '!': the first
      space-separated word after it picks the command by its first letter. */
  ghost function CommandStep(s: Shell, line: string): (r: Step)
    requires line != []
    ensures r.shell.nesting == s.nesting && r.shell.pending == s.pending && r.shell.chained == s.chained
    ensures !r.outcome.Sent? && !r.outcome.Submitted?
  {
    var tokens := Split(line[1..], ' ');
    if tokens[0] == [] then Step(s, Failed(RuntimePanic))
    else match tokens[0][0]
      case 'q' => Step(s.(connected := false), Quit)
      case 't' => if |tokens| < 2 then Step(s, Failed(RuntimePanic)) else Step(s, Delegated('t'))
      case 'c' => if |tokens| < 2 then Step(s, Failed(RuntimePanic)) else Step(s, Delegated('c'))
      case 'd' => if s.connected then Step(s.(connected := false), Delegated('d')) else Step(s, Failed(RuntimePanic))
      case 'n' => if |tokens| < 2 then Step(s, Failed(RuntimePanic)) else Step(s.(name := tokens[1]), Done)
      case 's' => ShortcutCommand(s, line)
      case 'l' => if s.connected then Step(s, Delegated('l')) else Step(s, Failed(NotConnected))
      case _ => Step(s, Failed(UnsupportedCommand))
  }

  /** Execute (mssh.go:332-375): an empty line does nothing, '!' and '@' lines are
      commands and shortcuts, any other line is a packet for the connected peer. `args`
      is the CSV reading of the text after '@'. */
  ghost function ExecuteStep(s: Shell, line: string, args: Option<seq<string>>): (r: Step)
    ensures line == [] ==> r == Step(s, Done)
    ensures line != [] && line[0] != '!' && line[0] != '@' ==> r.shell == s
    ensures line != [] && line[0] != '!' && line[0] != '@' && !s.connected ==> r.outcome == Failed(NotConnected)
    ensures r.outcome.Sent? || r.outcome.Submitted? ==> s.connected && Trim(line) != []
    ensures r.outcome.Submitted? ==> Trim(line)[0] == '?'
    ensures r.outcome.Sent? ==> Trim(line)[0] != '?'
    ensures line != [] && line[0] == '!' ==> r == CommandStep(s, line)
    ensures line != [] && line[0] == '@' ==> r == ExpandStep(s, args)
    ensures line != [] && line[0] != '!' && line[0] != '@' && s.connected ==>
      var p := Packet.ParsePacket(line);
      && (p.Err? ==> r.outcome == Failed(p.error))
      && (p.Ok? && p.value.name == "Request" ==> r.outcome == Submitted(p.value))
      && (p.Ok? && p.value.name != "Request" ==> r.outcome == Sent(p.value))
    ensures Bounded(s) ==> Bounded(r.shell)
  {
    if line == [] then Step(s, Done)
    else if line[0] == '!' then CommandStep(s, line)
    else if line[0] == '@' then ExpandStep(s, args)
    else if !s.connected then Step(s, Failed(NotConnected))
    else match Packet.ParsePacket(line)
      case Err(e) => Step(s, Failed(e))
      case Ok(p) => Step(s, if p.name == "Request" then Submitted(p) else Sent(p))
  }

  /** loadShortcuts (mssh.go:415-443): without a file nothing changes; otherwise the table
      is replaced by what the file's lines set, up to a line it rejects. */
  function LoadStep(s: Shell): (r: Step)
    ensures s.file.None? ==> r == Step(s, Done)
    ensures r.shell == s.(shortcuts := r.shell.shortcuts)
    ensures s.file.Some? ==>
      var l := Load(s.file.value);
      && r.shell.shortcuts == l.table
      && (r.outcome == Done <==> l.Loaded?)
      && (l.Rejected? ==> r.outcome == Failed(InvalidShortcutDefinition(l.line)))
  {
    if s.file.None? then Step(s, Done)
    else match Load(s.file.value)
      case Loaded(t) => Step(s.(shortcuts := t), Done)
      case Rejected(t, line) => Step(s.(shortcuts := t), Failed(InvalidShortcutDefinition(line)))
  }

  // ---------------------------------------------------------------------------------
  // What the transitions promise

  /** After MaxNesting lines taken from the slot, nothing is pending and no further
      push succeeds: the next line GetInput returns is a typed one. */
  lemma ChainEnds(s: Shell, line: string)
    requires Bounded(s) && s.chained == MaxNesting
    ensures s.pending.None?
    ensures Push(s, line) == Step(s.(nesting := s.nesting + 1), Failed(RecursionLimit))
  {
  }

  /** An expansion that is not only shown is the next line GetInput returns, whatever is
      typed, as long as the chain is shorter than MaxNesting. */
  lemma ExpansionIsNext(s: Shell, args: Option<seq<string>>, typed: string)
    requires ExpandCall(s.shortcuts, args).Ok? && !ExpandCall(s.shortcuts, args).value.showOnly
    requires s.nesting < MaxNesting
    ensures NextInput(ExpandStep(s, args).shell, typed).line == ExpandCall(s.shortcuts, args).value.text
  {
  }

  /** The command word is the text between '!' and the first space: a bare '!' or a '!'
      followed by a space has an empty word, whose first letter HandleCommand cannot read. */
  lemma CommandWord(line: string)
    requires line != []
    ensures var word := Split(line[1..], ' ')[0];
      && (word == [] <==> |line| == 1 || line[1] == ' ')
      && (word != [] ==> word[0] == line[1])
  {
    if |line| > 1 {
      var t := line[1..];
      assert t == [t[0]] + t[1..];
      if t[0] != ' ' {
        SplitCons(t[0], t[1..], ' ');
      }
    }
  }

  /** A line of '!' alone, or '!' and a space, stops the shell with a runtime panic. */
  lemma EmptyCommand(s: Shell, line: string)
    requires line != [] && (|line| == 1 || line[1] == ' ')
    ensures CommandStep(s, line) == Step(s, Failed(RuntimePanic))
  {
    CommandWord(line);
  }

  /** `!q...` quits, dropping the connection and changing nothing else. */
  lemma QuitCommand(s: Shell, line: string)
    requires |line| >= 2 && line[1] == 'q'
    ensures CommandStep(s, line) == Step(s.(connected := false), Quit)
  {
    CommandWord(line);
  }

  /** The words of `!cmd w` followed by nothing or by a space and more. */
  lemma CommandWords(cmd: string, w: string, tail: string)
    requires ' ' !in cmd && ' ' !in w
    requires tail == [] || tail[0] == ' '
    ensures var tokens := Split(cmd + " " + w + tail, ' ');
      |tokens| >= 2 && tokens[0] == cmd && tokens[1] == w
  {
    assert cmd + " " + w + tail == cmd + [' '] + (w + tail);
    SplitAt(cmd, w + tail, ' ');
    if tail == [] {
      assert w + tail == w;
      SplitNone(w, ' ');
    } else {
      assert w + tail == w + [' '] + tail[1..];
      SplitAt(w, tail[1..], ' ');
    }
  }

  /** `!n name` sets the shell's name to the word after the command and changes nothing
      else. */
  lemma NameCommand(s: Shell, cmd: string, name: string, tail: string)
    requires cmd != [] && cmd[0] == 'n' && ' ' !in cmd && ' ' !in name
    requires tail == [] || tail[0] == ' '
    ensures CommandStep(s, "!" + cmd + " " + name + tail) == Step(s.(name := name), Done)
  {
    var line := "!" + cmd + " " + name + tail;
    assert line[1..] == cmd + " " + name + tail;
    CommandWords(cmd, name, tail);
  }

  /** `!s` alone lists the names in sorted order and changes nothing. */
  lemma ListCommand(s: Shell, cmd: string)
    requires cmd != [] && cmd[0] == 's' && ' ' !in cmd
    ensures CommandStep(s, "!" + cmd) == Step(s, Listed(SortedNames(s.shortcuts.Keys)))
  {
    var line := "!" + cmd;
    assert line[1..] == cmd;
    SplitNone(cmd, ' ');
    assert ' ' !in line && IndexByte(line, ' ') == -1;
  }

  /** `!s name` looks the name up and changes nothing. */
  lemma LookupCommand(s: Shell, cmd: string, name: string)
    requires cmd != [] && cmd[0] == 's' && ' ' !in cmd && ' ' !in name
    ensures CommandStep(s, "!" + cmd + " " + name)
         == Step(s, Found(name, if name in s.shortcuts then Some(s.shortcuts[name]) else None))
  {
    var line := "!" + cmd + " " + name;
    assert line[1..] == cmd + " " + name + [];
    CommandWords(cmd, name, []);
    assert line == ("!" + cmd) + [' '] + name;
    SplitNCons("!" + cmd, name, ' ', 3);
    assert IndexByte(name, ' ') == -1;
  }

  /** `!s name definition` (ShortcutCommand is the `!s` branch of CommandStep) sets the
      name to the rest of the line, spaces kept, and saves the table. */
  lemma DefineCommand(s: Shell, cmd: string, name: string, definition: string)
    requires ' ' !in cmd && ' ' !in name
    ensures ShortcutCommand(s, "!" + cmd + " " + name + " " + definition)
         == Saved(s.(shortcuts := s.shortcuts[name := definition]))
  {
    var line := "!" + cmd + " " + name + " " + definition;
    assert line == ("!" + cmd) + [' '] + (name + [' '] + definition);
    SplitNCons("!" + cmd, name + [' '] + definition, ' ', 3);
    SplitNFirst(name, definition, ' ');
  }

  /** The saved file loads back to the table it was written from when no name holds ':'
      or a newline and no definition a newline. */
  lemma SavedLoads(s: Shell)
    requires forall k :: k in s.shortcuts ==> ':' !in k && '\n' !in k && '\n' !in s.shortcuts[k]
    ensures Saved(s).shell.file.Some?
    ensures LoadStep(Saved(s).shell) == Saved(s)
  {
    SortedNamesSorted(s.shortcuts.Keys);
    LoadSerialize(s.shortcuts, SortedNames(s.shortcuts.Keys));
  }

  // ---------------------------------------------------------------------------------
  // Sorted names

  /** x is the least of keys in Go's string order. */
  ghost predicate IsLeast(x: string, keys: set<string>)
  {
    x in keys && forall y :: y in keys ==> x == y || Less(x, y)
  }

  lemma {:induction false} LeastExists(keys: set<string>)
    requires keys != {}
    ensures exists x :: IsLeast(x, keys)
    decreases |keys|
  {
    var y :| y in keys;
    var rest := keys - {y};
    if rest == {} {
      assert keys == {y};
      assert IsLeast(y, keys);
    } else {
      LeastExists(rest);
      var x :| IsLeast(x, rest);
      if Less(x, y) {
        assert IsLeast(x, keys);
      } else {
        LessTotal(x, y);
        forall z | z in keys
          ensures y == z || Less(y, z)
        {
          if z != y && z != x {
            assert z in rest;
            LessTransitive(y, x, z);
          }
        }
        assert IsLeast(y, keys);
      }
    }
  }

  /** The least of a non-empty set of names. */
  ghost function Least(keys: set<string>): (x: string)
    requires keys != {}
    ensures x in keys
  {
    LeastExists(keys);
    var x :| IsLeast(x, keys);
    x
  }

  lemma LeastIsLeast(keys: set<string>)
    requires keys != {}
    ensures IsLeast(Least(keys), keys)
  {
    LeastExists(keys);
  }

  /** The names of a table in the order sort.Strings puts them: the least name first. */
  ghost function SortedNames(keys: set<string>): seq<string>
    decreases |keys|
  {
    if keys == {} then [] else [Least(keys)] + SortedNames(keys - {Least(keys)})
  }

  /** SortedNames lists every name once, in order. */
  lemma {:induction false} SortedNamesSorted(keys: set<string>)
    ensures Sorted(SortedNames(keys))
    ensures forall y :: y in SortedNames(keys) <==> y in keys
    decreases |keys|
  {
    if keys != {} {
      var x := Least(keys);
      var rest := SortedNames(keys - {x});
      LeastIsLeast(keys);
      SortedNamesSorted(keys - {x});
      SortedCons(x, rest);
    }
  }

  /** There is one sorted sequence of given strings. */
  lemma {:induction false} SortedUnique(a: seq<string>, b: seq<string>)
    requires Sorted(a) && Sorted(b)
    requires forall y :: y in a <==> y in b
    ensures a == b
    decreases |a|
  {
    SameEmpty(a, b);
    if a != [] {
      assert a[0] == b[0] by {
        if a[0] != b[0] {
          assert b[0] in a && a[0] in b;
          assert Less(a[0], b[0]);
          assert Less(b[0], a[0]);
          LessTransitive(a[0], b[0], a[0]);
          LessIrreflexive(a[0]);
        }
      }
      forall y
        ensures y in a[1..] <==> y in b[1..]
      {
        SortedTail(a, y);
        SortedTail(b, y);
      }
      SortedUnique(a[1..], b[1..]);
    }
  }

  lemma SameEmpty(a: seq<string>, b: seq<string>)
    requires forall y :: y in a <==> y in b
    ensures a == [] <==> b == []
  {
    if a != [] {
      assert a[0] in b;
    }
    if b != [] {
      assert b[0] in a;
    }
  }

  /** The tail of a sorted sequence holds everything but its head. */
  lemma SortedTail(a: seq<string>, y: string)
    requires Sorted(a) && a != []
    ensures y in a[1..] <==> y in a && y != a[0]
  {
    if y in a[1..] {
      var j :| 1 <= j < |a| && a[j] == y;
      assert Less(a[0], a[j]);
      if y == a[0] {
        LessIrreflexive(y);
      }
    }
    if y in a && y != a[0] {
      var j :| 0 <= j < |a| && a[j] == y;
      assert a[1..][j - 1] == y;
    }
  }

  // ---------------------------------------------------------------------------------
  // The shell

  class State {
    var connected: bool
    var name: string
    var shortcuts: map<string, string>
    var pending: Option<string>
    var nesting: int
    ghost var chained: nat
    var file: Option<string>

    ghost function Snap(): Shell
      reads this
    {
      Shell(connected, name, shortcuts, pending, nesting, chained, file)
    }

    ghost predicate Valid()
      reads this
    {
      Bounded(Snap())
    }

    constructor(file: Option<string>)
      ensures Snap() == Initial(file) && Valid()
    {
      connected := false;
      name := "mssh";
      shortcuts := map[];
      pending := None;
      nesting := 0;
      chained := 0;
      this.file := file;
    }

    /** GetInput, with `typed` the line the reader returns, newline included. */
    method GetInput(typed: string) returns (line: string)
      requires Valid()
      modifies this
      ensures Valid()
      ensures Input(Snap(), line) == NextInput(old(Snap()), typed)
    {
      if pending.None? {
        nesting := 0;
        chained := 0;
        line := TrimNewline(typed);
      } else {
        line := pending.value;
        pending := None;
        chained := chained + 1;
      }
    }

    method PushInput(line: string) returns (o: Outcome)
      requires Valid()
      modifies this
      ensures Valid()
      ensures Step(Snap(), o) == Push(old(Snap()), line)
    {
      nesting := nesting + 1;
      if nesting > MaxNesting {
        pending := None;
        return Failed(RecursionLimit);
      }
      pending := Some(line);
      o := Done;
    }

    /** ExpandShortcut, with `args` the CSV reading of the text after '@'. */
    method ExpandShortcut(args: Option<seq<string>>) returns (o: Outcome)
      requires Valid()
      modifies this
      ensures Valid()
      ensures Step(Snap(), o) == ExpandStep(old(Snap()), args)
    {
      if args.None? {
        return Failed(BadArguments);
      }
      var tokens := args.value;
      if |tokens| < 1 {
        return Failed(MissingShortcutName);
      }
      var shortcutName := tokens[0];
      if shortcutName == [] {
        return Failed(RuntimePanic);
      }
      var showOnly := false;
      if shortcutName[0] == '?' {
        showOnly := true;
        shortcutName := shortcutName[1..];
      }
      if shortcutName !in shortcuts {
        return Failed(UndefinedShortcut(shortcutName));
      }
      var result := Substitute(shortcuts[shortcutName], tokens);
      if result.Err? {
        return Failed(result.error);
      }
      if showOnly {
        return Shown(result.value);
      }
      o := PushInput(result.value);
    }

    method HandleCommand(line: string) returns (o: Outcome)
      requires Valid() && line != []
      modifies this
      ensures Valid()
      ensures Step(Snap(), o) == CommandStep(old(Snap()), line)
    {
      var tokens := Split(line[1..], ' ');
      if tokens[0] == [] {
        return Failed(RuntimePanic);
      }
      match tokens[0][0] {
        case 'q' =>
          connected := false;
          o := Quit;
        case 't' =>
          o := if |tokens| < 2 then Failed(RuntimePanic) else Delegated('t');
        case 'c' =>
          o := if |tokens| < 2 then Failed(RuntimePanic) else Delegated('c');
        case 'd' =>
          if connected {
            connected := false;
            o := Delegated('d');
          } else {
            o := Failed(RuntimePanic);
          }
        case 'n' =>
          if |tokens| < 2 {
            return Failed(RuntimePanic);
          }
          name := tokens[1];
          o := Done;
        case 's' =>
          var parts := SplitN(line, ' ', 3);
          if |parts| == 1 {
            var names := ListNames();
            o := Listed(names);
          } else if |parts| == 2 {
            o := Found(parts[1], if parts[1] in shortcuts then Some(shortcuts[parts[1]]) else None);
          } else {
            shortcuts := shortcuts[parts[1] := parts[2]];
            SaveShortcuts();
            o := Done;
          }
        case 'l' =>
          o := if connected then Delegated('l') else Failed(NotConnected);
        case _ =>
          o := Failed(UnsupportedCommand);
      }
    }

    /** Execute, with `args` the CSV reading of the text after '@'. */
    method Execute(line: string, args: Option<seq<string>>) returns (o: Outcome)
      requires Valid()
      modifies this
      ensures Valid()
      ensures Step(Snap(), o) == ExecuteStep(old(Snap()), line, args)
    {
      if |line| == 0 {
        return Done;
      }
      if line[0] == '!' {
        o := HandleCommand(line);
      } else if line[0] == '@' {
        o := ExpandShortcut(args);
      } else if connected {
        var packet := Packet.ParsePacketCommand(line);
        if packet.Err? {
          return Failed(packet.error);
        }
        o := if packet.value.name != "Request" then Sent(packet.value) else Submitted(packet.value);
      } else {
        o := Failed(NotConnected);
      }
    }

    /** loadShortcuts: without a file nothing changes; otherwise the table is cleared and
        the file's lines are read into it. */
    method LoadShortcuts() returns (o: Outcome)
      requires Valid()
      modifies this
      ensures Valid()
      ensures Step(Snap(), o) == LoadStep(old(Snap()))
    {
      if file.None? {
        return Done;
      }
      var lines := Split(file.value, '\n');
      shortcuts := map[];
      o := ReadLines(lines);
    }

    /** The loop of loadShortcuts: each non-empty line is cut at its first ':' and sets a
        shortcut, until a line without ':' stops it. */
    method ReadLines(lines: seq<string>) returns (o: Outcome)
      modifies this
      ensures var r := LoadLines(lines, old(shortcuts));
        && Snap() == old(Snap()).(shortcuts := r.table)
        && o == if r.Loaded? then Done else Failed(InvalidShortcutDefinition(r.line))
    {
      ghost var loaded := LoadLines(lines, shortcuts);
      var k := 0;
      while k < |lines|
        invariant 0 <= k <= |lines|
        invariant Snap() == old(Snap()).(shortcuts := shortcuts)
        invariant loaded == LoadLines(lines[k..], shortcuts)
      {
        var line := lines[k];
        LoadFrom(lines, k, shortcuts);
        if |line| > 0 {
          var parts := SplitN(line, ':', 2);
          if |parts| < 2 {
            return Failed(InvalidShortcutDefinition(line));
          }
          shortcuts := shortcuts[parts[0] := parts[1]];
        }
        k := k + 1;
      }
      assert lines[k..] == [];
      o := Done;
    }

    /** saveShortcuts: one `name:definition` line per shortcut, in sorted order. */
    method SaveShortcuts()
      modifies this
      ensures Step(Snap(), Done) == Saved(old(Snap()))
    {
      var names := ListNames();
      SortedNamesSorted(shortcuts.Keys);
      var text := WriteEntries(shortcuts, names);
      file := Some(text);
    }

    /** The names of the shortcuts, sorted: the keys of the table are collected and each
        is put in its place. */
    method ListNames() returns (names: seq<string>)
      ensures names == SortedNames(shortcuts.Keys)
    {
      names := [];
      var rest := shortcuts.Keys;
      while rest != {}
        invariant rest <= shortcuts.Keys
        invariant Sorted(names)
        invariant forall y :: y in names <==> y in shortcuts && y !in rest
        decreases |rest|
      {
        var k :| k in rest;
        names := Insert(names, k);
        rest := rest - {k};
      }
      SortedNamesSorted(shortcuts.Keys);
      SortedUnique(names, SortedNames(shortcuts.Keys));
    }
  }
}
