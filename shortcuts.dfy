/** Shortcuts of mssh.go: the `$d` substitution ExpandShortcut applies to a shortcut's
    template, and the `name:definition` lines of the shortcut file (loadShortcuts,
    saveShortcuts). */
module Shortcuts {
  import opened Errors
  import opened GoStrings

  // ---------------------------------------------------------------------------------
  // Template substitution

  /** The argument number ExpandShortcut reads after a '$': the byte subtraction
      shortcut[i+1] - '0' wraps around modulo 256 before it is widened to int. */
  function Digit(c: char): (d: int)
    ensures 0 <= d < 256
    ensures '0' <= c <= '9' ==> d == c as int - '0' as int
  {
    (c as int - '0' as int) % 256
  }

  /** A '$' the loop substitutes: not the first character, not after a backslash and not
      the last character. */
  predicate Placeholder(t: string, i: nat)
    requires i < |t|
  {
    t[i] == '$' && i > 0 && t[i - 1] != '\\' && i < |t| - 1
  }

  /** The only way an expansion fails: an argument number with no argument. */
  predicate BadIndex(e: Error, tokens: seq<string>)
  {
    e.InvalidArgumentIndex? && (e.index < 1 || e.index >= |tokens|)
  }

  /** `p` in front of a successful result; an error stays as it is. */
  function Prefix(p: string, r: Result<string>): Result<string>
  {
    if r.Ok? then Ok(p + r.value) else r
  }

  /** What the substitution loop appends from position i of template t on, where tokens[0]
      is the shortcut's name and tokens[d] its d-th argument: nothing at the end ... */
  function ExpandFrom(t: string, tokens: seq<string>, i: nat): (r: Result<string>)
    requires i <= |t|
    ensures r.Err? ==> BadIndex(r.error, tokens)
    decreases |t| - i, 2
  {
    if i == |t| then Ok([]) else ExpandAt(t, tokens, i)
  }

  /** ... else the substitution of the placeholder at i, or the character at i copied,
      in front of the rest. */
  function ExpandAt(t: string, tokens: seq<string>, i: nat): (r: Result<string>)
    requires i < |t|
    ensures r.Err? ==> BadIndex(r.error, tokens)
    decreases |t| - i, 1
  {
    if Placeholder(t, i) then ExpandArgument(t, tokens, i)
    else Prefix([t[i]], ExpandFrom(t, tokens, i + 1))
  }

  /** The placeholder at i, with the digit after it: an argument number outside 1 to
      |tokens| - 1 ends the expansion with an error. */
  function ExpandArgument(t: string, tokens: seq<string>, i: nat): (r: Result<string>)
    requires i + 1 < |t|
    ensures r.Err? ==> BadIndex(r.error, tokens)
    decreases |t| - i, 0
  {
    var d := Digit(t[i + 1]);
    if d < 1 || d >= |tokens| then Err(InvalidArgumentIndex(d))
    else Prefix(tokens[d], ExpandFrom(t, tokens, i + 2))
  }

  /** The expansion of a whole template. */
  function Expand(t: string, tokens: seq<string>): Result<string>
  {
    ExpandFrom(t, tokens, 0)
  }

  lemma PrefixEmpty(r: Result<string>)
    ensures Prefix([], r) == r
  {
    if r.Ok? {
      assert [] + r.value == r.value;
    }
  }

  lemma PrefixAppend(p: string, q: string, r: Result<string>)
    ensures Prefix(p, Prefix(q, r)) == Prefix(p + q, r)
  {
    if r.Ok? {
      assert p + (q + r.value) == (p + q) + r.value;
    }
  }

  /** The loop of ExpandShortcut (mssh.go:307-322), building the result left to right. */
  method Substitute(t: string, tokens: seq<string>) returns (r: Result<string>)
    ensures r == Expand(t, tokens)
  {
    var result := "";
    var i := 0;
    PrefixEmpty(Expand(t, tokens));
    while i < |t|
      invariant 0 <= i <= |t|
      invariant Expand(t, tokens) == Prefix(result, ExpandFrom(t, tokens, i))
      decreases |t| - i
    {
      var c := t[i];
      if c == '$' && i > 0 && t[i - 1] != '\\' && i < |t| - 1 {
        var d := Digit(t[i + 1]);
        assert ExpandFrom(t, tokens, i) == ExpandArgument(t, tokens, i);
        if d < 1 || d >= |tokens| {
          return Err(InvalidArgumentIndex(d));
        }
        PrefixAppend(result, tokens[d], ExpandFrom(t, tokens, i + 2));
        i := i + 1;
        result := result + tokens[d];
      } else {
        PrefixAppend(result, [c], ExpandFrom(t, tokens, i + 1));
        result := result + [c];
      }
      i := i + 1;
    }
    assert result + [] == result;
    r := Ok(result);
  }

  /** A template without a substituted '$' expands to itself: a leading or trailing '$',
      one after a backslash, and the backslash itself are all kept. */
  lemma ExpandLiteral(t: string, tokens: seq<string>)
    requires forall k :: 0 <= k < |t| ==> !Placeholder(t, k)
    ensures Expand(t, tokens) == Ok(t)
  {
    LiteralFrom(t, tokens, 0);
  }

  lemma {:induction false} LiteralFrom(t: string, tokens: seq<string>, i: nat)
    requires i <= |t|
    requires forall k :: i <= k < |t| ==> !Placeholder(t, k)
    ensures ExpandFrom(t, tokens, i) == Ok(t[i..])
    decreases |t| - i
  {
    if i < |t| {
      LiteralFrom(t, tokens, i + 1);
      assert !Placeholder(t, i);
      assert ExpandFrom(t, tokens, i) == Prefix([t[i]], Ok(t[i + 1..]));
      assert t[i..] == [t[i]] + t[i + 1..];
    } else {
      assert t[i..] == [];
    }
  }

  /** A template as its author means it: literal characters and references `$d` to the
      d-th argument. */
  datatype Piece = Lit(c: char) | Arg(digit: char)

  function PieceText(p: Piece): string
  {
    match p
    case Lit(c) => [c]
    case Arg(digit) => ['$', digit]
  }

  /** A template as a list of pieces. */
  datatype Pieces = End | Then(first: Piece, rest: Pieces)

  /** The template text of pieces. */
  function Text(ps: Pieces): string
  {
    match ps
    case End => []
    case Then(p, rest) => PieceText(p) + Text(rest)
  }

  /** Pieces whose text reads back as themselves: no literal '$', and no reference right
      after a literal backslash. */
  predicate Plain(ps: Pieces)
  {
    match ps
    case End => true
    case Then(p, rest) =>
      && !(p.Lit? && p.c == '$')
      && !(p == Lit('\\') && rest.Then? && rest.first.Arg?)
      && Plain(rest)
  }

  /** Every reference names a digit 1-9 below n. */
  predicate ArgsBelow(ps: Pieces, n: nat)
  {
    match ps
    case End => true
    case Then(p, rest) =>
      && (p.Arg? ==> '1' <= p.digit <= '9' && Digit(p.digit) < n)
      && ArgsBelow(rest, n)
  }

  /** The meaning of one piece: a literal as it is, a reference replaced by its argument. */
  function Meaning(p: Piece, tokens: seq<string>): string
    requires p.Arg? ==> Digit(p.digit) < |tokens|
  {
    match p
    case Lit(c) => [c]
    case Arg(digit) => tokens[Digit(digit)]
  }

  /** The meaning of pieces, in order. */
  function Render(ps: Pieces, tokens: seq<string>): string
    requires ArgsBelow(ps, |tokens|)
  {
    match ps
    case End => []
    case Then(p, rest) => Meaning(p, tokens) + Render(rest, tokens)
  }

  /** Expanding the text of plain pieces found at position i renders them. */
  lemma {:induction false} ExpandPieces(t: string, tokens: seq<string>, i: nat, ps: Pieces)
    requires Plain(ps) && ArgsBelow(ps, |tokens|)
    requires i + |Text(ps)| <= |t| && t[i..i + |Text(ps)|] == Text(ps)
    requires ps.Then? && ps.first.Arg? ==> i > 0 && t[i - 1] != '\\'
    ensures ExpandFrom(t, tokens, i) == Prefix(Render(ps, tokens), ExpandFrom(t, tokens, i + |Text(ps)|))
    decreases ps
  {
    match ps
    case End =>
      PrefixEmpty(ExpandFrom(t, tokens, i));
    case Then(p, rest) =>
      var n := |PieceText(p)|;
      SliceParts(t, i, PieceText(p), Text(rest));
      assert rest.Then? && rest.first.Arg? ==> t[i + n - 1] != '\\' by {
        assert t[i + n - 1] == t[i..i + n][n - 1];
      }
      PieceStep(t, tokens, i, p);
      ExpandPieces(t, tokens, i + n, rest);
      PrefixAppend(Meaning(p, tokens), Render(rest, tokens), ExpandFrom(t, tokens, i + |Text(ps)|));
  }

  /** One turn of the substitution loop over the text of a piece. */
  lemma PieceStep(t: string, tokens: seq<string>, i: nat, p: Piece)
    requires i + |PieceText(p)| <= |t| && t[i..i + |PieceText(p)|] == PieceText(p)
    requires !(p.Lit? && p.c == '$')
    requires p.Arg? ==> '1' <= p.digit <= '9' && Digit(p.digit) < |tokens| && i > 0 && t[i - 1] != '\\'
    ensures ExpandFrom(t, tokens, i) == Prefix(Meaning(p, tokens), ExpandFrom(t, tokens, i + |PieceText(p)|))
  {
    var n := |PieceText(p)|;
    assert t[i] == t[i..i + n][0];
    if p.Arg? {
      assert t[i + 1] == t[i..i + n][1];
      assert ExpandFrom(t, tokens, i) == ExpandArgument(t, tokens, i);
    }
  }

  /** A template made of plain pieces, not starting with a reference, expands to the
      rendering of its pieces. */
  lemma ExpandTemplate(ps: Pieces, tokens: seq<string>)
    requires Plain(ps) && ArgsBelow(ps, |tokens|)
    requires ps.End? || ps.first.Lit?
    ensures Expand(Text(ps), tokens) == Ok(Render(ps, tokens))
  {
    var t := Text(ps);
    assert t[0..|t|] == t;
    ExpandPieces(t, tokens, 0, ps);
    assert Render(ps, tokens) + [] == Render(ps, tokens);
  }

  /** `ping $1 $2` called with the arguments `host 22` expands to `ping host 22`. */
  lemma PingExample()
    ensures Expand("ping $1 $2", ["ping", "host", "22"]) == Ok("ping host 22")
  {
    var ps := PingPieces();
    ExpandTemplate(ps, ["ping", "host", "22"]);
  }

  /** The pieces of the template `ping $1 $2`. */
  lemma PingPieces() returns (ps: Pieces)
    ensures ps.Then? && ps.first.Lit? && Plain(ps) && ArgsBelow(ps, 3)
    ensures Text(ps) == "ping $1 $2" && Render(ps, ["ping", "host", "22"]) == "ping host 22"
  {
    var tokens := ["ping", "host", "22"];
    ps := Then(Arg('2'), End);
    assert Text(ps) == "$2" && Render(ps, tokens) == "22";
    ps := LitStep(' ', ps, tokens);
    ps := ArgStep('1', ps, tokens);
    ps := LitStep(' ', ps, tokens);
    ps := LitStep('g', ps, tokens);
    ps := LitStep('n', ps, tokens);
    ps := LitStep('i', ps, tokens);
    ps := LitStep('p', ps, tokens);
    assert Text(ps) == "ping $1 $2";
    assert Render(ps, tokens) == "ping host 22";
  }

  /** A plain character in front of plain pieces. */
  lemma LitStep(c: char, ps: Pieces, tokens: seq<string>) returns (q: Pieces)
    requires c != '$' && c != '\\' && Plain(ps) && ArgsBelow(ps, |tokens|)
    ensures q == Then(Lit(c), ps) && Plain(q) && ArgsBelow(q, |tokens|)
    ensures Text(q) == [c] + Text(ps) && Render(q, tokens) == [c] + Render(ps, tokens)
  {
    q := Then(Lit(c), ps);
  }

  /** A reference to an argument that is there, in front of plain pieces. */
  lemma ArgStep(d: char, ps: Pieces, tokens: seq<string>) returns (q: Pieces)
    requires '1' <= d <= '9' && Digit(d) < |tokens| && Plain(ps) && ArgsBelow(ps, |tokens|)
    ensures q == Then(Arg(d), ps) && Plain(q) && ArgsBelow(q, |tokens|)
    ensures Text(q) == ['$', d] + Text(ps) && Render(q, tokens) == tokens[Digit(d)] + Render(ps, tokens)
  {
    q := Then(Arg(d), ps);
  }

  /** A reference to an argument that is not there ends the expansion with an error. */
  lemma ExpandMissingArgument(ps: Pieces, c: char, s: string, tokens: seq<string>)
    requires Plain(ps) && ArgsBelow(ps, |tokens|)
    requires ps.End? || ps.first.Lit?
    requires Text(ps) != [] && Text(ps)[|Text(ps)| - 1] != '\\'
    requires Digit(c) < 1 || Digit(c) >= |tokens|
    ensures Expand(Text(ps) + ['$', c] + s, tokens) == Err(InvalidArgumentIndex(Digit(c)))
  {
    var p := Text(ps);
    var t := p + ['$', c] + s;
    assert t[0..|p|] == p;
    ExpandPieces(t, tokens, 0, ps);
    assert t[|p|] == '$' && t[|p| + 1] == c && t[|p| - 1] == p[|p| - 1];
    assert ExpandFrom(t, tokens, |p|) == ExpandArgument(t, tokens, |p|);
  }

  /** A '$' before a letter is read as an argument number too: in `ls $x` the 'x' is
      argument 72, and the expansion fails rather than keep the text. */
  lemma DollarLetter()
    ensures Expand("ls $x", ["ls"]) == Err(InvalidArgumentIndex(72))
  {
    var ps := Then(Lit('l'), Then(Lit('s'), Then(Lit(' '), End)));
    assert Text(ps) == "ls " && Plain(ps) && ArgsBelow(ps, 1);
    assert "ls $x" == Text(ps) + ['$', 'x'] + [];
    ExpandMissingArgument(ps, 'x', [], ["ls"]);
  }

  /** What ExpandShortcut makes of the arguments after '@': whether the name was marked
      with '?' to only show the result, and the expanded text. */
  datatype Expansion = Expansion(showOnly: bool, text: string)

  /** ExpandShortcut up to the substitution: the CSV-split arguments (None when the CSV
      reader fails), the name looked up first, then the template expanded. */
  function ExpandCall(table: map<string, string>, args: Option<seq<string>>): (r: Result<Expansion>)
    ensures r.Ok? ==> args.Some? && |args.value| >= 1 && args.value[0] != []
    ensures r.Ok? ==> r.value.showOnly == (args.value[0][0] == '?')
    ensures r.Ok? ==> var n := ShortcutName(args.value[0]);
      n in table && Expand(table[n], args.value) == Ok(r.value.text)
    ensures args.None? ==> r == Err(BadArguments)
    ensures args.Some? && |args.value| == 0 ==> r == Err(MissingShortcutName)
    ensures args.Some? && |args.value| >= 1 && args.value[0] == [] ==> r == Err(RuntimePanic)
    ensures args.Some? && |args.value| >= 1 && args.value[0] != [] ==>
      var n := ShortcutName(args.value[0]);
      && (n !in table ==> r == Err(UndefinedShortcut(n)))
      && (n in table ==>
            var e := Expand(table[n], args.value);
            && (r.Ok? <==> e.Ok?)
            && (e.Err? ==> r == Err(e.error)))
  {
    if args.None? then Err(BadArguments)
    else
      var tokens := args.value;
      if |tokens| < 1 then Err(MissingShortcutName)
      else if tokens[0] == [] then Err(RuntimePanic)
      else
        var name := ShortcutName(tokens[0]);
        if name !in table then Err(UndefinedShortcut(name))
        else match Expand(table[name], tokens)
          case Err(e) => Err(e)
          case Ok(text) => Ok(Expansion(tokens[0][0] == '?', text))
  }

  /** The shortcut name of the first argument: a leading '?' is not part of it. */
  function ShortcutName(first: string): (name: string)
    requires first != []
    ensures first == (if first[0] == '?' then "?" else "") + name
  {
    if first[0] == '?' then first[1..] else first
  }

  /** The name is looked up before the template is read: an unknown name is the error,
      whatever the template or the arguments. */
  lemma UnknownNameFirst(table: map<string, string>, tokens: seq<string>)
    requires |tokens| >= 1 && tokens[0] != [] && ShortcutName(tokens[0]) !in table
    ensures ExpandCall(table, Some(tokens)) == Err(UndefinedShortcut(ShortcutName(tokens[0])))
  {
  }

  // ---------------------------------------------------------------------------------
  // The shortcut file

  /** One line of the shortcut file, as saveShortcuts formats "%v:%v\n", without the
      newline. */
  function Entry(name: string, definition: string): (line: string)
    ensures ':' !in name ==> SplitN(line, ':', 2) == [name, definition]
  {
    if ':' !in name then SplitNFirst(name, definition, ':'); name + ":" + definition
    else name + ":" + definition
  }

  /** The file saveShortcuts writes when it visits the names in `order`. */
  function Serialize(table: map<string, string>, order: seq<string>): (text: string)
    requires forall k :: 0 <= k < |order| ==> order[k] in table
    ensures text == [] <==> order == []
    ensures text != [] ==> text[|text| - 1] == '\n'
    decreases order
  {
    if order == [] then []
    else Entry(order[0], table[order[0]]) + "\n" + Serialize(table, order[1..])
  }

  /** The file from the k-th name on: the k-th line, then the file from the next name. */
  lemma SerializeFrom(table: map<string, string>, order: seq<string>, k: nat)
    requires forall k :: 0 <= k < |order| ==> order[k] in table
    requires k < |order|
    ensures Serialize(table, order[k..]) == Entry(order[k], table[order[k]]) + "\n" + Serialize(table, order[k + 1..])
  {
    assert order[k..][1..] == order[k + 1..];
  }

  /** The loop of saveShortcuts: one line per name, in the order given. */
  method WriteEntries(table: map<string, string>, order: seq<string>) returns (text: string)
    requires forall k :: 0 <= k < |order| ==> order[k] in table
    ensures text == Serialize(table, order)
  {
    text := "";
    var k := 0;
    while k < |order|
      invariant 0 <= k <= |order|
      invariant Serialize(table, order) == text + Serialize(table, order[k..])
    {
      SerializeFrom(table, order, k);
      var entry := Entry(order[k], table[order[k]]) + "\n";
      assert text + Serialize(table, order[k..]) == (text + entry) + Serialize(table, order[k + 1..]);
      text := text + entry;
      k := k + 1;
    }
    assert order[k..] == [] && text + [] == text;
  }

  /** The lines of that file. */
  function Lines(table: map<string, string>, order: seq<string>): (lines: seq<string>)
    requires forall k :: 0 <= k < |order| ==> order[k] in table
    ensures |lines| == |order|
    decreases order
  {
    if order == [] then [] else [Entry(order[0], table[order[0]])] + Lines(table, order[1..])
  }

  /** What loadShortcuts leaves in the table: all of it when every line is read, or what
      was read before the line it rejects. */
  datatype Loaded = Loaded(table: map<string, string>) | Rejected(table: map<string, string>, line: string)

  /** The loop of loadShortcuts over the file's lines: an empty line is skipped, a line is
      cut at its first ':', and a line without one stops the loading. */
  function LoadLines(lines: seq<string>, table: map<string, string>): (r: Loaded)
    ensures table.Keys <= r.table.Keys
    ensures r.Rejected? ==> r.line in lines && r.line != [] && ':' !in r.line
    decreases lines
  {
    if lines == [] then Loaded(table)
    else if lines[0] == [] then LoadLines(lines[1..], table)
    else
      var parts := SplitN(lines[0], ':', 2);
      if |parts| < 2 then Rejected(table, lines[0])
      else LoadLines(lines[1..], table[parts[0] := parts[1]])
  }

  /** One turn of the loading loop, at the k-th line. */
  lemma LoadFrom(lines: seq<string>, k: nat, acc: map<string, string>)
    requires k < |lines|
    ensures LoadLines(lines[k..], acc)
         == if lines[k] == [] then LoadLines(lines[k + 1..], acc)
            else if |SplitN(lines[k], ':', 2)| < 2 then Rejected(acc, lines[k])
            else LoadLines(lines[k + 1..], acc[SplitN(lines[k], ':', 2)[0] := SplitN(lines[k], ':', 2)[1]])
  {
    assert lines[k..][0] == lines[k] && lines[k..][1..] == lines[k + 1..];
  }

  /** loadShortcuts of the file's text: the table is cleared first. */
  function Load(content: string): (r: Loaded)
    ensures r.Rejected? ==> r.line in Split(content, '\n') && r.line != [] && ':' !in r.line
  {
    LoadLines(Split(content, '\n'), map[])
  }

  lemma {:induction false} SerializeJoin(table: map<string, string>, order: seq<string>)
    requires forall k :: 0 <= k < |order| ==> order[k] in table
    ensures Serialize(table, order) == Join(Lines(table, order) + [[]], '\n')
    decreases order
  {
    if order != [] {
      var rest := Lines(table, order[1..]) + [[]];
      SerializeJoin(table, order[1..]);
      assert Lines(table, order) + [[]] == [Entry(order[0], table[order[0]])] + rest;
      JoinCons(Entry(order[0], table[order[0]]), rest, '\n');
    }
  }

  /** The lines of names and definitions free of newlines hold no newline. */
  lemma LinesFree(table: map<string, string>, order: seq<string>)
    requires forall k :: 0 <= k < |order| ==> order[k] in table
    requires forall k :: k in table ==> '\n' !in k && '\n' !in table[k]
    ensures forall m :: 0 <= m < |order| + 1 ==> '\n' !in (Lines(table, order) + [[]])[m]
  {
    var lines := Lines(table, order) + [[]];
    forall m | 0 <= m < |order| + 1
      ensures '\n' !in lines[m]
    {
      if m < |order| {
        LineAt(table, order, m);
      }
    }
  }

  lemma {:induction false} LineAt(table: map<string, string>, order: seq<string>, m: nat)
    requires forall k :: 0 <= k < |order| ==> order[k] in table
    requires m < |order|
    ensures Lines(table, order)[m] == Entry(order[m], table[order[m]])
    decreases m
  {
    if m > 0 {
      LineAt(table, order[1..], m - 1);
    }
  }

  /** Reading the lines of entries with names free of ':' sets each name to its
      definition, later lines over earlier ones, on top of `acc`. */
  lemma {:induction false} LoadEntries(table: map<string, string>, order: seq<string>, acc: map<string, string>)
    requires forall k :: 0 <= k < |order| ==> order[k] in table && ':' !in order[k]
    ensures var r := LoadLines(Lines(table, order) + [[]], acc);
      && r.Loaded?
      && (forall k :: k in r.table <==> k in acc || k in order)
      && (forall k :: k in r.table ==> r.table[k] == if k in order then table[k] else acc[k])
    decreases order
  {
    if order == [] {
      assert Lines(table, order) + [[]] == [[]];
    } else {
      var name := order[0];
      var line := Entry(name, table[name]);
      var rest := Lines(table, order[1..]) + [[]];
      assert Lines(table, order) + [[]] == [line] + rest;
      assert line == name + [':'] + table[name];
      SplitNFirst(name, table[name], ':');
      LoadEntries(table, order[1..], acc[name := table[name]]);
      assert ([line] + rest)[1..] == rest;
      assert forall k :: k in order <==> k == name || k in order[1..];
    }
  }

  /** Loading the file saveShortcuts writes gives back the table, in whatever order the
      names were visited, when no name holds ':' or a newline and no definition a
      newline. */
  lemma LoadSerialize(table: map<string, string>, order: seq<string>)
    requires forall k :: k in table <==> k in order
    requires forall k :: k in table ==> ':' !in k && '\n' !in k && '\n' !in table[k]
    ensures Load(Serialize(table, order)) == Loaded(table)
  {
    var lines := Lines(table, order) + [[]];
    SerializeJoin(table, order);
    LinesFree(table, order);
    SplitJoin(lines, '\n');
    LoadEntries(table, order, map[]);
    var r := LoadLines(lines, map[]);
    SameMap(r.table, table);
  }

  lemma SameMap(a: map<string, string>, b: map<string, string>)
    requires forall k :: k in a <==> k in b
    requires forall k :: k in a ==> a[k] == b[k]
    ensures a == b
  {
  }

  /** The round trip needs names free of ':': a name holding one reloads cut at it. */
  lemma ColonInName()
    ensures Load(Serialize(map["a:b" := "c"], ["a:b"])) == Loaded(map["a" := "b:c"])
  {
    var table := map["a:b" := "c"];
    var text := "a:b:c" + ['\n'] + [];
    assert Serialize(table, ["a:b"]) == text by {
      assert ["a:b"][1..] == [];
    }
    SplitAt("a:b:c", [], '\n');
    assert Split(text, '\n') == ["a:b:c", []];
    LoadColonLine();
  }

  /** The lines of ColonInName's file, read back. */
  lemma LoadColonLine()
    ensures LoadLines(["a:b:c", []], map[]) == Loaded(map["a" := "b:c"])
  {
    var lines: seq<string> := ["a:b:c", []];
    assert "a:b:c" == "a" + [':'] + "b:c";
    SplitNFirst("a", "b:c", ':');
    var loaded := map["a" := "b:c"];
    assert LoadLines(lines[1..], loaded) == Loaded(loaded) by {
      assert lines[1..][1..] == [];
    }
  }

  /** A later line for a name overwrites what an earlier one set. */
  lemma {:induction false} LaterLineWins(lines: seq<string>, acc: map<string, string>, name: string, definition: string)
    requires LoadLines(lines, acc).Loaded? && ':' !in name
    ensures LoadLines(lines + [Entry(name, definition)], acc)
         == Loaded(LoadLines(lines, acc).table[name := definition])
    decreases lines
  {
    if lines == [] {
      assert Entry(name, definition) == name + [':'] + definition;
      SplitNFirst(name, definition, ':');
      assert ([Entry(name, definition)])[1..] == [];
    } else {
      assert (lines + [Entry(name, definition)])[1..] == lines[1..] + [Entry(name, definition)];
      if lines[0] == [] {
        LaterLineWins(lines[1..], acc, name, definition);
      } else {
        var parts := SplitN(lines[0], ':', 2);
        LaterLineWins(lines[1..], acc[parts[0] := parts[1]], name, definition);
      }
    }
  }

  /** A non-empty line without ':' stops the loading there, keeping what the lines before
      it set. */
  lemma {:induction false} RejectsLine(lines: seq<string>, acc: map<string, string>, line: string, rest: seq<string>)
    requires LoadLines(lines, acc).Loaded? && line != [] && ':' !in line
    ensures LoadLines(lines + [line] + rest, acc) == Rejected(LoadLines(lines, acc).table, line)
    decreases lines
  {
    if lines == [] {
      assert (lines + [line] + rest)[0] == line && SplitN(line, ':', 2) == [line];
    } else {
      assert (lines + [line] + rest)[1..] == lines[1..] + [line] + rest;
      if lines[0] == [] {
        RejectsLine(lines[1..], acc, line, rest);
      } else {
        var parts := SplitN(lines[0], ':', 2);
        RejectsLine(lines[1..], acc[parts[0] := parts[1]], line, rest);
      }
    }
  }
}
