/** The packet-line parser of mssh.go (parsePacketCommand and parseTokens): one line of
    space-separated tokens becomes the element tree of a message-stream packet. */
module Packet {
  import opened Errors
  import opened GoStrings

  /** A packet element: a name, string attributes and ordered children. */
  datatype Element = Element(name: string, attrs: map<string, string>, children: seq<Child>)

  /** A child of an element: a nested element or a piece of text. */
  datatype Child = Sub(element: Element) | Text(text: string)

  /** What parseTokens hands back on success: the cursor where it stopped, and the element
      it was given, filled with what it read. */
  datatype Parsed = Parsed(next: nat, element: Element)

  /** The errors reading tokens can end in. */
  predicate TokenError(err: Error)
  {
    err.RuntimePanic? || err.MissingChildName? || err.UnterminatedChild? || err.UnterminatedString?
  }

  /** parseTokens(tokens, i, &e): reads items from token i on into `e`, up to the '>' that
      closes `e` or the end of the tokens. The loop stops at the end of the tokens ... */
  function ParseFrom(tokens: seq<string>, i: nat, e: Element): (r: Result<Parsed>)
    requires i <= |tokens|
    ensures r.Ok? ==> i <= r.value.next <= |tokens|
    ensures r.Ok? ==> r.value.next == |tokens| || tokens[r.value.next] == ">"
    ensures r.Ok? ==> r.value.element.name == e.name
    ensures r.Err? ==> TokenError(r.error)
    decreases |tokens| - i, 2
  {
    if i == |tokens| then Ok(Parsed(i, e)) else ParseAt(tokens, i, e)
  }

  /** ... and at a '>' token, which closes `e`. */
  function ParseAt(tokens: seq<string>, i: nat, e: Element): (r: Result<Parsed>)
    requires i < |tokens|
    ensures r.Ok? ==> i <= r.value.next <= |tokens|
    ensures r.Ok? ==> r.value.next == |tokens| || tokens[r.value.next] == ">"
    ensures r.Ok? ==> r.value.element.name == e.name
    ensures r.Err? ==> TokenError(r.error)
    decreases |tokens| - i, 1
  {
    if tokens[i] == ">" then Ok(Parsed(i, e)) else ReadItem(tokens, i, e)
  }

  /** One turn of the loop: the item that starts at token i is read into `e`, then the
      loop goes on after it. */
  function ReadItem(tokens: seq<string>, i: nat, e: Element): (r: Result<Parsed>)
    requires i < |tokens| && tokens[i] != ">"
    ensures r.Ok? ==> i <= r.value.next <= |tokens|
    ensures r.Ok? ==> r.value.next == |tokens| || tokens[r.value.next] == ">"
    ensures r.Ok? ==> r.value.element.name == e.name
    ensures r.Err? ==> TokenError(r.error)
    decreases |tokens| - i, 0
  {
    var token := tokens[i];
    if token == [] then Err(RuntimePanic)
    else if token[0] == '<' then
      if |token| == 1 && i + 1 >= |tokens| then Err(MissingChildName)
      else
        var name := if |token| > 1 then token[1..] else tokens[i + 1];
        var j := if |token| > 1 then i + 1 else i + 2;
        match ParseFrom(tokens, j, Element(name, map[], []))
        case Err(err) => Err(err)
        case Ok(Parsed(k, child)) =>
          if k >= |tokens| || tokens[k] != ">" then Err(UnterminatedChild)
          else ParseFrom(tokens, k + 1, e.(children := e.children + [Sub(child)]))
    else if token[0] != '"' && '=' in token then
      var fields := Split(token, '=');
      ParseFrom(tokens, i + 1, e.(attrs := e.attrs[fields[0] := fields[1]]))
    else if token[0] == '"' && token[|token| - 1] != '"' then Err(UnterminatedString)
    else if token[0] == '"' && |token| == 1 then Err(RuntimePanic)
    else
      var text := if token[0] == '"' then token[1..|token| - 1] else token;
      ParseFrom(tokens, i + 1, e.(children := e.children + [Text(text)]))
  }

  /** Before a token other than '>', reading goes through one turn of the loop. */
  lemma ReadsItem(tokens: seq<string>, i: nat, e: Element)
    requires i < |tokens| && tokens[i] != ">"
    ensures ParseFrom(tokens, i, e) == ReadItem(tokens, i, e)
  {
  }

  /** parseTokens only adds to `e`: every attribute key it had stays, and its children
      stay in front of the new ones. */
  lemma {:induction false} ParseKeeps(tokens: seq<string>, i: nat, e: Element)
    requires i <= |tokens| && ParseFrom(tokens, i, e).Ok?
    ensures e.attrs.Keys <= ParseFrom(tokens, i, e).value.element.attrs.Keys
    ensures e.children <= ParseFrom(tokens, i, e).value.element.children
    decreases |tokens| - i
  {
    if i < |tokens| && tokens[i] != ">" {
      ReadsItem(tokens, i, e);
      var token := tokens[i];
      if token[0] == '<' {
        var name := if |token| > 1 then token[1..] else tokens[i + 1];
        var j := if |token| > 1 then i + 1 else i + 2;
        var child := ParseFrom(tokens, j, Element(name, map[], [])).value;
        ParseKeeps(tokens, child.next + 1, e.(children := e.children + [Sub(child.element)]));
      } else if token[0] != '"' && '=' in token {
        var fields := Split(token, '=');
        ParseKeeps(tokens, i + 1, e.(attrs := e.attrs[fields[0] := fields[1]]));
      } else {
        var text := if token[0] == '"' then token[1..|token| - 1] else token;
        ParseKeeps(tokens, i + 1, e.(children := e.children + [Text(text)]));
      }
    }
  }

  /** parseTokens as the source writes it: a cursor loop that fills the element, recursing
      for each child group. */
  method ParseTokens(tokens: seq<string>, i: nat, e: Element) returns (r: Result<Parsed>)
    requires i <= |tokens|
    ensures r == ParseFrom(tokens, i, e)
    decreases |tokens| - i
  {
    var cursor, element := i, e;
    while cursor < |tokens| && tokens[cursor] != ">"
      invariant i <= cursor <= |tokens|
      invariant ParseFrom(tokens, cursor, element) == ParseFrom(tokens, i, e)
      decreases |tokens| - cursor
    {
      ReadsItem(tokens, cursor, element);
      var token := tokens[cursor];
      if token == [] {
        return Err(RuntimePanic);
      }
      if token[0] == '<' {
        var start, name := cursor, "";
        if |token| > 1 {
          name := token[1..];
        } else {
          if cursor + 1 >= |tokens| {
            return Err(MissingChildName);
          }
          cursor := cursor + 1;
          name := tokens[cursor];
        }
        cursor := cursor + 1;
        var sub := ParseTokens(tokens, cursor, Element(name, map[], []));
        if sub.Err? {
          return Err(sub.error);
        }
        GroupRead(tokens, start, element, cursor, name, sub.value.next, sub.value.element);
        cursor := sub.value.next;
        if cursor >= |tokens| || tokens[cursor] != ">" {
          return Err(UnterminatedChild);
        }
        element := element.(children := element.children + [Sub(sub.value.element)]);
        cursor := cursor + 1;
      } else {
        if token[0] != '"' && '=' in token {
          var fields := Split(token, '=');
          var next := element.(attrs := element.attrs[fields[0] := fields[1]]);
          AttrRead(tokens, cursor, element);
          element, cursor := next, cursor + 1;
        } else {
          var text;
          if token[0] == '"' {
            if token[|token| - 1] != '"' {
              return Err(UnterminatedString);
            }
            if |token| == 1 {
              return Err(RuntimePanic);
            }
            text := token[1..|token| - 1];
          } else {
            text := token;
          }
          var next := element.(children := element.children + [Text(text)]);
          TextRead(tokens, cursor, element, text);
          element, cursor := next, cursor + 1;
        }
      }
    }
    r := Ok(Parsed(cursor, element));
  }

  /** The root element's name: "Request" for a line marked with '?', else "Message". */
  function RootName(isRequest: bool): (name: string)
    ensures name == "Request" <==> isRequest
  {
    if isRequest then "Request" else "Message"
  }

  /** parsePacketCommand(endPoint, line): the packet's element, or why the line is rejected. */
  function ParsePacket(line: string): (r: Result<Element>)
    ensures r.Ok? ==> Trim(line) != []
    ensures r.Ok? ==> r.value.name == RootName(Trim(line)[0] == '?')
    ensures r.Ok? ==> "Type" in r.value.attrs
    ensures r.Err? ==> TokenError(r.error)
  {
    var command := Trim(line);
    if command == [] then Err(RuntimePanic)
    else
      var isRequest := command[0] == '?';
      var rest := if isRequest then Trim(command[1..]) else command;
      PacketOf(isRequest, Split(rest, ' '))
  }

  /** The packet of a split command line: the first token is the packet's Type, the rest
      are read into it. */
  function PacketOf(isRequest: bool, tokens: seq<string>): (r: Result<Element>)
    ensures r.Ok? ==> r.value.name == RootName(isRequest)
    ensures r.Ok? ==> "Type" in r.value.attrs
    ensures r.Err? ==> r.error == MissingCommandType || TokenError(r.error)
    ensures |tokens| >= 1 ==> r != Err(MissingCommandType)
  {
    if |tokens| < 1 then Err(MissingCommandType)
    else
      var root := Element(RootName(isRequest), map["Type" := tokens[0]], []);
      var parsed := ParseFrom(tokens, 1, root);
      if parsed.Err? then Err(parsed.error)
      else
        ParseKeeps(tokens, 1, root);
        Ok(parsed.value.element)
  }

  /** parsePacketCommand as the source writes it, with the endpoint left out. */
  method ParsePacketCommand(line: string) returns (r: Result<Element>)
    ensures r == ParsePacket(line)
  {
    var command := Trim(line);
    if command == [] {
      return Err(RuntimePanic);
    }
    var isRequest := false;
    if command[0] == '?' {
      isRequest := true;
      command := Trim(command[1..]);
    }
    var tokens := Split(command, ' ');
    var element := Element(RootName(isRequest), map[], []);
    if |tokens| < 1 {
      return Err(MissingCommandType);
    }
    element := element.(attrs := element.attrs["Type" := tokens[0]]);
    var parsed := ParseTokens(tokens, 1, element);
    if parsed.Err? {
      return Err(parsed.error);
    }
    r := Ok(parsed.value.element);
  }

  // ---------------------------------------------------------------------------------
  // The grammar the parser recognises, as a syntax tree with a printer and a meaning.

  /** One item of a packet line: `key=value`, a bare word, a quoted text, or a child
      group `<name item... >`. */
  datatype Item =
    | Attr(key: string, value: string)
    | Word(text: string)
    | Quoted(text: string)
    | Group(name: string, items: seq<Item>)

  /** The tokens that open a child group: `<name`, or `<` and an empty name token. */
  function Opener(name: string): seq<string>
  {
    if name == [] then ["<", []] else ["<" + name]
  }

  /** The tokens of one item. */
  function ItemTokens(item: Item): seq<string>
    decreases item
  {
    match item
    case Attr(k, v) => [k + "=" + v]
    case Word(t) => [t]
    case Quoted(t) => ["\"" + t + "\""]
    case Group(n, sub) => Opener(n) + Print(sub) + [">"]
  }

  /** The tokens of a sequence of items. */
  function Print(items: seq<Item>): seq<string>
    decreases items
  {
    if items == [] then [] else ItemTokens(items[0]) + Print(items[1..])
  }

  /** An item whose tokens read back as itself: an attribute's key and value hold no '='
      and the key does not open a group or a string; a bare word is non-empty, holds no '=',
      is not ">" and does not start with '<' or '"'. Any text can be quoted. */
  predicate PrintableItem(item: Item)
    decreases item
  {
    match item
    case Attr(k, v) => '=' !in k && '=' !in v && (k == [] || (k[0] != '<' && k[0] != '"'))
    case Word(t) => t != [] && '=' !in t && t != ">" && t[0] != '<' && t[0] != '"'
    case Quoted(_) => true
    case Group(_, sub) => Printable(sub)
  }

  predicate Printable(items: seq<Item>)
    decreases items
  {
    items == [] || (PrintableItem(items[0]) && Printable(items[1..]))
  }

  /** The meaning of one item read into `e`: an attribute is set, overwriting an earlier
      value of the same key; a text or a group is appended as the last child. */
  function BuildItem(item: Item, e: Element): Element
    decreases item
  {
    match item
    case Attr(k, v) => e.(attrs := e.attrs[k := v])
    case Word(t) => e.(children := e.children + [Text(t)])
    case Quoted(t) => e.(children := e.children + [Text(t)])
    case Group(n, sub) => e.(children := e.children + [Sub(Build(sub, Element(n, map[], [])))])
  }

  /** The meaning of items read into `e`, in order. */
  function Build(items: seq<Item>, e: Element): Element
    decreases items
  {
    if items == [] then e else Build(items[1..], BuildItem(items[0], e))
  }

  /** Reading the tokens of printable items is the same as building the items' meaning
      and reading on after them. */
  lemma {:induction false} ParsePrinted(tokens: seq<string>, i: nat, items: seq<Item>, e: Element)
    requires Printable(items)
    requires i + |Print(items)| <= |tokens| && tokens[i..i + |Print(items)|] == Print(items)
    ensures ParseFrom(tokens, i, e) == ParseFrom(tokens, i + |Print(items)|, Build(items, e))
    decreases items, 0
  {
    if items != [] {
      var item, rest := items[0], items[1..];
      var n := |ItemTokens(item)|;
      assert Print(items) == ItemTokens(item) + Print(rest);
      SliceParts(tokens, i, ItemTokens(item), Print(rest));
      ParseItem(tokens, i, item, e);
      ParsePrinted(tokens, i + n, rest, BuildItem(item, e));
      assert i + |Print(items)| == i + n + |Print(rest)|;
      assert Build(items, e) == Build(rest, BuildItem(item, e));
    }
  }

  /** The opener tokens of a group, found at position i, are read as the group's name. */
  lemma OpenerAt(tokens: seq<string>, i: nat, name: string)
    requires i + |Opener(name)| <= |tokens| && tokens[i..i + |Opener(name)|] == Opener(name)
    ensures tokens[i] != ">" && tokens[i] != [] && tokens[i][0] == '<'
    ensures var j := i + |Opener(name)|;
      || (|tokens[i]| > 1 && name == tokens[i][1..] && j == i + 1)
      || (|tokens[i]| == 1 && i + 1 < |tokens| && name == tokens[i + 1] && j == i + 2)
  {
    if name == [] {
      assert tokens[i..i + 2] == ["<", []];
      assert tokens[i] == "<" && tokens[i + 1] == [];
    } else {
      assert tokens[i..i + 1] == ["<" + name];
      assert tokens[i] == "<" + name && tokens[i][1..] == name;
    }
  }

  /** One step of parseTokens over a child group: the name is the rest of the '<' token or
      the token after a bare '<', and the items from j on parse to `child` up to position k. */
  lemma GroupRead(tokens: seq<string>, i: nat, e: Element, j: nat, name: string, k: nat, child: Element)
    requires i < |tokens| && tokens[i] != ">" && tokens[i] != [] && tokens[i][0] == '<'
    requires || (|tokens[i]| > 1 && name == tokens[i][1..] && j == i + 1)
             || (|tokens[i]| == 1 && i + 1 < |tokens| && name == tokens[i + 1] && j == i + 2)
    requires ParseFrom(tokens, j, Element(name, map[], [])) == Ok(Parsed(k, child))
    ensures k == |tokens| ==> ParseFrom(tokens, i, e) == Err(UnterminatedChild)
    ensures k < |tokens| ==>
      ParseFrom(tokens, i, e) == ParseFrom(tokens, k + 1, e.(children := e.children + [Sub(child)]))
  {
    ReadsItem(tokens, i, e);
  }

  /** One step of parseTokens over a `key=value` token. */
  lemma AttrRead(tokens: seq<string>, i: nat, e: Element)
    requires i < |tokens| && tokens[i] != ">" && tokens[i] != []
    requires tokens[i][0] != '<' && tokens[i][0] != '"' && '=' in tokens[i]
    ensures var fields := Split(tokens[i], '=');
      ParseFrom(tokens, i, e) == ParseFrom(tokens, i + 1, e.(attrs := e.attrs[fields[0] := fields[1]]))
  {
    ReadsItem(tokens, i, e);
  }

  /** One step of parseTokens over a bare word or a closed string literal. */
  lemma TextRead(tokens: seq<string>, i: nat, e: Element, text: string)
    requires i < |tokens| && tokens[i] != ">" && tokens[i] != [] && tokens[i][0] != '<'
    requires !(tokens[i][0] != '"' && '=' in tokens[i])
    requires tokens[i][0] == '"' ==>
      |tokens[i]| > 1 && tokens[i][|tokens[i]| - 1] == '"' && text == tokens[i][1..|tokens[i]| - 1]
    requires tokens[i][0] != '"' ==> text == tokens[i]
    ensures ParseFrom(tokens, i, e) == ParseFrom(tokens, i + 1, e.(children := e.children + [Text(text)]))
  {
    ReadsItem(tokens, i, e);
  }

  /** GroupRead for a group whose opener tokens are at i. */
  lemma GroupStep(tokens: seq<string>, i: nat, e: Element, name: string, k: nat, child: Element)
    requires i + |Opener(name)| <= |tokens| && tokens[i..i + |Opener(name)|] == Opener(name)
    requires ParseFrom(tokens, i + |Opener(name)|, Element(name, map[], [])) == Ok(Parsed(k, child))
    ensures k == |tokens| ==> ParseFrom(tokens, i, e) == Err(UnterminatedChild)
    ensures k < |tokens| ==>
      ParseFrom(tokens, i, e) == ParseFrom(tokens, k + 1, e.(children := e.children + [Sub(child)]))
  {
    OpenerAt(tokens, i, name);
    GroupRead(tokens, i, e, i + |Opener(name)|, name, k, child);
  }

  /** Reading the tokens of one printable item. */
  lemma {:induction false} ParseItem(tokens: seq<string>, i: nat, item: Item, e: Element)
    requires PrintableItem(item)
    requires i + |ItemTokens(item)| <= |tokens| && tokens[i..i + |ItemTokens(item)|] == ItemTokens(item)
    ensures ParseFrom(tokens, i, e) == ParseFrom(tokens, i + |ItemTokens(item)|, BuildItem(item, e))
    decreases item
  {
    assert tokens[i] == ItemTokens(item)[0];
    match item
    case Attr(k, v) =>
      ParseAttr(tokens, i, k, v, e);
    case Word(t) =>
      ReadsItem(tokens, i, e);
    case Quoted(t) =>
      ReadsItem(tokens, i, e);
      var token := "\"" + t + "\"";
      assert tokens[i] == token && token[0] == '"' && token[|token| - 1] == '"';
      assert token[1..|token| - 1] == t;
    case Group(name, sub) =>
      ParseGroup(tokens, i, name, sub, e);
  }

  lemma ParseAttr(tokens: seq<string>, i: nat, k: string, v: string, e: Element)
    requires '=' !in k && '=' !in v && (k == [] || (k[0] != '<' && k[0] != '"'))
    requires i < |tokens| && tokens[i] == k + "=" + v
    ensures ParseFrom(tokens, i, e) == ParseFrom(tokens, i + 1, e.(attrs := e.attrs[k := v]))
  {
    var token := k + "=" + v;
    assert token[|k|] == '=';
    assert token != ">" by { assert ">"[0] != '='; assert |token| > 1 || k == []; }
    ReadsItem(tokens, i, e);
    SplitAt(k, v, '=');
    SplitNone(v, '=');
    assert [k] + Split(v, '=') == [k, v];
  }

  lemma {:induction false} ParseGroup(tokens: seq<string>, i: nat, name: string, sub: seq<Item>, e: Element)
    requires Printable(sub)
    requires var n := |ItemTokens(Group(name, sub))|;
      i + n <= |tokens| && tokens[i..i + n] == ItemTokens(Group(name, sub))
    ensures ParseFrom(tokens, i, e)
         == ParseFrom(tokens, i + |ItemTokens(Group(name, sub))|, BuildItem(Group(name, sub), e))
    decreases sub, 1
  {
    var c0 := Element(name, map[], []);
    var j := i + |Opener(name)|;
    GroupSlices(tokens, i, name, sub);
    ParsePrinted(tokens, j, sub, c0);
    GroupClose(tokens, i, e, name, sub, j + |Print(sub)|, Build(sub, c0));
  }

  /** Where the parts of a group's tokens lie. */
  lemma GroupSlices(tokens: seq<string>, i: nat, name: string, sub: seq<Item>)
    requires var n := |ItemTokens(Group(name, sub))|;
      i + n <= |tokens| && tokens[i..i + n] == ItemTokens(Group(name, sub))
    ensures var j := i + |Opener(name)|; var k := j + |Print(sub)|;
      && tokens[i..j] == Opener(name) && tokens[j..k] == Print(sub)
      && k < |tokens| && tokens[k] == ">"
  {
    SliceThree(tokens, i, Opener(name), Print(sub), [">"]);
  }

  lemma SliceThree(tokens: seq<string>, i: nat, p: seq<string>, q: seq<string>, c: seq<string>)
    requires |c| == 1 && i + |p| + |q| + 1 <= |tokens| && tokens[i..i + |p| + |q| + 1] == p + q + c
    ensures tokens[i..i + |p|] == p && tokens[i + |p|..i + |p| + |q|] == q && tokens[i + |p| + |q|] == c[0]
  {
    assert p + q + c == p + (q + c);
    SliceParts(tokens, i, p, q + c);
    SliceParts(tokens, i + |p|, q, c);
    assert tokens[i + |p| + |q|] == tokens[i + |p| + |q|..i + |p| + |q| + 1][0];
  }

  /** The step over a group whose items parse to `child` and end at the '>' at k. */
  lemma GroupClose(tokens: seq<string>, i: nat, e: Element, name: string, sub: seq<Item>, k: nat, child: Element)
    requires k == i + |Opener(name)| + |Print(sub)| && child == Build(sub, Element(name, map[], []))
    requires i + |Opener(name)| <= |tokens| && tokens[i..i + |Opener(name)|] == Opener(name)
    requires k < |tokens| && tokens[k] == ">"
    requires ParseFrom(tokens, i + |Opener(name)|, Element(name, map[], [])) == ParseFrom(tokens, k, child)
    ensures ParseFrom(tokens, i, e)
         == ParseFrom(tokens, i + |ItemTokens(Group(name, sub))|, BuildItem(Group(name, sub), e))
  {
    assert ParseFrom(tokens, k, child) == Ok(Parsed(k, child));
    GroupStep(tokens, i, e, name, k, child);
    assert i + |ItemTokens(Group(name, sub))| == k + 1;
    assert BuildItem(Group(name, sub), e) == e.(children := e.children + [Sub(child)]);
  }

  /** A sequence of printable items, closed by '>' or the end of the tokens, parses to
      its meaning and stops at the close. */
  lemma ParseItems(tokens: seq<string>, i: nat, items: seq<Item>, e: Element)
    requires Printable(items)
    requires i + |Print(items)| <= |tokens| && tokens[i..i + |Print(items)|] == Print(items)
    requires i + |Print(items)| == |tokens| || tokens[i + |Print(items)|] == ">"
    ensures ParseFrom(tokens, i, e) == Ok(Parsed(i + |Print(items)|, Build(items, e)))
  {
    ParsePrinted(tokens, i, items, e);
  }

  /** A token that a split at spaces keeps whole and a trim leaves alone. */
  predicate Solid(t: string)
  {
    ' ' !in t && '\t' !in t
  }

  /** The text of a packet line: an optional '?', the type, then the items' tokens. */
  function Line(isRequest: bool, typ: string, items: seq<Item>): string
  {
    (if isRequest then "?" else "") + Join([typ] + Print(items), ' ')
  }

  /** The last token of printed items is never empty. */
  lemma {:induction false} PrintEndsNonEmpty(items: seq<Item>)
    requires items != [] && Printable(items)
    ensures Print(items) != [] && Print(items)[|Print(items)| - 1] != []
    decreases items
  {
    var rest := items[1..];
    assert Print(items) == ItemTokens(items[0]) + Print(rest);
    if rest != [] {
      PrintEndsNonEmpty(rest);
    } else {
      assert Print(items) == ItemTokens(items[0]);
      match items[0]
      case Attr(k, v) =>
        assert ItemTokens(items[0])[0] == k + "=" + v;
      case Word(t) =>
      case Quoted(t) =>
      case Group(n, sub) =>
    }
  }

  /** Solid tokens, the first and last non-empty, joined with spaces: a trim leaves the
      text alone and a split at spaces gives the tokens back. */
  lemma JoinedLine(toks: seq<string>)
    requires |toks| >= 1 && toks[0] != [] && toks[|toks| - 1] != []
    requires forall k :: 0 <= k < |toks| ==> Solid(toks[k])
    ensures var body := Join(toks, ' ');
      && body != [] && body[0] == toks[0][0] && !IsBlank(body[0]) && !IsBlank(body[|body| - 1])
      && Trim(body) == body && Split(body, ' ') == toks
  {
    var body := Join(toks, ' ');
    JoinFirst(toks, ' ');
    JoinLast(toks, ' ');
    var first, last := toks[0], toks[|toks| - 1];
    assert Solid(first) && Solid(last);
    assert first[0] in first && last[|last| - 1] in last;
    assert !IsBlank(body[0]) && !IsBlank(body[|body| - 1]);
    SplitJoin(toks, ' ');
  }

  /** The text after the optional '?' of a printed line: its ends are not blank, it starts
      with the type, and a trim leaves it alone and a split at spaces gives the tokens back. */
  lemma LineBody(typ: string, items: seq<Item>)
    requires Printable(items)
    requires typ != [] && Solid(typ)
    requires forall t :: t in Print(items) ==> Solid(t)
    ensures var toks := [typ] + Print(items); var body := Join(toks, ' ');
      && body != [] && body[0] == typ[0] && !IsBlank(body[0]) && !IsBlank(body[|body| - 1])
      && Trim(body) == body && Split(body, ' ') == toks
  {
    var toks := [typ] + Print(items);
    SolidTokens(typ, items);
    JoinedLine(toks);
  }

  /** How parsePacketCommand takes a line apart that is `body`, marked with '?' exactly for
      a request: the trim finds the mark, and what follows splits into `toks`. */
  lemma LineTokens(isRequest: bool, line: string, body: string, toks: seq<string>)
    requires line == (if isRequest then "?" else "") + body
    requires body != [] && !IsBlank(body[0]) && !IsBlank(body[|body| - 1])
    requires isRequest || body[0] != '?'
    requires Trim(body) == body && Split(body, ' ') == toks
    ensures ParsePacket(line) == PacketOf(isRequest, toks)
  {
    if isRequest {
      assert line != [] && line[0] == '?' && line[1..] == body;
      RequestLine(line, body, toks);
    } else {
      assert line == body;
      PlainLine(line, toks);
    }
  }

  /** The tokens of a packet line: the type, then the items' tokens, all solid, the first
      and the last non-empty. */
  lemma SolidTokens(typ: string, items: seq<Item>)
    requires Printable(items)
    requires typ != [] && Solid(typ)
    requires forall t :: t in Print(items) ==> Solid(t)
    ensures var toks := [typ] + Print(items);
      && |toks| >= 1 && toks[0] != [] && toks[|toks| - 1] != []
      && forall k :: 0 <= k < |toks| ==> Solid(toks[k])
  {
    var toks := [typ] + Print(items);
    if items != [] {
      PrintEndsNonEmpty(items);
      assert toks[|toks| - 1] == Print(items)[|Print(items)| - 1];
    }
    forall k | 0 <= k < |toks|
      ensures Solid(toks[k])
    {
      if k > 0 {
        assert toks[k] == Print(items)[k - 1];
        assert toks[k] in Print(items);
      }
    }
  }

  /** A text whose ends are not blank is its own trim. */
  lemma TrimSolid(line: string)
    requires line != [] && !IsBlank(line[0]) && !IsBlank(line[|line| - 1])
    ensures Trim(line) == line
  {
  }

  /** A request line is its body marked with '?': the trim of parsePacketCommand keeps the
      line, and the trimmed rest after the mark splits into the body's tokens. */
  lemma RequestLine(line: string, body: string, toks: seq<string>)
    requires line != [] && line[0] == '?' && line[1..] == body
    requires body != [] && !IsBlank(body[|body| - 1])
    requires Trim(body) == body && Split(body, ' ') == toks
    ensures ParsePacket(line) == PacketOf(true, toks)
  {
    assert line[|line| - 1] == body[|body| - 1];
    TrimSolid(line);
    assert Split(Trim(line[1..]), ' ') == toks;
  }

  /** A line without the '?' mark whose ends are not blank is split as it is. */
  lemma PlainLine(line: string, toks: seq<string>)
    requires line != [] && line[0] != '?' && !IsBlank(line[0]) && !IsBlank(line[|line| - 1])
    requires Split(line, ' ') == toks
    ensures ParsePacket(line) == PacketOf(false, toks)
  {
    TrimSolid(line);
  }

  /** A line printed from a type and printable items parses to a packet named after its
      '?' marker, whose Type is the first token and whose contents are the items' meaning. */
  lemma ParsePacketLine(isRequest: bool, typ: string, items: seq<Item>)
    requires Printable(items)
    requires typ != [] && Solid(typ) && (isRequest || typ[0] != '?')
    requires forall t :: t in Print(items) ==> Solid(t)
    ensures ParsePacket(Line(isRequest, typ, items))
         == Ok(Build(items, Element(RootName(isRequest), map["Type" := typ], [])))
  {
    PrintedLine(isRequest, typ, items);
    PacketOfPrinted(isRequest, typ, items);
  }

  /** A printed line splits into its type and its items' tokens. */
  lemma PrintedLine(isRequest: bool, typ: string, items: seq<Item>)
    requires Printable(items)
    requires typ != [] && Solid(typ) && (isRequest || typ[0] != '?')
    requires forall t :: t in Print(items) ==> Solid(t)
    ensures ParsePacket(Line(isRequest, typ, items)) == PacketOf(isRequest, [typ] + Print(items))
  {
    var toks := [typ] + Print(items);
    var line, body := Line(isRequest, typ, items), Join(toks, ' ');
    assert && body != [] && !IsBlank(body[0]) && !IsBlank(body[|body| - 1])
           && (isRequest || body[0] != '?')
           && Trim(body) == body && Split(body, ' ') == toks by {
      LineBody(typ, items);
    }
    assert line == (if isRequest then "?" else "") + body;
    LineTokens(isRequest, line, body, toks);
  }

  /** The packet of a type token and the tokens of printable items is their meaning. */
  lemma PacketOfPrinted(isRequest: bool, typ: string, items: seq<Item>)
    requires Printable(items)
    ensures PacketOf(isRequest, [typ] + Print(items))
         == Ok(Build(items, Element(RootName(isRequest), map["Type" := typ], [])))
  {
    var toks := [typ] + Print(items);
    assert toks[1..1 + |Print(items)|] == Print(items);
    ParseItems(toks, 1, items, Element(RootName(isRequest), map["Type" := typ], []));
    assert toks[0] == typ;
  }

  /** An attribute item that no later item of the same key follows sets the final value. */
  lemma {:induction false} LastAttrWins(items: seq<Item>, e: Element, m: nat)
    requires m < |items| && items[m].Attr?
    requires forall q :: m < q < |items| ==> !(items[q].Attr? && items[q].key == items[m].key)
    ensures var k := items[m].key;
      k in Build(items, e).attrs && Build(items, e).attrs[k] == items[m].value
    decreases items
  {
    if m > 0 {
      LastAttrWins(items[1..], BuildItem(items[0], e), m - 1);
    } else {
      KeepsAttr(items[1..], BuildItem(items[0], e), items[0].key);
    }
  }

  /** Items without an attribute of key `k` leave `k`'s value as it was. */
  lemma {:induction false} KeepsAttr(items: seq<Item>, e: Element, k: string)
    requires k in e.attrs
    requires forall q :: 0 <= q < |items| ==> !(items[q].Attr? && items[q].key == k)
    ensures k in Build(items, e).attrs && Build(items, e).attrs[k] == e.attrs[k]
    decreases items
  {
    if items != [] {
      KeepsAttr(items[1..], BuildItem(items[0], e), k);
    }
  }

  /** A bare '<' as the last token: the child's name is missing. */
  lemma DanglingOpener(pre: seq<Item>, e: Element)
    requires Printable(pre)
    ensures ParseFrom(Print(pre) + ["<"], 0, e) == Err(MissingChildName)
  {
    var tokens := Print(pre) + ["<"];
    assert tokens[0..|Print(pre)|] == Print(pre);
    ParsePrinted(tokens, 0, pre, e);
    ReadsItem(tokens, |Print(pre)|, Build(pre, e));
  }

  /** A child group that the tokens end inside of lacks its closing '>'. */
  lemma UnclosedGroup(pre: seq<Item>, name: string, sub: seq<Item>, e: Element)
    requires Printable(pre) && Printable(sub)
    ensures ParseFrom(Print(pre) + Opener(name) + Print(sub), 0, e) == Err(UnterminatedChild)
  {
    UnclosedAfter(Print(pre) + Opener(name) + Print(sub), pre, name, sub, e);
  }

  lemma UnclosedAfter(tokens: seq<string>, pre: seq<Item>, name: string, sub: seq<Item>, e: Element)
    requires Printable(pre) && Printable(sub)
    requires tokens == Print(pre) + (Opener(name) + Print(sub))
    ensures ParseFrom(tokens, 0, e) == Err(UnterminatedChild)
  {
    var i := |Print(pre)|;
    assert tokens[0..i] == Print(pre) && tokens[i..|tokens|] == Opener(name) + Print(sub);
    ParsePrinted(tokens, 0, pre, e);
    UnclosedTail(tokens, i, Build(pre, e), name, sub);
  }

  /** The tokens from i on are a group's opener and items, with no '>' after them. */
  lemma UnclosedTail(tokens: seq<string>, i: nat, e: Element, name: string, sub: seq<Item>)
    requires Printable(sub)
    requires i + |Opener(name)| + |Print(sub)| == |tokens|
    requires tokens[i..|tokens|] == Opener(name) + Print(sub)
    ensures ParseFrom(tokens, i, e) == Err(UnterminatedChild)
  {
    var j := i + |Opener(name)|;
    var c0 := Element(name, map[], []);
    SliceParts(tokens, i, Opener(name), Print(sub));
    assert ParseFrom(tokens, j, c0) == Ok(Parsed(|tokens|, Build(sub, c0))) by {
      ParseItems(tokens, j, sub, c0);
    }
    GroupStep(tokens, i, e, name, |tokens|, Build(sub, c0));
  }

  /** A token that opens a string literal without closing it. */
  lemma UnclosedString(pre: seq<Item>, t: string, rest: seq<string>, e: Element)
    requires Printable(pre)
    requires t != [] && t[0] == '"' && t[|t| - 1] != '"'
    ensures ParseFrom(Print(pre) + [t] + rest, 0, e) == Err(UnterminatedString)
  {
    var tokens := Print(pre) + [t] + rest;
    SliceParts(tokens, 0, Print(pre), [t]);
    ParsePrinted(tokens, 0, pre, e);
    assert tokens[|Print(pre)|] == t;
    ReadsItem(tokens, |Print(pre)|, Build(pre, e));
  }

  /** Two token sequences that agree up to and including position j. */
  predicate AgreeUpTo(tokens: seq<string>, other: seq<string>, j: nat)
  {
    j < |tokens| && j < |other| && forall m :: 0 <= m <= j ==> other[m] == tokens[m]
  }

  /** The parser reads nothing past the '>' at which it stops (position j): any tokens after
      it may be replaced without changing the result. */
  lemma {:induction false} ParseStopsAtClose(tokens: seq<string>, other: seq<string>, i: nat, e: Element, j: nat)
    requires i <= |tokens| && ParseFrom(tokens, i, e).Ok? && ParseFrom(tokens, i, e).value.next == j
    requires AgreeUpTo(tokens, other, j)
    ensures ParseFrom(other, i, e) == ParseFrom(tokens, i, e)
    decreases |tokens| - i, 1
  {
    if i < j {
      ReadsItem(tokens, i, e);
      if tokens[i][0] == '<' {
        StopsAtGroup(tokens, other, i, e, j);
      } else {
        StopsAtItem(tokens, other, i, e, j);
      }
    }
  }

  /** ParseStopsAtClose at an attribute or a text token. */
  lemma {:induction false} StopsAtItem(tokens: seq<string>, other: seq<string>, i: nat, e: Element, j: nat)
    requires i < j < |tokens| && ParseFrom(tokens, i, e).Ok? && ParseFrom(tokens, i, e).value.next == j
    requires AgreeUpTo(tokens, other, j)
    requires tokens[i] != [] && tokens[i][0] != '<'
    ensures ParseFrom(other, i, e) == ParseFrom(tokens, i, e)
    decreases |tokens| - i, 0
  {
    var token := tokens[i];
    assert other[i] == token;
    ReadsItem(tokens, i, e);
    ReadsItem(other, i, e);
    if token[0] != '"' && '=' in token {
      var fields := Split(token, '=');
      ParseStopsAtClose(tokens, other, i + 1, e.(attrs := e.attrs[fields[0] := fields[1]]), j);
    } else {
      var text := if token[0] == '"' then token[1..|token| - 1] else token;
      ParseStopsAtClose(tokens, other, i + 1, e.(children := e.children + [Text(text)]), j);
    }
  }

  /** ParseStopsAtClose at a token that opens a child group. */
  lemma {:induction false} StopsAtGroup(tokens: seq<string>, other: seq<string>, i: nat, e: Element, j: nat)
    requires i < j < |tokens| && ParseFrom(tokens, i, e).Ok? && ParseFrom(tokens, i, e).value.next == j
    requires AgreeUpTo(tokens, other, j)
    requires tokens[i] != [] && tokens[i][0] == '<'
    ensures ParseFrom(other, i, e) == ParseFrom(tokens, i, e)
    decreases |tokens| - i, 0
  {
    ReadsItem(tokens, i, e);
    var token := tokens[i];
    var name := if |token| > 1 then token[1..] else tokens[i + 1];
    var jj := if |token| > 1 then i + 1 else i + 2;
    var c0 := Element(name, map[], []);
    var child := ParseFrom(tokens, jj, c0).value;
    var k := child.next;
    var after := e.(children := e.children + [Sub(child.element)]);
    assert k < j && ParseFrom(tokens, i, e) == ParseFrom(tokens, k + 1, after) by {
      GroupRead(tokens, i, e, jj, name, k, child.element);
    }
    ParseStopsAtClose(tokens, other, jj, c0, k);
    ParseStopsAtClose(tokens, other, k + 1, after, j);
    assert other[i] == token && (|token| == 1 ==> other[i + 1] == tokens[i + 1]);
    GroupRead(other, i, e, jj, name, k, child.element);
  }
}
