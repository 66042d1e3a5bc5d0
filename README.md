# mssh, the message-stream shell: a Dafny model of its core

mssh is an interactive shell. It turns typed lines into packets for a message-stream
peer, and it keeps a table of shortcuts: line templates with `$1`..`$9` placeholders
that expand into further input lines. This project models the parts of `mssh.go`
that are logic rather than I/O. Each part is proved against a specification.

- **The packet-line parser** (`parsePacketCommand`, `parseTokens`), module `Packet`.
  - A line is trimmed and split at single spaces. A leading `?` makes the packet a
    `Request`; without it the packet is a `Message`. The first token is the packet's
    `Type`.
  - The remaining tokens become the attributes and children of the element tree:
    - `k=v` sets attribute `k` to `v`;
    - a word or a quoted string becomes a text child;
    - `<name ... >` becomes a nested element.
  - `ParseFrom` is the recursive specification. `ParseTokens` is the cursor loop,
    proved equal to it. Beside them sits a small grammar (`Item`):
    - a printer, `Print`;
    - a meaning, `Build`;
    - lemmas saying that the parser reads any printed item list back to its meaning,
      that a later attribute overwrites an earlier one, and that each malformed
      input gets its own error.
- **The shortcut expander** (`ExpandShortcut`), module `Shortcuts`.
  - `ExpandFrom` specifies the left-to-right `$d` substitution. `Substitute` is the
    index loop, proved equal to it.
  - A template written as pieces (`Lit`, `Arg`) expands to the rendering of those
    pieces.
  - A missing argument makes the whole expansion fail.
- **The shortcut file** (`loadShortcuts`, `saveShortcuts`), module `Shortcuts`.
  - Saving writes one `name:definition` line per entry (`Serialize`, `WriteEntries`).
  - Loading clears the table and cuts each non-empty line at its first `:`
    (`LoadLines`, `Load`).
  - Loading what was saved gives back the table, in any save order, as long as no
    name holds `:` or a newline and no definition holds a newline.
- **The session** (`State`, `GetInput`, `PushInput`, `Execute`, `HandleCommand`),
  module `Session`.
  - The Go `State` struct becomes the class `Session.State`. Its fields are:
    - a `connected` flag in place of the network endpoint;
    - the shell's name;
    - the shortcut table;
    - the one-slot pending line;
    - the nesting counter;
    - the text of the shortcut file.
  - Each method is proved against a transition function on the value `Shell`:
    `NextInput`, `Push`, `ExpandStep`, `CommandStep`, `ExecuteStep`, `LoadStep` and
    `Saved`.
  - The invariant `Bounded` keeps the nesting bound. A ghost counter, `chained`,
    counts the lines taken from the pending slot since the last typed line.
    `ChainEnds` shows that at most `MaxNesting` (10) expansions chain from one typed
    line.

A Go runtime panic is the outcome `RuntimePanic`. The cases are:

- indexing an empty token (`token[0]`);
- an empty first field after `@` (`shortcutName[0]`, mssh.go:296);
- a lone `"` token;
- an empty trimmed packet line;
- a missing second word after `!n`, `!c` or `!t`;
- an empty command word after `!`;
- `!d` while disconnected.

Modelling panics as outcomes, not as preconditions, gives every input a defined
result. It also keeps the inputs whose later tokens the parser never inspects.

`GoStrings` models the Go library functions the core relies on:

- `strings.Split` and `strings.SplitN`;
- `strings.Trim(s, " \t")` and `strings.TrimSuffix(s, "\n")`;
- Go's `<` on strings;
- the sorted order `sort.Strings` produces.

Two behaviours of the code are easy to misread:

- **`$` before a non-digit.** The substitution test (mssh.go:311) looks only at the
  `$` and its neighbours. It then reads the next character as an argument number,
  `(c - '0')` modulo 256 (mssh.go:312), and fails when no such argument exists
  (mssh.go:313-314). So `$x` is never copied through. `ExpandMissingArgument` proves
  this in general; `DollarLetter` shows it for `ls $x`.
- **The nesting counter.** `PushInput` increments the counter before testing it
  (mssh.go:404-406), so a failed push leaves it at 11. `Push` states this. The bound
  that holds is on pending lines: `Bounded` says a pending line was pushed at a depth
  of at most 10.

## Model

| member | source | states |
|---|---|---|
| GoStrings.Split | mssh.go:62 | strings.Split: at least one part, and exactly one when the separator does not occur |
| GoStrings.JoinSplit | mssh.go:62 | joining the parts of a split with the separator gives back the string |
| GoStrings.SplitJoin | mssh.go:425 | splitting the join of separator-free parts gives back the parts |
| GoStrings.SplitN | mssh.go:226 | strings.SplitN: between 1 and n parts, joining back to the string, the separator only in the last part, and there only when n parts were made |
| GoStrings.SplitNFirst | mssh.go:432 | SplitN in two cuts at the first separator |
| GoStrings.Trim | mssh.go:54 | strings.Trim(s, " \t"): no blank at either end, and a string without blank ends is unchanged |
| GoStrings.TrimBlanks | mssh.go:54 | the trimmed string is a slice of the input with only blanks cut off on either side |
| GoStrings.TrimNewline | mssh.go:391 | strings.TrimSuffix(s, "\n"): drops one final newline and nothing else |
| GoStrings.Less | mssh.go:232 | a string is below only a non-empty one, whose first character is not smaller |
| GoStrings.LessTransitive | mssh.go:232 | Go's string order is transitive |
| GoStrings.LessTotal | mssh.go:232 | two different strings are ordered one way or the other |
| GoStrings.Insert | mssh.go:228-232 | inserting a new name into a sorted list keeps it sorted and adds exactly that name |
| Packet.ParseFrom | mssh.go:93-159 | on success the returned cursor is at or after i, and at the end of the tokens or at a '>'; the element keeps its name; every failure is one of the token errors |
| Packet.ParseAt | mssh.go:96-156 | the same cursor, name and error guarantees from a token that exists |
| Packet.ReadItem | mssh.go:97-155 | the same guarantees after reading one item: an attribute, a text child or a child group |
| Packet.ParseKeeps | mssh.go:131-151 | reading only adds: attributes already set stay set, and the children read are appended after the existing ones |
| Packet.ParseTokens | mssh.go:93-159 | the cursor loop returns exactly ParseFrom's result |
| Packet.RootName | mssh.go:63-69 | the root is named "Request" exactly for a request line |
| Packet.ParsePacket | mssh.go:53-91 | a parsed line is non-blank after trimming, its root is "Request" exactly when the trimmed line starts with '?', and it has a Type attribute |
| Packet.PacketOf | mssh.go:71-86 | the root name follows the '?', Type is set, and the missing-command error cannot arise from a split line |
| Packet.ParsePacketCommand | mssh.go:53-91 | the method returns exactly ParsePacket's result |
| Packet.ParsePrinted | mssh.go:96-158 | reading the printed tokens of any item list adds the meaning of those items to the element and moves the cursor past them |
| Packet.ParseItem | mssh.go:97-155 | reading the printed tokens of one item adds its meaning and moves past it |
| Packet.ParseAttr | mssh.go:135-138 | a `k=v` token sets attribute k to v and moves on by one token |
| Packet.AttrRead | mssh.go:135-138 | a token with '=' that does not open a quote sets fields[0] to fields[1] of its split at '=' |
| Packet.TextRead | mssh.go:139-151 | any other non-'<' token is appended as a text child, with the quotes of a quoted token stripped |
| Packet.GroupRead | mssh.go:99-133 | a `<name` or `<` `name` opener reads a child element, fails unless a '>' follows it, and otherwise appends the child and moves past the '>' |
| Packet.GroupStep | mssh.go:99-133 | the same for the printed opener of a group |
| Packet.ParseGroup | mssh.go:99-133 | a printed child group becomes exactly one nested child element holding the meaning of its items |
| Packet.ParseItems | mssh.go:96-158 | printed items followed by the end or a '>' parse to their meaning, stopping there |
| Packet.LineTokens | mssh.go:54-62 | a line is parsed from the split of its text after the '?' |
| Packet.PrintedLine | mssh.go:54-62 | the printed line of a type and items splits back into the type and the items' tokens |
| Packet.PacketOfPrinted | mssh.go:71-86 | those tokens become a root holding Type and the meaning of the items |
| Packet.ParsePacketLine | mssh.go:53-91 | parsing the printed line gives the root named by '?', with Type set to the type, filled with the meaning of the items |
| Packet.LastAttrWins | mssh.go:138 | the last attribute item for a key decides its value |
| Packet.KeepsAttr | mssh.go:80-138 | a key no item sets keeps its value, so Type survives unless a token overwrites it |
| Packet.DanglingOpener | mssh.go:104-108 | a bare '<' as the last token is MissingChildName |
| Packet.UnclosedGroup | mssh.go:127-128 | a group whose items run to the end without '>' is UnterminatedChild |
| Packet.UnclosedAfter | mssh.go:127-128 | the same for the concatenated tokens |
| Packet.UnclosedTail | mssh.go:127-128 | the same from any cursor position |
| Packet.UnclosedString | mssh.go:142-145 | a token opening with '"' that does not end with '"' is UnterminatedString, whatever follows it |
| Packet.ParseStopsAtClose | mssh.go:81-158 | the result depends only on the tokens up to where parsing stops, so anything after a top-level '>' is ignored |
| Packet.StopsAtItem | mssh.go:134-155 | the same through one attribute or text item |
| Packet.StopsAtGroup | mssh.go:99-133 | the same through one child group |
| Shortcuts.ExpandFrom | mssh.go:307-322 | the substitution from position i on can fail only on an argument number of 0 or past the last argument |
| Shortcuts.ExpandAt | mssh.go:309-321 | the same from a character that exists: a placeholder is substituted, any other character copied |
| Shortcuts.ExpandArgument | mssh.go:311-318 | the same after a placeholder: its number is checked against the arguments |
| Shortcuts.Digit | mssh.go:312 | the argument number is a byte, 0 to 255, and is the digit's value for '0'..'9' |
| Shortcuts.Substitute | mssh.go:307-322 | the substitution loop returns exactly the expansion ExpandFrom specifies |
| Shortcuts.ExpandLiteral | mssh.go:311-321 | a template without a substitutable '$' expands to itself: a leading or trailing '$', one after a backslash, and the backslash are all kept |
| Shortcuts.ExpandPieces | mssh.go:307-322 | expanding the text of plain pieces renders each literal as itself and each reference as its argument, in order |
| Shortcuts.PieceStep | mssh.go:308-321 | one turn of the loop over one piece produces that piece's meaning |
| Shortcuts.ExpandTemplate | mssh.go:307-322 | a template written as plain pieces expands to the rendering of the pieces |
| Shortcuts.PingExample | mssh.go:307-322 | `ping $1 $2` with arguments `host 22` expands to `ping host 22` |
| Shortcuts.PingPieces | mssh.go:307-322 | `ping $1 $2` is the text of plain pieces whose rendering with `host 22` is `ping host 22` |
| Shortcuts.ExpandMissingArgument | mssh.go:312-314 | a reference to an argument number of 0 or past the last argument fails the whole expansion with that number |
| Shortcuts.DollarLetter | mssh.go:311-314 | a '$' before a letter is an argument reference too, and fails when that argument is missing |
| Shortcuts.ExpandCall | mssh.go:280-322 | a failed CSV read is BadArguments, no field MissingShortcutName, an empty first field a panic, an unknown name UndefinedShortcut with that name; for a defined name the call succeeds exactly when the template expands, with that text, and otherwise passes the expansion's error on; showing only follows a leading '?' |
| Shortcuts.ShortcutName | mssh.go:295-299 | the name is the first field with one leading '?' removed, and the field itself otherwise |
| Shortcuts.UnknownNameFirst | mssh.go:301-305 | an unknown name is the error, whatever the template or the arguments |
| Shortcuts.Entry | mssh.go:448 | a saved line of a ':'-free name splits at its first ':' back into the name and the definition |
| Shortcuts.Serialize | mssh.go:447-449 | the saved text is empty exactly when there are no names, and otherwise ends with a newline |
| Shortcuts.LoadLines | mssh.go:430-440 | reading lines never removes a name; a rejected line is one of the lines, non-empty and without ':' |
| Shortcuts.Load | mssh.go:424-440 | a rejected line is a non-empty line of the file without ':' |
| Shortcuts.WriteEntries | mssh.go:447-449 | the save loop writes exactly Serialize's text |
| Shortcuts.SerializeJoin | mssh.go:447-448 | the saved text is the entry lines, each ended by a newline |
| Shortcuts.LoadEntries | mssh.go:430-439 | reading entry lines with ':'-free names sets every name to its definition, later lines over earlier ones, and keeps other names |
| Shortcuts.LoadSerialize | mssh.go:425-448 | loading the saved text gives back the table, in any order of the names, when no name holds ':' or a newline and no definition a newline |
| Shortcuts.ColonInName | mssh.go:432-448 | a name holding ':' reloads cut at its first ':' |
| Shortcuts.LaterLineWins | mssh.go:438 | a later line for a name overwrites the earlier definition |
| Shortcuts.RejectsLine | mssh.go:434-435 | a non-empty line without ':' stops loading with that line, keeping what earlier lines set |
| Session.Initial | mssh.go:459-466 | the shell starts disconnected, with no shortcuts, nothing pending, and within Bounded |
| Session.NextInput | mssh.go:377-401 | a pending line is the line returned, the slot is emptied and nothing else changes but the chain count; otherwise the line is the typed one without its newline, the counter is reset and nothing else changes; Bounded is kept |
| Session.Push | mssh.go:403-413 | the counter goes up by one; below depth 10 the line becomes pending and the push succeeds; otherwise it fails with RecursionLimit and the slot is emptied; nothing else changes |
| Session.ExpandStep | mssh.go:280-330 | a failed expansion reports ExpandCall's error and one only shown prints its text, both changing nothing; any other raises the depth, changes nothing else, and below the limit becomes the pending line, at the limit fails with RecursionLimit and empties the slot; no packet is sent |
| Session.ShortcutCommand | mssh.go:225-251 | `!s` changes at most the table and the file, and sends nothing |
| Session.Saved | mssh.go:445-456 | saving changes only the file |
| Session.CommandStep | mssh.go:191-272 | no `!` command touches the pending slot or the counter, or sends a packet |
| Session.ExecuteStep | mssh.go:332-375 | an empty line does nothing; a `!` line is the command's step and an `@` line the expansion's; a packet line leaves the state alone and fails when disconnected; when connected, the parser's error is reported, and the parsed packet is submitted when it is a Request and sent otherwise; Bounded is kept |
| Session.LoadStep | mssh.go:415-443 | without a file nothing changes; otherwise only the table changes, to what the lines read set; the load succeeds exactly when no line is rejected, and a rejected line is reported |
| Session.ChainEnds | mssh.go:403-413 | after 10 lines taken from the slot nothing is pending and the next push fails |
| Session.ExpansionIsNext | mssh.go:328-399 | an expansion pushed below the limit is the next line GetInput returns, whatever is typed |
| Session.CommandWord | mssh.go:192-198 | the command word is empty exactly for a bare '!' or '!' followed by a space, and otherwise starts with the character after '!' |
| Session.EmptyCommand | mssh.go:192-198 | an empty command word is a runtime panic |
| Session.QuitCommand | mssh.go:199-203 | `!q...` drops the connection, quits and changes nothing else |
| Session.NameCommand | mssh.go:220-223 | `!n name` sets the name to the second word and changes nothing else |
| Session.ListCommand | mssh.go:226-236 | `!s` alone lists every name in sorted order and changes nothing |
| Session.LookupCommand | mssh.go:237-243 | `!s name` reports the definition or its absence and changes nothing |
| Session.DefineCommand | mssh.go:244-249 | `!s name definition` sets the name to the rest of the line, spaces kept, and saves |
| Session.SavedLoads | mssh.go:415-456 | loading the file the shell saved gives back the same table |
| Session.LeastIsLeast | mssh.go:232 | Least is below every other name |
| Session.SortedNamesSorted | mssh.go:228-232 | the listed names are sorted and are exactly the table's names |
| Session.SortedUnique | mssh.go:232 | there is one sorted list of a given set of names |
| Session.State.constructor | mssh.go:459-466 | the shell starts disconnected, named "mssh", with no shortcuts and nothing pending |
| Session.State.GetInput | mssh.go:377-401 | the method's new state and line are NextInput's |
| Session.State.PushInput | mssh.go:403-413 | the method's new state and outcome are Push's |
| Session.State.ExpandShortcut | mssh.go:280-330 | the method's new state and outcome are ExpandStep's |
| Session.State.HandleCommand | mssh.go:191-272 | the method's new state and outcome are CommandStep's |
| Session.State.Execute | mssh.go:332-375 | the method's new state and outcome are ExecuteStep's |
| Session.State.LoadShortcuts | mssh.go:415-443 | the method's new state and outcome are LoadStep's |
| Session.State.ReadLines | mssh.go:430-442 | the loop leaves the table LoadLines gives, and reports the line it rejects |
| Session.State.SaveShortcuts | mssh.go:445-456 | the method's new state is Saved's |
| Session.State.ListNames | mssh.go:228-232 | the collected and sorted keys are SortedNames of the table |

## Left out

- Network: connecting, disconnecting, login, sending and submitting (mssh.go:161-189,
  253-267, 348-361) are foreign calls. `!t`, `!c`, `!d` and `!l` end in the outcome
  `Delegated`, and packets in `Sent` or `Submitted`. Their replies, errors and timeouts
  are not modelled.
- Session.CommandStep: `!c address` does not set `connected`, because whether the
  connection opens depends on the network. `!d` clears the flag, and while
  disconnected it is taken to panic on the missing endpoint.
- Session.CommandStep: `!t` does not parse its float or set the timeout, because float
  parsing and `time.Duration` are outside the model. The `Timeout` field, the endpoint's
  name and `connectedTo` (display only) are not fields of the model.
- The CSV reading of the text after `@` (mssh.go:274-278) is the parameter `args`: None
  when the reader fails, otherwise the fields.
- Console and file I/O: reading the console, printing, reading and creating the shortcut
  file, and the main loop (mssh.go:386-393, 416-422, 446-451, 468-488). The typed line is
  a parameter, the file's text is the field `file`, and what the shell prints is the
  outcome `Listed`, `Found` or `Shown`.
- Session.Saved: writes the names in sorted order. Go visits a map in an unspecified
  order; `LoadSerialize` is proved for every order, so the reloaded table does not
  depend on it. A failing file write is not modelled: saving always succeeds.
- Session.LoadStep: a missing file is `file == None`. Other read errors are not modelled.
- Shortcuts.Digit: strings are sequences of characters, where Go indexes the bytes of
  their UTF-8 encoding. The two agree on ASCII templates. On others they differ:
  `result += string(c)` (mssh.go:320) turns each byte of 0x80 or more into a rune of
  its own and re-encodes it, while `ExpandFrom` copies each character unchanged.
- GoStrings.Less: compares characters, where Go compares UTF-8 bytes. The two orders
  agree on valid UTF-8.
- Session.State.ListNames: picks the keys in any order and inserts each at its place,
  instead of collecting them and calling `sort.Strings`. Both produce the one sorted
  list of the names (`SortedUnique`).
