/** The error values the shell reports, and the wrappers its operations return. */
module Errors {

  /** The errors of mssh.go, one constructor per distinct error return. */
  datatype Error =
    | MissingCommandType                    // parsePacketCommand: no token at all
    | MissingChildName                      // a bare '<' as the last token
    | UnterminatedChild                     // a child group without its closing '>'
    | UnterminatedString                    // a token opening with '"' that does not close it
    | RuntimePanic                          // the Go runtime aborts (index out of range, nil endpoint)
    | BadArguments                          // the CSV reader rejected the text after '@'
    | MissingShortcutName                   // '@' with no shortcut name
    | UndefinedShortcut(name: string)       // '@name' for a name not in the table
    | InvalidArgumentIndex(index: int)      // '$d' whose d is 0 or past the last argument
    | RecursionLimit                        // an expansion pushed at nesting depth 11
    | NotConnected                          // a packet line or '!login' without a connection
    | UnsupportedCommand                    // '!x' for an unknown letter x
    | InvalidShortcutDefinition(line: string) // a shortcut file line without ':'

  datatype Result<T> = Ok(value: T) | Err(error: Error)

  datatype Option<T> = None | Some(value: T)
}
