/** The entries shown in the quick-open list, and the optional value used for
    "the currently selected entry, if any". */
module Items {

  /** An absent or present value. */
  datatype Option<+T> = None | Some(value: T)

  /** One entry of the result list. Every kind carries a display name and a
      provider-assigned weight; a symbol also carries its line, a command the
      handle executed on commit. The weight is a floating-point number in the
      program and an integer here. */
  datatype ListItem =
    | FileItem(name: string, weight: int, path: string)
    | SymbolItem(name: string, weight: int, line: int)
    | CommandItem(name: string, weight: int, command: string)
    | KnownCommandItem(name: string, weight: int, command: string)
  {
    /** True for the kinds that the dialog navigates to (as opposed to executing). */
    predicate IsNavigable() {
      FileItem? || SymbolItem?
    }

    /** True for the kinds that are executed, and only on commit. */
    predicate IsCommand() {
      CommandItem? || KnownCommandItem?
    }
  }
}
