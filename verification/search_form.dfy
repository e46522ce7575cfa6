/** The keyboard-driven selection of the quick-open dialog and what each key,
    click and refresh makes the dialog do, lifted out of its event handlers as
    pure functions. Window placement, fonts, scrolling and the asynchronous
    calls are not modelled; an awaited call is an entry of the effect trace. */
module SearchForm {
  import opened Items

  /** How far PageUp and PageDown move the selection. */
  const PageSize: nat := 20

  /** The selected index of a list with no selection. */
  const NoSelection: int := -1

  /** The keys the dialog distinguishes; every other key is `Other` and is
      left to the query editor. */
  datatype Key = Escape | Return | Up | Down | PageUp | PageDown | Other
  {
    /** True for the four keys that move the selection. */
    predicate Moves() {
      Up? || Down? || PageUp? || PageDown?
    }
  }

  /** What the dialog asks of its collaborators, in order. */
  datatype Effect =
    | Close
    | GoToFile(file: ListItem)
    | GoToSymbol(symbol: ListItem)
    | Execute(command: string)

  /** The dialog's list: the displayed results and the selected index. */
  datatype Form = Form(items: seq<ListItem>, index: int)

  /** The answer to one key press: the new list state, the effects in the
      order they happen, and whether the key was consumed. */
  datatype Reaction = Reaction(form: Form, effects: seq<Effect>, handled: bool)

  /** The selected entry: the one at the selected index, if there is one. */
  function Selected(f: Form): (r: Option<ListItem>)
    ensures r.Some? <==> 0 <= f.index < |f.items|
    ensures r.Some? ==> r.value == f.items[f.index]
  {
    if 0 <= f.index < |f.items| then Some(f.items[f.index]) else None
  }

  /** Whenever the list has entries, the selected index is one of them. */
  predicate Valid(f: Form) {
    |f.items| > 0 ==> 0 <= f.index < |f.items|
  }

  /** In a valid form an entry is selected exactly when there is one. */
  lemma ValidSelectsWhenNonEmpty(f: Form)
    requires Valid(f)
    ensures Selected(f).Some? <==> |f.items| > 0
  {
  }

  /** The new selected index after `key`, on a list of `count` entries.
      Up and Down move by one and stop at either end; PageUp and PageDown move
      by a page and snap to the first or last entry; other keys leave the
      index alone. */
  function MoveSelection(index: int, count: int, key: Key): (r: int)
    ensures 0 <= index < count ==> 0 <= r < count
    ensures (key.Up? || key.PageUp?) && 0 <= index ==> 0 <= r <= index
    ensures (key.Down? || key.PageDown?) && index < count ==> index <= r
    ensures key.Up? ==> index - 1 <= r
    ensures key.Down? ==> r <= index + 1
    ensures key.Up? && index > 0 ==> r == index - 1
    ensures key.Down? && index < count - 1 ==> r == index + 1
    ensures key.PageUp? && index >= PageSize ==> r == index - PageSize
    ensures key.PageDown? && index < count - PageSize ==> r == index + PageSize
    ensures !key.Moves() ==> r == index
  {
    match key
    case Up => if index > 0 then index - 1 else index
    case Down => if index < count - 1 then index + 1 else index
    case PageUp => if index >= PageSize then index - PageSize else 0
    case PageDown => if index < count - PageSize then index + PageSize else count - 1
    case _ => index
  }

  /** `v` limited to the range from `lo` to `hi`. */
  function Clamp(v: int, lo: int, hi: int): (r: int)
    requires lo <= hi
    ensures lo <= r <= hi
    ensures lo <= v <= hi ==> r == v
  {
    if v < lo then lo else if v > hi then hi else v
  }

  /** The signed distance a key asks the selection to move. */
  function Delta(key: Key): int {
    match key
    case Up => -1
    case Down => 1
    case PageUp => -(PageSize as int)
    case PageDown => PageSize
    case _ => 0
  }

  /** From a selected entry, every key moves the selection by its distance
      and clamps it to the list. */
  lemma MoveSelectionIsClampedMove(index: int, count: int, key: Key)
    requires 0 <= index < count
    ensures MoveSelection(index, count, key) == Clamp(index + Delta(key), 0, count - 1)
  {
  }

  /** Up undoes Down, and Down undoes Up, away from the ends. */
  lemma UpAndDownAreInverse(index: int, count: int)
    ensures 0 <= index < count - 1 ==> MoveSelection(MoveSelection(index, count, Down), count, Up) == index
    ensures 0 < index < count ==> MoveSelection(MoveSelection(index, count, Up), count, Down) == index
  {
  }

  /** PageUp undoes PageDown, and PageDown undoes PageUp, away from the ends. */
  lemma PagesAreInverse(index: int, count: int)
    ensures 0 <= index < count - PageSize ==>
      MoveSelection(MoveSelection(index, count, PageDown), count, PageUp) == index
    ensures PageSize <= index < count ==>
      MoveSelection(MoveSelection(index, count, PageUp), count, PageDown) == index
  {
  }

  /** Within the last page PageDown selects the last entry; within the first,
      PageUp selects the first. */
  lemma PagesSnapToTheEnds(index: int, count: int)
    requires 0 <= index < count
    ensures index >= count - PageSize ==> MoveSelection(index, count, PageDown) == count - 1
    ensures index < PageSize ==> MoveSelection(index, count, PageUp) == 0
  {
  }

  /** On an empty list PageDown leaves no selection, and Up and Down leave the
      absent selection absent. */
  lemma MovesOnEmptyList(key: Key)
    ensures MoveSelection(NoSelection, 0, PageDown) == NoSelection
    ensures key.Up? || key.Down? ==> MoveSelection(NoSelection, 0, key) == NoSelection
  {
  }

  /** The list after the results were recomputed: the first entry is selected
      if there is one, and nothing is selected otherwise. */
  function Refresh(results: seq<ListItem>): (r: Form)
    ensures r.items == results
    ensures Valid(r)
    ensures |results| > 0 ==> r.index == 0 && Selected(r) == Some(results[0])
    ensures |results| == 0 ==> Selected(r) == None
  {
    Form(results, if |results| > 0 then 0 else NoSelection)
  }

  /** The list right after the dialog has loaded its candidates and shown the
      first results. */
  function Open(results: seq<ListItem>): (r: Form)
    ensures r.items == results
    ensures Valid(r)
    ensures Selected(r).Some? <==> |results| > 0
    ensures |results| > 0 ==> Selected(r) == Some(results[0])
  {
    Refresh(results)
  }

  /** What an entry itself asks for once selected: navigation for a file or
      symbol, execution of a command on commit only. */
  function Action(item: ListItem, commit: bool): seq<Effect> {
    match item
    case FileItem(_, _, _) => [GoToFile(item)]
    case SymbolItem(_, _, _) => [GoToSymbol(item)]
    case CommandItem(_, _, command) => if commit then [Execute(command)] else []
    case KnownCommandItem(_, _, command) => if commit then [Execute(command)] else []
  }

  /** What going to the selected entry does. Without a selection nothing
      happens. A commit closes the dialog first; files and symbols are then
      navigated to whether or not this is a commit, and commands are executed
      on commit only. */
  function GoToItem(selected: Option<ListItem>, commit: bool): (r: seq<Effect>)
    ensures selected.None? ==> r == []
    ensures |r| <= 2
    ensures Close in r <==> commit && selected.Some?
    ensures commit && selected.Some? ==> r[0] == Close
    ensures (exists e :: e in r && e.Execute?) <==> commit && selected.Some? && selected.value.IsCommand()
    ensures (exists e :: e in r && (e.GoToFile? || e.GoToSymbol?)) <==> selected.Some? && selected.value.IsNavigable()
    ensures forall e :: e in r && e.GoToFile? ==> selected == Some(e.file) && e.file.FileItem?
    ensures forall e :: e in r && e.GoToSymbol? ==> selected == Some(e.symbol) && e.symbol.SymbolItem?
  {
    match selected
    case None => []
    case Some(item) =>
      var closing := if commit then [Close] else [];
      var r := closing + Action(item, commit);
      assert |r| > 0 ==> r[|r| - 1] in r;
      r
  }

  /** A commit is a close, then the preview, then, for a command, its
      execution. */
  lemma CommitIsCloseThenPreview(item: ListItem)
    ensures GoToItem(Some(item), true) ==
      [Close] + GoToItem(Some(item), false) + (if item.IsCommand() then [Execute(item.command)] else [])
  {
  }

  /** The exact traces of committing and previewing each kind of entry. */
  lemma GoToItemTraces(item: ListItem)
    ensures item.IsCommand() ==> GoToItem(Some(item), true) == [Close, Execute(item.command)]
    ensures item.IsCommand() ==> GoToItem(Some(item), false) == []
    ensures item.FileItem? ==> GoToItem(Some(item), false) == [GoToFile(item)]
    ensures item.SymbolItem? ==> GoToItem(Some(item), false) == [GoToSymbol(item)]
  {
  }

  /** A key press. Escape closes the dialog and nothing else; Return commits
      to the selected entry; the four moving keys move the selection and then
      preview the newly selected entry, even when the selection did not move;
      any other key is left to the editor. */
  function KeyDown(f: Form, key: Key): (r: Reaction)
    ensures r.form.items == f.items
    ensures r.handled <==> !key.Other?
    ensures Valid(f) ==> Valid(r.form)
    ensures key.Escape? ==> r.form == f && r.effects == [Close]
    ensures key.Return? ==> r.form == f && r.effects == GoToItem(Selected(f), true)
    ensures key.Moves() ==> r.form.index == MoveSelection(f.index, |f.items|, key)
    ensures key.Moves() ==> r.effects == GoToItem(Selected(r.form), false)
    ensures key.Moves() ==> forall e :: e in r.effects ==> !e.Close? && !e.Execute?
    ensures key.Other? ==> r.form == f && r.effects == []
  {
    match key
    case Escape => Reaction(f, [Close], true)
    case Return => Reaction(f, GoToItem(Selected(f), true), true)
    case Other => Reaction(f, [], false)
    case _ =>
      var moved := Form(f.items, MoveSelection(f.index, |f.items|, key));
      Reaction(moved, GoToItem(Selected(moved), false), true)
  }

  /** On an empty list no key but Escape has any effect. */
  lemma EmptyListIsInert(f: Form, key: Key)
    requires |f.items| == 0
    requires !key.Escape?
    ensures KeyDown(f, key).effects == []
  {
  }

  /** The mouse-up handler of the list: a release over an entry commits to
      the selected entry (which the list has already moved to the clicked
      entry on mouse-down, see `Handle`); a release over no entry does
      nothing. */
  function Click(f: Form, onItem: bool): (r: seq<Effect>)
    ensures !onItem ==> r == []
    ensures onItem && Selected(f).Some? ==> |r| > 0 && r[0] == Close
    ensures onItem ==> r == GoToItem(Selected(f), true)
  {
    if onItem then GoToItem(Selected(f), true) else []
  }

  /** The things that happen to the dialog after it opened. */
  datatype Event =
    | ResultsChanged(results: seq<ListItem>)
    | KeyPressed(key: Key)
    | Clicked(target: int)  // the index of the entry under the pointer; out of range for none

  /** A trace in which every execution directly follows a close. */
  predicate ClosesBeforeExecuting(trace: seq<Effect>) {
    forall i :: 0 <= i < |trace| && trace[i].Execute? ==> 0 < i && trace[i - 1] == Close
  }

  /** Joining two traces that close before executing gives another. */
  lemma ClosesBeforeExecutingAppend(a: seq<Effect>, b: seq<Effect>)
    requires ClosesBeforeExecuting(a) && ClosesBeforeExecuting(b)
    ensures ClosesBeforeExecuting(a + b)
  {
    forall i | 0 <= i < |a + b| && (a + b)[i].Execute?
      ensures 0 < i && (a + b)[i - 1] == Close
    {
      if i >= |a| {
        assert b[i - |a|].Execute?;
      }
    }
  }

  /** The list state and the effects after one event. A click first selects
      the entry under the pointer, as the list does on mouse-down, and then
      runs the mouse-up handler, which commits to that entry. */
  function Handle(f: Form, e: Event): (r: (Form, seq<Effect>))
    ensures Valid(f) ==> Valid(r.0)
    ensures ClosesBeforeExecuting(r.1)
    ensures r.0.items == (if e.ResultsChanged? then e.results else f.items)
    ensures e.Clicked? && 0 <= e.target < |f.items| ==>
      r.0.index == e.target && r.1 == GoToItem(Some(f.items[e.target]), true)
    ensures e.Clicked? && !(0 <= e.target < |f.items|) ==> r == (f, [])
  {
    match e
    case ResultsChanged(results) => (Refresh(results), [])
    case KeyPressed(key) => var reaction := KeyDown(f, key); (reaction.form, reaction.effects)
    case Clicked(target) =>
      if 0 <= target < |f.items| then
        var clicked := Form(f.items, target);
        (clicked, Click(clicked, true))
      else
        (f, Click(f, false))
  }

  /** The list state and the whole effect trace after a series of events. */
  function Run(f: Form, events: seq<Event>): (r: (Form, seq<Effect>))
    ensures Valid(f) ==> Valid(r.0)
    ensures ClosesBeforeExecuting(r.1)
    ensures |events| == 0 ==> r == (f, [])
    decreases |events|
  {
    if |events| == 0 then (f, [])
    else
      var first := Handle(f, events[0]);
      var rest := Run(first.0, events[1..]);
      ClosesBeforeExecutingAppend(first.1, rest.1);
      (rest.0, first.1 + rest.1)
  }

  /** From the moment the dialog opens, whatever modelled events happen, an
      entry is selected whenever the list has any, and commands only run
      after the dialog closed. */
  lemma {:induction false} SelectionStaysValid(results: seq<ListItem>, events: seq<Event>)
    ensures var r := Run(Open(results), events);
            Valid(r.0) && (Selected(r.0).Some? <==> |r.0.items| > 0) && ClosesBeforeExecuting(r.1)
  {
    var r := Run(Open(results), events);
    ValidSelectsWhenNonEmpty(r.0);
  }
}
