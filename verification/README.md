# QuickJump2022 search dialog — a Dafny model

QuickJump2022 is a Visual Studio extension whose quick-open dialog lists files,
code symbols and commands matching a query, ranks them with one of eight
comparators and lets the user move through the list with the keyboard,
previewing files and symbols as the selection moves and committing with Return
or a click. This project models the two pieces of pure logic in that dialog:

- the eight ranking comparators of `Tools/Sort.cs` (modules `NameOrder`,
  `Sort`, `Ranking`), with their reflexivity, antisymmetry, operand-swap
  relation between each order and its reverse, transitivity where it holds and
  a counterexample where it does not;
- the selection state machine and the preview/commit dispatch of
  `Forms/SearchForm.xaml.cs` (module `SearchForm`): the Up/Down/PageUp/PageDown
  index arithmetic with a page of 20, the reset to the first entry after the
  list is refreshed, and the ordered trace of effects (`Close`, `GoToFile`,
  `GoToSymbol`, `Execute`) that a key press or a click produces.

Items are an immutable tagged datatype (`Items.ListItem`: file, symbol with
its line, command, known command; each with a name and a weight). Comparators
are pure functions returning -1, 0 or 1, which is what the .NET `CompareTo`
methods used by the source return. The dialog's list is a value
`SearchForm.Form(items, index)`; each event handler becomes a pure function
from a form to the next form and the effects it causes, and `SearchForm.Run`
folds a series of events into one trace.

Design choices:

- Names are compared with `StringComparison.InvariantCultureIgnoreCase` in the
  source. The model approximates this collation by an ordinal lexicographic
  comparison after folding ASCII upper-case letters to lower case
  (`NameOrder.CompareNames`), so that `_` sorts before every letter, as it does
  in that collation.
- Weights are floating-point in the source and integers here.
- An absent selection is the index -1. The source only sets the index when the
  refreshed list is non-empty; when it is empty, the list control clears its
  selection on its own, and `SearchForm.Refresh` states that as index -1.
- Despite their names, `Fuzzy` and `FuzzyReverse` compare only weights
  (Tools/Sort.cs:35-45); no query score takes part.
- The line orders are not transitive once a non-symbol is in the list, so they
  do not leave mixed lists in input order:
  `Sort.LineNumberNotTransitiveOnMixedItems` and
  `Ranking.MixedListsAreNotSortedByNeighbours` show it.
- A click on an entry first selects it (the list control does so on
  mouse-down) and then commits to the selection (Forms/SearchForm.xaml.cs:230-235);
  `SearchForm.Handle` models the two steps together.

## Model

| member | source | states |
|---|---|---|
| NameOrder.CompareNames | Tools/Sort.cs:7-9 | name comparison is three-way (-1, 0, 1), negative exactly when the first name sorts lexicographically before the second ignoring case, and 0 exactly when the names are equal ignoring case |
| NameOrder.UnderscoreSortsBeforeLetters | Tools/Sort.cs:8 | every name starting with `_` sorts before every name starting with an ASCII letter of either case |
| NameOrder.CompareNamesAntisymmetric | Tools/Sort.cs:7-13 | swapping two names negates their comparison |
| NameOrder.CompareNamesTransitive | Tools/Sort.cs:7-9 | "not after" between names is transitive |
| NameOrder.CompareNamesIgnoresCase | Tools/Sort.cs:8 | the comparison depends on the names only through their case-folded forms |
| Sort.CompareInts | Tools/Sort.cs:17 | `CompareTo` on integers returns -1, 0 or 1 with the sign of the difference |
| Sort.Alphabetical | Tools/Sort.cs:7-9 | ascending by name: negative exactly when the first name sorts lexicographically before the second ignoring case, 0 exactly when the names are equal ignoring case |
| Sort.AlphabeticalReverse | Tools/Sort.cs:11-13 | the negation of the alphabetical order: negative exactly when the second name sorts lexicographically before the first ignoring case |
| Sort.AlphabeticalReverseIsSwap | Tools/Sort.cs:7-13 | the reverse alphabetical order is the alphabetical order with operands swapped |
| Sort.AlphabeticalIgnoresCase | Tools/Sort.cs:8 | the alphabetical order equals the comparison of the case-folded names |
| Sort.AlphabeticalTransitive | Tools/Sort.cs:7-9 | the alphabetical order is transitive |
| Sort.LineNumber | Tools/Sort.cs:15-19 | any pair that is not two symbols compares 0; two symbols compare with the sign of their line difference |
| Sort.LineNumberReverse | Tools/Sort.cs:21-25 | any pair that is not two symbols compares 0; two symbols compare with the sign of the reversed line difference |
| Sort.Weight | Tools/Sort.cs:27-29 | the sign of the comparison is the sign of the weight difference |
| Sort.WeightReverse | Tools/Sort.cs:31-33 | the sign of the comparison is the sign of the reversed weight difference |
| Sort.Fuzzy | Tools/Sort.cs:35-39 | the fuzzy order is extensionally the weight order |
| Sort.FuzzyReverse | Tools/Sort.cs:41-45 | the reverse fuzzy order is extensionally the reverse weight order |
| Sort.LineNumberTransitiveOnSymbols | Tools/Sort.cs:15-19 | between symbols the line order is transitive and agrees with the lines |
| Sort.LineNumberNotTransitiveOnMixedItems | Tools/Sort.cs:15-19 | with a file among symbols the line order is not transitive |
| Ranking.ReverseIsSwap | Tools/Sort.cs:7-45 | each of the four reverse comparators is its forward comparator with operands swapped |
| Ranking.CompareReflexive | Tools/Sort.cs:7-45 | every comparator returns 0 on an item and itself |
| Ranking.CompareAntisymmetric | Tools/Sort.cs:7-45 | every comparator is negated by swapping its operands |
| Ranking.WeightOrdersSeeOnlyWeights | Tools/Sort.cs:27-45 | the weight and fuzzy comparators depend only on the two weights |
| Ranking.CompareTransitive | Tools/Sort.cs:7-45 | every comparator is transitive, the line orders on symbols only |
| Ranking.TransitiveOnWhenApplicable | Tools/Sort.cs:7-45 | every comparator is transitive on any list, the line orders on lists of symbols |
| Ranking.AdjacentSortedIsSorted | Tools/Sort.cs:7-45 | for a transitive comparator, ordered neighbours mean an ordered list |
| Ranking.SortedSymbolsHaveOrderedLines | Tools/Sort.cs:15-25 | symbols ordered by line number have non-decreasing lines, and by its reverse non-increasing lines |
| Ranking.MixedListsAreNotSortedByNeighbours | Tools/Sort.cs:15-19 | a mixed list can have every neighbour ordered by line yet not be ordered |
| SearchForm.Selected | Forms/SearchForm.xaml.cs:199-200 | an entry is selected exactly when the index lies in the list, and it is the entry at that index |
| SearchForm.ValidSelectsWhenNonEmpty | Forms/SearchForm.xaml.cs:86-92 | with a valid index an entry is selected exactly when the list is non-empty |
| SearchForm.MoveSelection | Forms/SearchForm.xaml.cs:152-185 | a move keeps an index inside the list; from an index of at least 0, Up and PageUp never raise it; from an index below the count, Down and PageDown never lower it; an unclamped Up or Down moves exactly 1 step and an unclamped PageUp or PageDown exactly 20; other keys keep it |
| SearchForm.MoveSelectionIsClampedMove | Forms/SearchForm.xaml.cs:152-185 | from a selected entry each key moves by its distance (1 or 20) clamped to the first and last entries |
| SearchForm.UpAndDownAreInverse | Forms/SearchForm.xaml.cs:152-165 | away from the ends Up undoes Down and Down undoes Up |
| SearchForm.PagesAreInverse | Forms/SearchForm.xaml.cs:168-185 | away from the ends PageUp undoes PageDown and PageDown undoes PageUp |
| SearchForm.PagesSnapToTheEnds | Forms/SearchForm.xaml.cs:168-185 | within the last page PageDown selects the last entry; within the first page PageUp selects the first |
| SearchForm.MovesOnEmptyList | Forms/SearchForm.xaml.cs:152-185 | on an empty list PageDown yields -1, and Up and Down keep the absent selection |
| SearchForm.Refresh | Forms/SearchForm.xaml.cs:86-92 | after the results change the first entry is selected if there is one, otherwise none |
| SearchForm.Open | Forms/SearchForm.xaml.cs:112-119 | after loading, an entry is selected exactly when there are results, and it is the first |
| SearchForm.GoToItem | Forms/SearchForm.xaml.cs:198-222 | no selection gives no effects; Close occurs exactly on commit with a selection and then comes first; Execute occurs exactly on commit of a command; navigation occurs exactly for a file or symbol and targets the selected entry |
| SearchForm.CommitIsCloseThenPreview | Forms/SearchForm.xaml.cs:198-222 | a commit is Close, then the preview, then for a command its execution |
| SearchForm.GoToItemTraces | Forms/SearchForm.xaml.cs:198-222 | committing a command is exactly Close then Execute; previewing it does nothing; previewing a file or symbol is exactly its navigation |
| SearchForm.KeyDown | Forms/SearchForm.xaml.cs:141-186 | Escape only closes; Return commits to the selection; moving keys move and then preview, never closing or executing; other keys are not handled; a valid index stays valid |
| SearchForm.EmptyListIsInert | Forms/SearchForm.xaml.cs:141-186 | on an empty list every key but Escape has no effect |
| SearchForm.Click | Forms/SearchForm.xaml.cs:230-235 | a mouse-up over an entry commits to the selection, closing first; over no entry it does nothing |
| SearchForm.Handle | Forms/SearchForm.xaml.cs:86-235 | one event keeps a valid index valid and never executes a command before closing; a click on an entry selects that entry and commits to it; a click on no entry changes nothing |
| SearchForm.Run | Forms/SearchForm.xaml.cs:86-235 | any series of events keeps a valid index valid and every execution directly follows a close |
| SearchForm.SelectionStaysValid | Forms/SearchForm.xaml.cs:86-235 | from the opened dialog, whatever modelled events happen, an entry is selected whenever the list has one, and commands run only after a close |

## Left out

- Candidate loading and the search itself (`SearchInstance.LoadDataAsync`,
  `SearchInstance.Search`), including any fuzzy matching or scoring:
  `SearchInstance` is not part of this model; the results of a search are a
  parameter of `SearchForm.Refresh` and `SearchForm.Open`.
- The sorting algorithm that applies a comparator (`List.Sort` inside
  `SearchInstance`) and its (lack of) stability: only what it means for a list
  to be ordered by a comparator (`Ranking.SortedBy`) is modelled.
- Culture-aware collation: names are compared by ASCII case folding to lower
  case and then by character code, not by the invariant culture. Only the
  relative order of letters (ignoring case) and of digits agrees with that
  collation. Punctuation is ordered by character code, so names containing
  punctuation may order differently in general. Some examples:
  - The invariant culture gives `-` and `'` almost no weight, while the model
    orders them by code. So the model sorts `app-state.ts` before `apply.ts`,
    and the culture sorts it after.
  - Among punctuation, `-` sorts before `_` in the model.
  - Against digits, `:;<=>?@[\]^_` and the backquote sort after the digits, so
    `_Layout.cshtml` sorts after `404.html`.
  - Against letters, `{|}~` sort after the letters.

  Non-ASCII letters are not folded and are ordered by code.
- Floating-point weights and the NaN behaviour of `Double.CompareTo`: weights
  are integers.
- Window plumbing: placement (`AdjustPosition`), fonts, theme brushes and
  symbol colours in the constructor and `RefreshList`, scrolling
  (`EnsureSelectedItemIsVisible`) and `ShowModalAsync`; none of them affects
  the selection or the effect trace.
- Coercion of an out-of-range selected index by the list control: on an empty
  list PageUp yields index 0 in the model, which selects nothing.
- SearchForm.Handle: modifier clicks are not modelled. In particular, a
  Ctrl+click on the entry already selected clears the selection in the list
  control. The mouse-up handler then commits nothing and the dialog stays open
  with no selection. The model treats every click on an entry as a plain click
  that selects and commits to it.
- Dialog lifetime: after `Close` the real window receives no further events;
  `SearchForm.Run` keeps processing whatever events it is given.
- SearchForm.KeyDown: `handled` assumes the awaited preview or commit finishes
  before the key handler returns. The handler is `async void` and marks the key
  handled only after the await, so a navigation call that suspends leaves the
  key unhandled while it is still being routed, and it may reach the query
  editor; that interleaving is not modelled.
- Asynchrony: awaited navigation and execution calls are entries of the effect
  trace, in the order the handler issues them; their failure is not modelled.
- Dismissal on a click outside the dialog (`Tools/DismissOnClickOutsideBounds.cs`)
  and the two commands that open the dialog: Win32 hooks and thread switches
  with no logic of the dialog's own.
