/** The eight comparison functions the result list is ranked with. Each returns
    a negative number, zero or a positive number as its first operand sorts
    before, together with or after its second. */
module Sort {
  import opened Items
  import opened NameOrder

  /** Three-way comparison of two integers, as the integer `CompareTo` does:
      -1, 0 or 1. */
  function CompareInts(x: int, y: int): (r: int)
    ensures -1 <= r <= 1
    ensures r < 0 <==> x < y
    ensures r == 0 <==> x == y
  {
    if x < y then -1 else if x == y then 0 else 1
  }

  /** By name, ignoring case, ascending: negative exactly when the first
      name sorts lexicographically before the second ignoring case, zero
      exactly for names equal ignoring case. */
  function Alphabetical(a: ListItem, b: ListItem): (r: int)
    ensures -1 <= r <= 1
    ensures r == 0 <==> Fold(a.name) == Fold(b.name)
    ensures r < 0 <==> LexLess(Fold(a.name), Fold(b.name))
  {
    CompareNames(a.name, b.name)
  }

  /** By name, ignoring case, descending: the negation of `Alphabetical`. */
  function AlphabeticalReverse(a: ListItem, b: ListItem): (r: int)
    ensures r == -Alphabetical(a, b)
    ensures r < 0 <==> LexLess(Fold(b.name), Fold(a.name))
  {
    CompareNamesAntisymmetric(b.name, a.name);
    CompareNames(b.name, a.name)
  }

  /** By line, but only when both operands are symbols; any other pair
      compares equal. */
  function LineNumber(a: ListItem, b: ListItem): (r: int)
    ensures !(a.SymbolItem? && b.SymbolItem?) ==> r == 0
    ensures a.SymbolItem? && b.SymbolItem? ==>
      (r < 0 <==> a.line < b.line) && (r == 0 <==> a.line == b.line) && (r > 0 <==> a.line > b.line)
  {
    if a.SymbolItem? && b.SymbolItem? then CompareInts(a.line, b.line) else 0
  }

  /** By line, descending, again only between two symbols. */
  function LineNumberReverse(a: ListItem, b: ListItem): (r: int)
    ensures !(a.SymbolItem? && b.SymbolItem?) ==> r == 0
    ensures a.SymbolItem? && b.SymbolItem? ==>
      (r < 0 <==> a.line > b.line) && (r == 0 <==> a.line == b.line) && (r > 0 <==> a.line < b.line)
  {
    if a.SymbolItem? && b.SymbolItem? then CompareInts(b.line, a.line) else 0
  }

  /** By weight, ascending. */
  function Weight(a: ListItem, b: ListItem): (r: int)
    ensures -1 <= r <= 1
    ensures r < 0 <==> a.weight < b.weight
    ensures r == 0 <==> a.weight == b.weight
  {
    CompareInts(a.weight, b.weight)
  }

  /** By weight, descending. */
  function WeightReverse(a: ListItem, b: ListItem): (r: int)
    ensures -1 <= r <= 1
    ensures r < 0 <==> a.weight > b.weight
    ensures r == 0 <==> a.weight == b.weight
  {
    CompareInts(b.weight, a.weight)
  }

  /** Despite its name, compares weights only: no query score takes part. */
  function Fuzzy(a: ListItem, b: ListItem): (r: int)
    ensures r == Weight(a, b)
  {
    CompareInts(a.weight, b.weight)
  }

  /** Despite its name, compares weights only, descending. */
  function FuzzyReverse(a: ListItem, b: ListItem): (r: int)
    ensures r == WeightReverse(a, b)
  {
    CompareInts(b.weight, a.weight)
  }

  /** The reverse alphabetical order is the alphabetical order with its
      operands swapped. */
  lemma AlphabeticalReverseIsSwap(a: ListItem, b: ListItem)
    ensures AlphabeticalReverse(a, b) == Alphabetical(b, a)
  {
    CompareNamesAntisymmetric(a.name, b.name);
  }

  /** Names equal ignoring case compare equal, whatever else differs. */
  lemma AlphabeticalIgnoresCase(a: ListItem, b: ListItem)
    ensures Alphabetical(a, b) == CompareNames(Fold(a.name), Fold(b.name))
  {
    CompareNamesIgnoresCase(a.name, b.name);
  }

  /** The alphabetical order is transitive. */
  lemma AlphabeticalTransitive(a: ListItem, b: ListItem, c: ListItem)
    requires Alphabetical(a, b) <= 0 && Alphabetical(b, c) <= 0
    ensures Alphabetical(a, c) <= 0
  {
    CompareNamesTransitive(a.name, b.name, c.name);
  }

  /** Between two symbols the line order is transitive. */
  lemma LineNumberTransitiveOnSymbols(a: ListItem, b: ListItem, c: ListItem)
    requires a.SymbolItem? && b.SymbolItem? && c.SymbolItem?
    requires LineNumber(a, b) <= 0 && LineNumber(b, c) <= 0
    ensures LineNumber(a, c) <= 0 && a.line <= c.line
  {
  }

  /** Once a non-symbol takes part, the line order is not transitive: a file
      compares equal to every symbol, yet the symbols on either side of it
      need not compare equal to each other. */
  lemma LineNumberNotTransitiveOnMixedItems()
    ensures var late := SymbolItem("late", 0, 5);
            var file := FileItem("file", 0, "file");
            var early := SymbolItem("early", 0, 1);
            LineNumber(late, file) == 0 && LineNumber(file, early) == 0 && LineNumber(late, early) > 0
  {
  }
}
