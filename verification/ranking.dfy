/** The choice among the eight comparators, and what it means for a result
    list to be ordered by one of them. */
module Ranking {
  import opened Items
  import Sort

  /** The configurable sort orders, one per comparator. */
  datatype SortType =
    | Alphabetical | AlphabeticalReverse
    | LineNumber | LineNumberReverse
    | Weight | WeightReverse
    | Fuzzy | FuzzyReverse
  {
    /** True for the two orders that only ever separate symbols. */
    predicate ByLine() {
      LineNumber? || LineNumberReverse?
    }
  }

  /** The comparator that a sort type selects. */
  function Compare(t: SortType, a: ListItem, b: ListItem): int {
    match t
    case Alphabetical => Sort.Alphabetical(a, b)
    case AlphabeticalReverse => Sort.AlphabeticalReverse(a, b)
    case LineNumber => Sort.LineNumber(a, b)
    case LineNumberReverse => Sort.LineNumberReverse(a, b)
    case Weight => Sort.Weight(a, b)
    case WeightReverse => Sort.WeightReverse(a, b)
    case Fuzzy => Sort.Fuzzy(a, b)
    case FuzzyReverse => Sort.FuzzyReverse(a, b)
  }

  /** The counterpart of a sort type in the other direction. */
  function Reverse(t: SortType): (r: SortType)
    ensures r != t
    ensures r.ByLine() == t.ByLine()
  {
    match t
    case Alphabetical => AlphabeticalReverse
    case AlphabeticalReverse => Alphabetical
    case LineNumber => LineNumberReverse
    case LineNumberReverse => LineNumber
    case Weight => WeightReverse
    case WeightReverse => Weight
    case Fuzzy => FuzzyReverse
    case FuzzyReverse => Fuzzy
  }

  /** Every reverse order is its forward order with the operands swapped. */
  lemma ReverseIsSwap(t: SortType, a: ListItem, b: ListItem)
    ensures Compare(Reverse(t), a, b) == Compare(t, b, a)
  {
    match t
    case Alphabetical => Sort.AlphabeticalReverseIsSwap(a, b);
    case AlphabeticalReverse => Sort.AlphabeticalReverseIsSwap(b, a);
    case _ =>
  }

  /** Every comparator finds an item equal to itself. */
  lemma CompareReflexive(t: SortType, a: ListItem)
    ensures Compare(t, a, a) == 0
  {
  }

  /** Every comparator is antisymmetric: swapping the operands negates it. */
  lemma CompareAntisymmetric(t: SortType, a: ListItem, b: ListItem)
    ensures Compare(t, a, b) == -Compare(t, b, a)
  {
    match t
    case Alphabetical => Sort.AlphabeticalReverseIsSwap(a, b);
    case AlphabeticalReverse => Sort.AlphabeticalReverseIsSwap(b, a);
    case _ =>
  }

  /** The weight and fuzzy orders depend on nothing but the weights. */
  lemma WeightOrdersSeeOnlyWeights(t: SortType, a: ListItem, b: ListItem, a': ListItem, b': ListItem)
    requires t in {Weight, WeightReverse, Fuzzy, FuzzyReverse}
    requires a.weight == a'.weight && b.weight == b'.weight
    ensures Compare(t, a, b) == Compare(t, a', b')
  {
  }

  /** Every item of `s` is a symbol. */
  predicate AllSymbols(s: seq<ListItem>) {
    forall i :: 0 <= i < |s| ==> s[i].SymbolItem?
  }

  /** `s` is ordered by `t`: no item sorts after one that follows it. */
  predicate SortedBy(t: SortType, s: seq<ListItem>) {
    forall i, j :: 0 <= i < j < |s| ==> Compare(t, s[i], s[j]) <= 0
  }

  /** Each neighbouring pair of `s` is ordered by `t`. */
  predicate AdjacentSortedBy(t: SortType, s: seq<ListItem>) {
    forall i :: 0 < i < |s| ==> Compare(t, s[i - 1], s[i]) <= 0
  }

  /** On `s` the comparator `t` is transitive. */
  predicate TransitiveOn(t: SortType, s: seq<ListItem>) {
    forall i, j, k :: 0 <= i < |s| && 0 <= j < |s| && 0 <= k < |s| ==>
      Compare(t, s[i], s[j]) <= 0 && Compare(t, s[j], s[k]) <= 0 ==> Compare(t, s[i], s[k]) <= 0
  }

  /** Every comparator but the two line orders is transitive on any list; the
      line orders are transitive on lists of symbols. */
  lemma CompareTransitive(t: SortType, a: ListItem, b: ListItem, c: ListItem)
    requires t.ByLine() ==> a.SymbolItem? && b.SymbolItem? && c.SymbolItem?
    requires Compare(t, a, b) <= 0 && Compare(t, b, c) <= 0
    ensures Compare(t, a, c) <= 0
  {
    match t
    case Alphabetical => Sort.AlphabeticalTransitive(a, b, c);
    case AlphabeticalReverse =>
      Sort.AlphabeticalReverseIsSwap(a, b);
      Sort.AlphabeticalReverseIsSwap(b, c);
      Sort.AlphabeticalReverseIsSwap(a, c);
      Sort.AlphabeticalTransitive(c, b, a);
    case LineNumber =>
      Sort.LineNumberTransitiveOnSymbols(a, b, c);
    case LineNumberReverse =>
      assert a.line >= b.line >= c.line;
    case Weight =>
      assert a.weight <= b.weight <= c.weight;
    case WeightReverse =>
      assert a.weight >= b.weight >= c.weight;
    case Fuzzy =>
      assert a.weight <= b.weight <= c.weight;
    case FuzzyReverse =>
      assert a.weight >= b.weight >= c.weight;
  }

  /** The premise of `AdjacentSortedIsSorted` holds for every comparator but
      the line orders, and for those on lists of symbols. */
  lemma TransitiveOnWhenApplicable(t: SortType, s: seq<ListItem>)
    requires t.ByLine() ==> AllSymbols(s)
    ensures TransitiveOn(t, s)
  {
    forall i, j, k | 0 <= i < |s| && 0 <= j < |s| && 0 <= k < |s|
      && Compare(t, s[i], s[j]) <= 0 && Compare(t, s[j], s[k]) <= 0
      ensures Compare(t, s[i], s[k]) <= 0
    {
      CompareTransitive(t, s[i], s[j], s[k]);
    }
  }

  /** For a transitive comparator, ordering each neighbouring pair orders the
      whole list. */
  lemma {:induction false} AdjacentSortedIsSorted(t: SortType, s: seq<ListItem>)
    requires TransitiveOn(t, s)
    requires AdjacentSortedBy(t, s)
    ensures SortedBy(t, s)
  {
    forall i, j | 0 <= i < j < |s|
      ensures Compare(t, s[i], s[j]) <= 0
    {
      PrefixOrdered(t, s, i, j);
    }
  }

  /** Induction on the distance between the two positions. */
  lemma {:induction false} PrefixOrdered(t: SortType, s: seq<ListItem>, i: int, j: int)
    requires TransitiveOn(t, s)
    requires AdjacentSortedBy(t, s)
    requires 0 <= i < j < |s|
    ensures Compare(t, s[i], s[j]) <= 0
    decreases j - i
  {
    if i + 1 < j {
      PrefixOrdered(t, s, i, j - 1);
      assert Compare(t, s[j - 1], s[j]) <= 0;
    }
  }

  /** A list of symbols ordered by line number has non-decreasing lines, and
      one ordered by the reverse has non-increasing lines. */
  lemma SortedSymbolsHaveOrderedLines(s: seq<ListItem>)
    requires AllSymbols(s)
    ensures SortedBy(LineNumber, s) ==> forall i, j :: 0 <= i < j < |s| ==> s[i].line <= s[j].line
    ensures SortedBy(LineNumberReverse, s) ==> forall i, j :: 0 <= i < j < |s| ==> s[i].line >= s[j].line
  {
  }

  /** In a mixed list, ordering neighbours by line number does not order the
      list: a file between two symbols separates them. */
  lemma MixedListsAreNotSortedByNeighbours()
    ensures var s := [SymbolItem("late", 0, 5), FileItem("file", 0, "file"), SymbolItem("early", 0, 1)];
            AdjacentSortedBy(LineNumber, s) && !SortedBy(LineNumber, s)
  {
    var s := [SymbolItem("late", 0, 5), FileItem("file", 0, "file"), SymbolItem("early", 0, 1)];
    assert Compare(LineNumber, s[0], s[2]) > 0;
  }
}
