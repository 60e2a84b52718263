/** The page list of `scrapeSearxPage` (index.ts): the numbers of the page
    buttons, with the current page added, without repeats, ascending. */
module Pagination {
  import opened Results
  import opened SortedSets

  /** What `parseInt(value, 10)` gives: an integer, or `NaN` when the text
      does not start with one. */
  datatype Parsed = Finite(value: int) | NaN

  /** `.filter(n => Number.isFinite(n))` over the parsed button values. */
  function FinitePages(pages: seq<Parsed>): (r: seq<int>)
    ensures forall n :: n in r <==> Finite(n) in pages
  {
    if |pages| == 0 then []
    else
      (match pages[0] case Finite(n) => [n] case NaN => [])
      + FinitePages(pages[1..])
  }

  /** `currentPage ? [currentPage] : []`: no button, `NaN` and 0 are all
      falsy and add nothing. */
  function CurrentEntry(current: Option<Parsed>): (r: seq<int>)
    ensures forall n :: n in r <==> current == Some(Finite(n)) && n != 0
  {
    match current
    case Some(Finite(n)) => if n != 0 then [n] else []
    case _ => []
  }

  /** `paginationPages`. */
  function MergePages(pages: seq<Parsed>, current: Option<Parsed>): (r: seq<int>)
    ensures StrictlyIncreasing(r)
    ensures forall n :: n in r <==> Finite(n) in pages || (current == Some(Finite(n)) && n != 0)
  {
    SortUnique(FinitePages(pages) + CurrentEntry(current))
  }

  /** The merged list depends only on which page numbers appear, not on
      their order or repetitions on the page. */
  lemma MergeIgnoresButtonOrder(p1: seq<Parsed>, p2: seq<Parsed>, current: Option<Parsed>)
    requires forall n :: Finite(n) in p1 <==> Finite(n) in p2
    ensures MergePages(p1, current) == MergePages(p2, current)
  {
    StrictlyIncreasingUnique(MergePages(p1, current), MergePages(p2, current));
  }
}
