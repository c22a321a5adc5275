/** What the three crawlers share: the measure that bounds their recursion by depth. */
module Crawl {

  /** How far a page at `depth` is from the depth bound `maxDepth`; a page past the bound has
      rank 0, and a child (one level deeper) of a page within the bound has a smaller rank. */
  function Rank(depth: nat, maxDepth: nat): (r: nat)
    ensures r == 0 <==> depth > maxDepth
    ensures r <= maxDepth + 1
  {
    if depth <= maxDepth then maxDepth - depth + 1 else 0
  }
}
