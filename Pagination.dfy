/**
  The page arithmetic shared by the injured list and the recovered list:
  pages of ten rows, numbered from 1, cut with JavaScript's `slice`.
 */
module Pagination {

  const PlayersPerPage: int := 10

  function Min(a: int, b: int): int
  {
    if a <= b then a else b
  }

  /** How `slice` reads one bound against a length `n`: negatives count from the end, all clamped to `[0, n]`. */
  function SliceIndex(i: int, n: nat): (r: nat)
    ensures r <= n
    ensures 0 <= i ==> r == Min(i, n)
  {
    if i < 0 then (if n + i < 0 then 0 else n + i)
    else if i > n then n
    else i
  }

  /** `s.slice(start, end)`. */
  function JsSlice<T>(s: seq<T>, start: int, end: int): seq<T>
  {
    var a := SliceIndex(start, |s|);
    var b := SliceIndex(end, |s|);
    if a < b then s[a..b] else []
  }

  /** `currentPlayers` on page `currentPage`. */
  function CurrentPlayers<T>(s: seq<T>, currentPage: int): seq<T>
  {
    var indexOfLastPlayer := currentPage * PlayersPerPage;
    var indexOfFirstPlayer := indexOfLastPlayer - PlayersPerPage;
    JsSlice(s, indexOfFirstPlayer, indexOfLastPlayer)
  }

  /** `Math.ceil(n / playersPerPage)`. */
  function TotalPages(n: nat): nat
  {
    (n + PlayersPerPage - 1) / PlayersPerPage
  }

  /** Page `p` (from 1) holds the rows from `(p - 1) * 10` up to `p * 10`, cut at the end of the list. */
  lemma PageIsSlice<T>(s: seq<T>, p: int)
    requires p >= 1
    ensures Min((p - 1) * PlayersPerPage, |s|) <= Min(p * PlayersPerPage, |s|)
    ensures CurrentPlayers(s, p) == s[Min((p - 1) * PlayersPerPage, |s|)..Min(p * PlayersPerPage, |s|)]
  {
  }

  /** No page holds more than ten rows, whatever the page number, and page 0 is empty. */
  lemma PageAtMostTen<T>(s: seq<T>, p: int)
    ensures |CurrentPlayers(s, p)| <= PlayersPerPage
    ensures p == 0 ==> CurrentPlayers(s, p) == []
  {
  }

  /** A page shows only rows of the list. */
  lemma PageRowsFromList<T>(s: seq<T>, p: int)
    ensures forall x :: x in CurrentPlayers(s, p) ==> x in s
  {
  }

  /** The page count is the least number of ten-row pages that holds the list. */
  lemma TotalPagesIsCeiling(n: nat)
    ensures TotalPages(n) * PlayersPerPage >= n
    ensures n > 0 ==> (TotalPages(n) - 1) * PlayersPerPage < n
    ensures n == 0 <==> TotalPages(n) == 0
  {
  }

  /** A page from 1 on is non-empty exactly when it is one of the numbered pages. */
  lemma PageNonEmptyIffNumbered<T>(s: seq<T>, p: int)
    requires p >= 1
    ensures CurrentPlayers(s, p) != [] <==> p <= TotalPages(|s|)
  {
    TotalPagesIsCeiling(|s|);
    if p <= TotalPages(|s|) {
      assert (p - 1) * PlayersPerPage <= (TotalPages(|s|) - 1) * PlayersPerPage;
    } else {
      assert TotalPages(|s|) * PlayersPerPage <= (p - 1) * PlayersPerPage;
    }
  }

  /** Pages 1 to `k` one after another. */
  function PagesUpTo<T>(s: seq<T>, k: nat): seq<T>
  {
    if k == 0 then [] else PagesUpTo(s, k - 1) + CurrentPlayers(s, k)
  }

  lemma {:induction false} PagesUpToIsPrefix<T>(s: seq<T>, k: nat)
    ensures PagesUpTo(s, k) == s[..Min(k * PlayersPerPage, |s|)]
  {
    if k > 0 {
      PagesUpToIsPrefix(s, k - 1);
      PageIsSlice(s, k);
      var a := Min((k - 1) * PlayersPerPage, |s|);
      var b := Min(k * PlayersPerPage, |s|);
      assert s[..a] + s[a..b] == s[..b];
    }
  }

  /** The numbered pages, read in order, give back the whole list. */
  lemma PagesReassemble<T>(s: seq<T>)
    ensures PagesUpTo(s, TotalPages(|s|)) == s
  {
    PagesUpToIsPrefix(s, TotalPages(|s|));
    TotalPagesIsCeiling(|s|);
  }
}
