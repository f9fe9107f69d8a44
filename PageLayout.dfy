/**
  The pagination loops of CreatePdfDocument (MathGen/Program.cs). The list of
  problems is cut into pages of 40; each page is a two-column table whose
  rows hold items i + j (left) and i + j + 1 (right), and a page break goes
  between consecutive pages but not after the last. The MigraDoc document is
  abstracted to the sequence of tables (pages) in the section and the number
  of page breaks; fonts, sizes, borders and column widths are left out.
*/
module PageLayout {
  import opened Wrappers

  /** sumsPerPage in the source. */
  const ProblemsPerPage: nat := 40

  /** One table row: the left cell and, unless the list has ended, the right cell. */
  datatype Row = Row(left: string, right: Option<string>)

  /** One table of the section, i.e. one printed page. */
  type Page = seq<Row>

  /** Rows of two items each, in order; an odd last item has no right cell. */
  function Rows(t: seq<string>): seq<Row>
    decreases |t|
  {
    if |t| == 0 then []
    else if |t| == 1 then [Row(t[0], None)]
    else [Row(t[0], Some(t[1]))] + Rows(t[2..])
  }

  /**
    The tables of the section: one per 40 items. An empty list still has the
    one empty table that is added before the loop.
  */
  function Paginate(s: seq<string>): (pages: seq<Page>)
    ensures |pages| >= 1
    decreases |s|
  {
    if |s| <= ProblemsPerPage then [Rows(s)]
    else [Rows(s[..ProblemsPerPage])] + Paginate(s[ProblemsPerPage..])
  }

  /** The row the source adds for the items at idx and idx + 1. */
  function RowAt(s: seq<string>, idx: nat): Row
    requires idx < |s|
  {
    Row(s[idx], if idx + 1 < |s| then Some(s[idx + 1]) else None)
  }

  /** Number of tables: ceil(n / 40), and 1 for an empty list. */
  function PageCount(n: nat): nat
  {
    if n == 0 then 1 else (n + ProblemsPerPage - 1) / ProblemsPerPage
  }

  function Min(x: int, y: int): int { if x <= y then x else y }

  function Cells(row: Row): seq<string>
  {
    match row.right
    case Some(r) => [row.left, r]
    case None => [row.left]
  }

  /** The cells of the rows, left then right, row after row. */
  function RowCells(rows: seq<Row>): seq<string>
    decreases |rows|
  {
    if |rows| == 0 then [] else Cells(rows[0]) + RowCells(rows[1..])
  }

  /** The cells of the pages, page after page. */
  function PageCells(pages: seq<Page>): seq<string>
    decreases |pages|
  {
    if |pages| == 0 then [] else RowCells(pages[0]) + PageCells(pages[1..])
  }

  /** Reading the rows cell by cell gives back the items. */
  lemma {:induction false} RowsCells(t: seq<string>)
    ensures RowCells(Rows(t)) == t
    decreases |t|
  {
    if |t| >= 2 {
      RowsCells(t[2..]);
      var rows := Rows(t);
      assert rows[1..] == Rows(t[2..]);
      assert t == [t[0], t[1]] + t[2..];
    }
  }

  /** Reading all pages cell by cell gives back exactly the list: nothing dropped, duplicated or reordered. */
  lemma {:induction false} PaginateCells(s: seq<string>)
    ensures PageCells(Paginate(s)) == s
    decreases |s|
  {
    if |s| <= ProblemsPerPage {
      RowsCells(s);
    } else {
      RowsCells(s[..ProblemsPerPage]);
      PaginateCells(s[ProblemsPerPage..]);
      var pages := Paginate(s);
      assert pages[1..] == Paginate(s[ProblemsPerPage..]);
      assert s == s[..ProblemsPerPage] + s[ProblemsPerPage..];
    }
  }

  /** Row k of Rows(t) holds items 2k and 2k + 1, and there are ceil(|t| / 2) rows. */
  lemma {:induction false} RowsAt(t: seq<string>, k: nat)
    ensures |Rows(t)| == (|t| + 1) / 2
    ensures k < (|t| + 1) / 2 ==> Rows(t)[k] == RowAt(t, 2 * k)
    decreases |t|
  {
    if |t| >= 2 {
      RowsAt(t[2..], if k > 0 then k - 1 else 0);
    }
  }

  /** One full page fewer leaves one table fewer. */
  lemma PageCountStep(n: nat)
    requires n > ProblemsPerPage
    ensures PageCount(n) == PageCount(n - ProblemsPerPage) + 1
  {
    assert n + ProblemsPerPage - 1 == (n - ProblemsPerPage + ProblemsPerPage - 1) + ProblemsPerPage;
  }

  /** There are ceil(n / 40) tables, and one for an empty list. */
  lemma {:induction false} PaginateLength(s: seq<string>)
    ensures |Paginate(s)| == PageCount(|s|)
    decreases |s|
  {
    if |s| > ProblemsPerPage {
      PaginateLength(s[ProblemsPerPage..]);
      PageCountStep(|s|);
    }
  }

  lemma SliceOfSuffix(s: seq<string>, d: nat, lo: nat, hi: nat)
    requires d <= |s| && lo <= hi <= |s| - d
    ensures s[d..][lo..hi] == s[d + lo .. d + hi]
  {
  }

  /** Page p holds the items 40p .. min(40p + 40, n) - 1. */
  lemma {:induction false} PaginateAt(s: seq<string>, p: nat)
    requires p < PageCount(|s|)
    ensures |Paginate(s)| == PageCount(|s|)
    ensures ProblemsPerPage * p <= |s|
    ensures Paginate(s)[p] == Rows(s[ProblemsPerPage * p .. Min(ProblemsPerPage * p + ProblemsPerPage, |s|)])
    decreases p
  {
    PaginateLength(s);
    if p == 0 {
      if |s| > ProblemsPerPage {
        assert s[0 .. Min(ProblemsPerPage, |s|)] == s[..ProblemsPerPage];
      } else {
        assert s[0 .. Min(ProblemsPerPage, |s|)] == s;
      }
    } else {
      PageCountStep(|s|);
      var rest := s[ProblemsPerPage..];
      PaginateAt(rest, p - 1);
      var lo := ProblemsPerPage * p;
      var hi := Min(lo + ProblemsPerPage, |s|);
      assert Paginate(s)[p] == Paginate(rest)[p - 1];
      assert ProblemsPerPage * (p - 1) == lo - ProblemsPerPage;
      assert Min(lo, |rest|) == hi - ProblemsPerPage;
      SliceOfSuffix(s, ProblemsPerPage, lo - ProblemsPerPage, hi - ProblemsPerPage);
    }
  }

  /**
    The shape of page p: at most 20 rows; row k holds items 40p + 2k and
    40p + 2k + 1; the right cell is missing only for the very last item.
  */
  lemma PageShape(s: seq<string>, p: nat, k: nat)
    requires p < PageCount(|s|)
    ensures |Paginate(s)| == PageCount(|s|)
    ensures |Paginate(s)[p]| == (Min(ProblemsPerPage, |s| - ProblemsPerPage * p) + 1) / 2 <= ProblemsPerPage / 2
    ensures k < |Paginate(s)[p]| ==>
              ProblemsPerPage * p + 2 * k < |s| &&
              Paginate(s)[p][k] == RowAt(s, ProblemsPerPage * p + 2 * k) &&
              (Paginate(s)[p][k].right.None? <==> ProblemsPerPage * p + 2 * k + 1 == |s|)
  {
    PaginateAt(s, p);
    var lo := ProblemsPerPage * p;
    var t := s[lo .. Min(lo + ProblemsPerPage, |s|)];
    RowsAt(t, k);
  }

  /**
    The inner for-loop over j of CreatePdfDocument: the rows of the page that
    starts at item i, added one by one to an empty table.
  */
  method FillPage(sums: seq<string>, i: nat) returns (table: Page)
    requires i < |sums| && i % ProblemsPerPage == 0
    ensures i / ProblemsPerPage < |Paginate(sums)|
    ensures table == Paginate(sums)[i / ProblemsPerPage]
  {
    var n := |sums|;
    ghost var p := i / ProblemsPerPage;
    PageShape(sums, p, 0);
    ghost var page := Paginate(sums)[p];
    table := [];
    var j := 0;
    while j < ProblemsPerPage && i + j < n
      invariant 0 <= j <= ProblemsPerPage && j % 2 == 0
      invariant j == 0 || i + j < n + 2
      invariant j / 2 <= |page|
      invariant table == page[..j / 2]
    {
      PageShape(sums, p, j / 2);
      var row := Row(sums[i + j], if i + j + 1 < n then Some(sums[i + j + 1]) else None);
      assert row == page[j / 2];
      assert page[..j / 2] + [row] == page[..j / 2 + 1];
      table := table + [row];
      j := j + 2;
    }
  }

  /** The page that starts at item i is the last one exactly when fewer than 40 items remain after it. */
  lemma PageIndex(n: nat, i: nat)
    requires i < n && i % ProblemsPerPage == 0
    ensures i / ProblemsPerPage < PageCount(n)
    ensures i + ProblemsPerPage < n ==> (i + ProblemsPerPage) / ProblemsPerPage < PageCount(n)
    ensures i + ProblemsPerPage >= n ==> i / ProblemsPerPage + 1 == PageCount(n)
  {
  }

  /**
    The layout part of CreatePdfDocument: the for-loop over i, one page per
    40 items, with a page break and a fresh table after every page but the
    last. Returns the section's tables, the last one being the table the
    loop leaves open, and the number of page breaks added.
  */
  method CreateLayout(sums: seq<string>) returns (pages: seq<Page>, breaks: nat)
    ensures pages == Paginate(sums)
    ensures breaks == |pages| - 1
  {
    var n := |sums|;
    ghost var all := Paginate(sums);
    PaginateLength(sums);
    pages := [];
    var table: Page := [];
    breaks := 0;
    var i := 0;
    while i < n
      invariant 0 <= i && i % ProblemsPerPage == 0
      invariant i < n ==> pages == all[..i / ProblemsPerPage] && table == [] && breaks == i / ProblemsPerPage
      invariant n <= i ==> pages + [table] == all && breaks == |all| - 1
    {
      ghost var p := i / ProblemsPerPage;
      PageIndex(n, i);
      table := FillPage(sums, i);
      if i + ProblemsPerPage < n {
        pages := pages + [table];
        assert pages == all[..p + 1];
        breaks := breaks + 1;
        table := [];
      } else {
        assert all == all[..p] + [all[p]];
      }
      i := i + ProblemsPerPage;
    }
    pages := pages + [table];
  }

  /** One page break between consecutive pages: ceil(n / 40) - 1 of them, none for up to 40 items. */
  lemma PageBreakCount(s: seq<string>)
    ensures |Paginate(s)| - 1 == if |s| == 0 then 0 else (|s| + ProblemsPerPage - 1) / ProblemsPerPage - 1
    ensures |Paginate(s)| - 1 == 0 <==> |s| <= ProblemsPerPage
    ensures |s| > 0 ==> ProblemsPerPage * (|Paginate(s)| - 1) < |s| <= ProblemsPerPage * |Paginate(s)|
  {
    PaginateLength(s);
  }

  /** Eighty problems make two full pages of 20 rows, hence one page break (see CreateLayout). */
  lemma EightyProblems(s: seq<string>)
    requires |s| == 80
    ensures |Paginate(s)| == 2
    ensures |Paginate(s)[0]| == 20 && |Paginate(s)[1]| == 20
  {
    PageShape(s, 0, 0);
    PageShape(s, 1, 0);
  }

  /** The 20 * 40 problems the program generates fill 20 pages of 20 rows, hence 19 page breaks (see CreateLayout). */
  lemma ProgramDocument(s: seq<string>)
    requires |s| == 20 * 40
    ensures |Paginate(s)| == 20
    ensures forall p :: 0 <= p < 20 ==> |Paginate(s)[p]| == 20
  {
    PaginateLength(s);
    forall p | 0 <= p < 20
      ensures |Paginate(s)[p]| == 20
    {
      PageShape(s, p, 0);
    }
  }
}
