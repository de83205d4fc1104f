/** The question table's pagination and row styling: which questions a page
    shows, the number each row displays, the page reset on a new page
    size, the row shading and the difficulty colour. */
module QuestionTable {
  import opened Text

  /** The page index and the page size. */
  datatype Paging = Paging(page: nat, rowsPerPage: nat)

  const InitialPaging := Paging(0, 10)

  function Min(a: int, b: int): int {
    if a <= b then a else b
  }

  /** `questions.slice(page * rpp, page * rpp + rpp)`; `slice` clamps both
      ends to the length. */
  function PageRows<Q>(questions: seq<Q>, p: Paging): (r: seq<Q>)
    ensures |r| <= p.rowsPerPage
    ensures |r| == if p.page * p.rowsPerPage >= |questions| then 0
                   else Min(p.rowsPerPage, |questions| - p.page * p.rowsPerPage)
    ensures forall i | 0 <= i < |r| :: r[i] == questions[p.page * p.rowsPerPage + i]
  {
    var start := Min(p.page * p.rowsPerPage, |questions|);
    var end := Min(p.page * p.rowsPerPage + p.rowsPerPage, |questions|);
    questions[start..end]
  }

  /** The number shown in the ID column of the `index`-th row of the page. */
  function RowNumber(index: nat, p: Paging): (n: nat)
    ensures n >= 1
  {
    index + p.page * p.rowsPerPage + 1
  }

  /** The number a row shows is its position in the whole list, counted
      from 1. */
  lemma RowNumberIsPosition<Q>(questions: seq<Q>, p: Paging, index: nat)
    requires index < |PageRows(questions, p)|
    ensures RowNumber(index, p) - 1 < |questions|
    ensures questions[RowNumber(index, p) - 1] == PageRows(questions, p)[index]
  {
  }

  /** Consecutive full pages number their rows consecutively: the first row
      of the next page follows the last row of this one. */
  lemma NumbersContinueAcrossPages(p: Paging)
    requires p.rowsPerPage >= 1
    ensures RowNumber(0, p.(page := p.page + 1)) == RowNumber(p.rowsPerPage - 1, p) + 1
  {
  }

  /** Walking the pages in order lists every question exactly once. */
  lemma {:induction false} PagesCoverList<Q>(questions: seq<Q>, rowsPerPage: nat, pages: nat)
    requires rowsPerPage >= 1
    requires pages * rowsPerPage >= |questions|
    ensures Concat(questions, rowsPerPage, pages) == questions
  {
    ConcatPrefix(questions, rowsPerPage, pages);
    assert questions[..Min(pages * rowsPerPage, |questions|)] == questions;
  }

  /** The rows of pages `0 .. pages - 1`, one after another. */
  function Concat<Q>(questions: seq<Q>, rowsPerPage: nat, pages: nat): seq<Q>
    decreases pages
  {
    if pages == 0 then [] else Concat(questions, rowsPerPage, pages - 1) + PageRows(questions, Paging(pages - 1, rowsPerPage))
  }

  /** The first `pages` pages are a prefix of the list. */
  lemma {:induction false} ConcatPrefix<Q>(questions: seq<Q>, rowsPerPage: nat, pages: nat)
    ensures Concat(questions, rowsPerPage, pages) == questions[..Min(pages * rowsPerPage, |questions|)]
    decreases pages
  {
    if pages > 0 {
      ConcatPrefix(questions, rowsPerPage, pages - 1);
      var lo := (pages - 1) * rowsPerPage;
      MulSucc(pages - 1, rowsPerPage);
      PageRowsSlice(questions, Paging(pages - 1, rowsPerPage));
      ConcatStep(questions, rowsPerPage, pages);
      PrefixThenSlice(questions, Concat(questions, rowsPerPage, pages - 1),
                      PageRows(questions, Paging(pages - 1, rowsPerPage)), Concat(questions, rowsPerPage, pages),
                      Min(lo, |questions|), Min(lo + rowsPerPage, |questions|));
    }
  }

  /** The rows of `pages` pages: those of the pages before, then the last. */
  lemma ConcatStep<Q>(questions: seq<Q>, rowsPerPage: nat, pages: nat)
    requires pages >= 1
    ensures Concat(questions, rowsPerPage, pages)
      == Concat(questions, rowsPerPage, pages - 1) + PageRows(questions, Paging(pages - 1, rowsPerPage))
  {
  }

  /** A page is the slice between its clamped bounds. */
  lemma PageRowsSlice<Q>(questions: seq<Q>, p: Paging)
    ensures PageRows(questions, p)
      == questions[Min(p.page * p.rowsPerPage, |questions|)..Min(p.page * p.rowsPerPage + p.rowsPerPage, |questions|)]
  {
  }

  lemma MulSucc(n: nat, k: nat)
    ensures 0 <= n * k && n * k + k == (n + 1) * k
  {
  }

  /** A prefix followed by the slice after it is the longer prefix. */
  lemma PrefixThenSlice<Q>(s: seq<Q>, front: seq<Q>, piece: seq<Q>, whole: seq<Q>, a: nat, b: nat)
    requires a <= b <= |s|
    requires front == s[..a] && piece == s[a..b] && whole == front + piece
    ensures whole == s[..b]
  {
  }

  /** `handleChangeRowsPerPage`: a new page size starts again at page 0. */
  function ChangeRowsPerPage(p: Paging, rowsPerPage: nat): (r: Paging)
    ensures r.page == 0 && r.rowsPerPage == rowsPerPage
  {
    Paging(0, rowsPerPage)
  }

  /** `handleChangePage`. */
  function ChangePage(p: Paging, page: nat): (r: Paging)
    ensures r.page == page && r.rowsPerPage == p.rowsPerPage
  {
    p.(page := page)
  }

  /** After a page change the table shows the chosen page: its first row is
      the question at position page·rpp, numbered page·rpp + 1. */
  lemma ChangePageShowsPage<Q>(questions: seq<Q>, p: Paging, page: nat)
    requires page * p.rowsPerPage < |questions| && p.rowsPerPage >= 1
    ensures var rows := PageRows(questions, ChangePage(p, page));
      && |rows| >= 1 && rows[0] == questions[page * p.rowsPerPage]
      && RowNumber(0, ChangePage(p, page)) == page * p.rowsPerPage + 1
  {
  }

  /** After a page-size change the first question is the first row shown. */
  lemma ResizeShowsFirstQuestion<Q>(questions: seq<Q>, p: Paging, rowsPerPage: nat)
    requires |questions| >= 1 && rowsPerPage >= 1
    ensures var rows := PageRows(questions, ChangeRowsPerPage(p, rowsPerPage));
      |rows| >= 1 && rows[0] == questions[0] && RowNumber(0, ChangeRowsPerPage(p, rowsPerPage)) == 1
  {
  }

  const EvenShade := "#EBEBEB"
  const OddShade := "#F7F7F7"

  /** The background of the `index`-th row of the page. */
  function RowShade(index: nat): (c: string)
    ensures c == EvenShade <==> index % 2 == 0
    ensures c == EvenShade || c == OddShade
  {
    if index % 2 == 0 then EvenShade else OddShade
  }

  /** Shading alternates from row to row and repeats every two rows. */
  lemma ShadesAlternate(index: nat)
    ensures RowShade(index) != RowShade(index + 1)
    ensures RowShade(index) == RowShade(index + 2)
  {
  }

  const EasyColour := "#00C000"
  const MediumColour := "#FFB800"
  const HardColour := "#EE0000"
  const OtherColour := "black"

  /** The colour of the difficulty cell, by the lower-cased difficulty. */
  function DifficultyColour(difficulty: string): (c: string)
    ensures c == EasyColour <==> ToLower(difficulty) == "easy"
    ensures c == MediumColour <==> ToLower(difficulty) == "medium"
    ensures c == HardColour <==> ToLower(difficulty) == "hard"
    ensures c == OtherColour <==> ToLower(difficulty) !in ["easy", "medium", "hard"]
  {
    var d := ToLower(difficulty);
    if d == "easy" then EasyColour
    else if d == "medium" then MediumColour
    else if d == "hard" then HardColour
    else OtherColour
  }

  /** The colour ignores letter case. */
  lemma DifficultyColourIgnoresCase(a: string, b: string)
    requires |a| == |b|
    requires forall i | 0 <= i < |a| :: LowerChar(a[i]) == LowerChar(b[i])
    ensures DifficultyColour(a) == DifficultyColour(b)
  {
    assert ToLower(a) == ToLower(b);
  }

  /** The stored spellings get their colours. */
  lemma StoredDifficultiesColoured()
    ensures DifficultyColour("Easy") == EasyColour
    ensures DifficultyColour("Medium") == MediumColour
    ensures DifficultyColour("Hard") == HardColour
  {
    assert ToLower("Easy") == "easy";
    assert ToLower("Medium") == "medium";
    assert ToLower("Hard") == "hard";
  }
}
