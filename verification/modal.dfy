/**
 * The project detail modal's navigation: a cyclic index over the list of
 * projects, the keyboard handler installed while the modal is open, the
 * visibility of the arrow buttons and the displayed counters.
 */
module Modal {

  import opened Wrappers

  /**
   * The next project, wrapping from the last to the first:
   * `(currentIndex + 1) % allProjects.length`. The operand is never negative,
   * so JavaScript's `%` and Dafny's agree.
   */
  function Next(i: int, n: int): (j: int)
    requires 0 <= i < n
    ensures 0 <= j < n
    ensures i < n - 1 ==> j == i + 1
    ensures i == n - 1 ==> j == 0
  {
    (i + 1) % n
  }

  /** The previous project, wrapping from the first to the last: `(currentIndex - 1 + n) % n`. */
  function Prev(i: int, n: int): (j: int)
    requires 0 <= i < n
    ensures 0 <= j < n
    ensures i > 0 ==> j == i - 1
    ensures i == 0 ==> j == n - 1
  {
    (i - 1 + n) % n
  }

  /** Going forward then back, or back then forward, returns to the same project. */
  lemma NextPrevInverse(i: int, n: int)
    requires 0 <= i < n
    ensures Prev(Next(i, n), n) == i
    ensures Next(Prev(i, n), n) == i
  {
  }

  /** Both arrow buttons are rendered exactly when there is more than one project. */
  predicate ArrowsShown(n: int) {
    n > 1
  }

  /** Navigation moves to another project exactly when the arrows are shown; with one project it stays on index 0. */
  lemma NavigationMovesIffArrowsShown(i: int, n: int)
    requires 0 <= i < n
    ensures Next(i, n) != i <==> ArrowsShown(n)
    ensures Prev(i, n) != i <==> ArrowsShown(n)
    ensures n == 1 ==> Next(i, n) == 0 && Prev(i, n) == 0
  {
  }

  /** What a key press asks the page to do. */
  datatype Action = Close | Navigate(index: int) | Ignore

  /**
   * The `keydown` handler. It is installed only while the modal is open, so
   * nothing happens otherwise; Escape closes, the left and right arrows
   * navigate, every other key is ignored.
   */
  function HandleKey(isOpen: bool, key: string, i: int, n: int): (a: Action)
    requires isOpen ==> 0 <= i < n
    ensures a.Close? <==> isOpen && key == "Escape"
    ensures a.Navigate? <==> isOpen && (key == "ArrowLeft" || key == "ArrowRight")
    ensures isOpen && key == "ArrowLeft" ==> a == Navigate(Prev(i, n))
    ensures isOpen && key == "ArrowRight" ==> a == Navigate(Next(i, n))
    ensures a.Navigate? ==> 0 <= a.index < n
  {
    if !isOpen then Ignore
    else if key == "Escape" then Close
    else if key == "ArrowLeft" then Navigate(Prev(i, n))
    else if key == "ArrowRight" then Navigate(Next(i, n))
    else Ignore
  }

  /** A left press undone by a right press: the modal returns to where it was. */
  lemma LeftThenRight(i: int, n: int)
    requires 0 <= i < n
    ensures HandleKey(true, "ArrowRight", HandleKey(true, "ArrowLeft", i, n).index, n) == Navigate(i)
  {
    NextPrevInverse(i, n);
  }

  /** A counter as displayed: `v !== undefined ? v : 0`. */
  function Shown(v: Option<int>): (r: int)
    ensures v.Some? ==> r == v.value
    ensures v.None? ==> r == 0
  {
    v.GetOr(0)
  }
}
