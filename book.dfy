/**
 * The document as the viewer queries it. The book model that answers these
 * queries is not part of this model: every query is a total function of the
 * page index, supplied as data.
 */
module Book {

  datatype Side = Left | Right

  datatype Book = Book(
    numLeafs: nat,
    /** `getPageSide(index)`: 'L' or 'R'. */
    side: int -> Side,
    /** Intrinsic page width and height in pixels. */
    width: int -> int,
    height: int -> int,
    /** `getPage(index).isViewable`. */
    viewable: int -> bool,
    /** `getPage(index).unviewablesStart`: the first page of the unviewable run holding the page. */
    unviewablesStart: int -> int,
    /** `getPage(index).findNext({combineConsecutiveUnviewables: true}).index`: the page after the run. */
    nextAfterRun: int -> int)

  predicate InRange(b: Book, index: int) {
    0 <= index < b.numLeafs
  }

  /** A page a jump may land on: viewable, or the first page of its unviewable run. */
  predicate Settled(b: Book, index: int) {
    b.viewable(index) || b.unviewablesStart(index) == index
  }

  /**
   * What the viewer relies on from the book model: pages have a positive width,
   * and both the start of an unviewable run and the page after it are pages a
   * jump may land on.
   */
  ghost predicate WellFormed(b: Book) {
    && (forall i :: 0 <= i < b.numLeafs ==> b.width(i) > 0)
    && (forall i :: !Settled(b, i) ==> Settled(b, b.unviewablesStart(i)) && Settled(b, b.nextAfterRun(i)))
  }
}

/** The numeric view-mode constants and JavaScript's two empty values. */
module Modes {

  const Mode1Up := 1
  const Mode2Up := 2
  const ModeThumb := 3

  /** A mode-valued property: `null`, `undefined` or a number. */
  datatype JsMode = Null | Undefined | Num(code: int)

  predicate IsReadMode(code: int) {
    code == Mode1Up || code == Mode2Up
  }
}
