/**
 * The viewer's state machine: the view mode and the mode to return to, the
 * current page and the events its changes emit, navigation, jumps, the
 * thumbnail column count and grid redraw, and the cache of two-page
 * containers.
 *
 * The browser, the image cache and the one- and two-page view code are not
 * part of this model: what they compute (reduction factors, the two visible
 * pages of a spread, the page order of the book) arrives as arguments or
 * fields, and their effects on the screen are described by return values.
 */
module Viewer {
  import opened Js
  import opened Book
  import opened Modes
  import opened Reduction
  import opened ThumbnailLayout
  import Fragment

  /** What a navigation command asks for. */
  datatype Action = Stay | JumpTo(index: int) | FlipBack | FlipForward

  /** What `jumpToIndex` does once the target is settled. */
  datatype Jump =
    | FlipBackTo(target: int)      // two-page view, target before the spread
    | FlipForwardTo(target: int)   // two-page view, target after the spread
    | AlreadyShown                 // two-page view, target in the spread
    | ScrollThumbs(target: int)    // thumbnail view: current page set, grid scrolled
    | RedrawThumbs(target: int)    // thumbnail view: current page set, view already at its row, grid redrawn now
    | ScrollPage(target: int)      // one-page view: scrolled to the page

  /** The events `updateFirstIndex` emits. */
  function IndexEvents(oldIndex: int, index: int, suppress: bool, globalSuppress: bool): (e: seq<string>)
    ensures |e| >= 1 && e[|e| - 1] == "pageChanged"
    ensures "fragmentChange" in e <==> !(globalSuppress || suppress || oldIndex == index)
  {
    (if !(globalSuppress || suppress || oldIndex == index) then ["fragmentChange"] else []) + ["pageChanged"]
  }

  /** The column count `zoomThumb` leaves: -1 adds a column, 1 removes one, clamped to [2, 8]. */
  function NextColumns(columns: int, direction: int): (r: int)
    ensures 2 <= r <= 8
    ensures 2 <= columns <= 8 ==>
              r == if direction == -1 then Clamp(columns + 1, 2, 8)
                   else if direction == 1 then Clamp(columns - 1, 2, 8)
                   else columns
  {
    var c := if direction == -1 then columns + 1 else if direction == 1 then columns - 1 else columns;
    if c < 2 then 2 else if c > 8 then 8 else c
  }

  /** Zooming out then in returns to the same column count, away from the bounds. */
  lemma ZoomRoundTrip(columns: int)
    requires 2 <= columns < 8
    ensures NextColumns(NextColumns(columns, -1), 1) == columns
  {
  }

  class BookReader {
    const book: Book
    /** `pageProgression == 'rl'`. */
    const rightToLeft: bool
    const thumbPadding: int
    const thumbRowBuffer: int
    /** `options.initialSearchTerm` is set. */
    const initialSearchTerm: bool

    var initComplete: bool
    var mode: JsMode
    var prevReadMode: JsMode
    var firstIndex: int
    var reduce: real
    var pageScale: real
    var suppressFragmentChange: bool
    var thumbColumns: int
    var thumbWidth: int
    var displayedRows: set<int>
    /** The pages the one- or two-page view has on screen. */
    var displayedIndices: seq<int>
    /** The two pages of the current spread (`twoPage.currentIndexL/R`). */
    var currentIndexL: int
    var currentIndexR: int
    /** `prefetchedImgs`: page index to the reduce its container was made at. */
    var prefetchedImgs: map<int, real>
    /** The thumbnail page containers in the page view. */
    var shownPages: set<int>
    /** The events triggered, oldest first. */
    var events: seq<string>

    /**
     * The state the constructor sets up, together with the two fields the
     * start of `init` sets before it reads the parameters: `pageScale`
     * copies the reduce there, and `initComplete` is cleared there. In the
     * source `initComplete` is a property of the shared `init` function
     * (`this.init.initComplete`), so all viewers on a page share it; the
     * model keeps it per viewer.
     */
    constructor(book: Book, rightToLeft: bool, thumbPadding: int, thumbRowBuffer: int, thumbColumns: int,
                initialSearchTerm: bool)
      ensures this.book == book && this.rightToLeft == rightToLeft
      ensures this.thumbPadding == thumbPadding && this.thumbRowBuffer == thumbRowBuffer
      ensures this.thumbColumns == thumbColumns && this.initialSearchTerm == initialSearchTerm
      ensures !initComplete && mode == Null && prevReadMode == Null && firstIndex == 0
      ensures reduce == 8.0 && pageScale == 8.0 && !suppressFragmentChange && thumbWidth == 100
      ensures displayedRows == {} && displayedIndices == [] && prefetchedImgs == map[]
      ensures shownPages == {} && events == []
    {
      this.book := book;
      this.rightToLeft := rightToLeft;
      this.thumbPadding := thumbPadding;
      this.thumbRowBuffer := thumbRowBuffer;
      this.thumbColumns := thumbColumns;
      this.initialSearchTerm := initialSearchTerm;
      initComplete := false;
      mode := Null;
      prevReadMode := Null;
      firstIndex := 0;
      reduce := 8.0;
      pageScale := 8.0;
      suppressFragmentChange := false;
      thumbWidth := 100;
      displayedRows := {};
      displayedIndices := [];
      currentIndexL := 0;
      currentIndexR := 0;
      prefetchedImgs := map[];
      shownPages := {};
      events := [];
    }

    // -------------------------------------------------------------------
    // Modes

    /** `canSwitchToMode`: the two-page and thumbnail views need at least two leaves. */
    predicate CanSwitchToMode(m: int) {
      (m == Mode2Up || m == ModeThumb) ==> book.numLeafs >= 2
    }

    /**
     * `getInitialMode`: the mode the parameters ask for, else one-page on a
     * narrow full-screen mobile view and two-page otherwise, falling back to
     * one-page when the choice is not possible.
     */
    function InitialMode(paramsMode: Option<int>, narrowFullscreen: bool): (m: int)
      ensures CanSwitchToMode(m)
      ensures paramsMode.Some? && CanSwitchToMode(paramsMode.value) ==> m == paramsMode.value
      ensures !(paramsMode.Some? && CanSwitchToMode(paramsMode.value)) ==> IsReadMode(m)
      ensures paramsMode.None? && !narrowFullscreen && book.numLeafs >= 2 ==> m == Mode2Up
      ensures paramsMode.None? && narrowFullscreen ==> m == Mode1Up
      ensures paramsMode.Some? && !CanSwitchToMode(paramsMode.value) ==> m == Mode1Up
    {
      var next := if paramsMode.Some? then paramsMode.value else if narrowFullscreen then Mode1Up else Mode2Up;
      if !CanSwitchToMode(next) then Mode1Up else next
    }

    /**
     * `getPrevReadMode`: a reading mode is kept; from any other mode, one-page
     * when no reading mode was ever left, and `undefined` otherwise.
     */
    function PrevReadMode(m: JsMode): (r: JsMode)
      reads this
      ensures m.Num? && IsReadMode(m.code) ==> r == m
      ensures r.Num? ==> IsReadMode(r.code)
      ensures r == Undefined <==> !(m.Num? && IsReadMode(m.code)) && prevReadMode != Null
    {
      if m == Num(Mode1Up) || m == Num(Mode2Up) then m
      else if prevReadMode == Null then Num(Mode1Up)
      else Undefined
    }

    predicate KnownMode() reads this {
      mode == Num(Mode1Up) || mode == Num(Mode2Up) || mode == Num(ModeThumb)
    }

    /**
     * `switchMode` up to the view set-up: after `init`, switching to the
     * current mode or to one the book cannot show does nothing; otherwise
     * the reading mode is remembered, the mode set, the reduce chosen for
     * the new view, and the mode change announced.
     */
    method SwitchMode(newMode: int, suppress: bool, onePageFactors: seq<ReductionFactor>,
                      twoPageReduce: real, pageViewWidth: real)
      requires |onePageFactors| > 0
      modifies this`events, this`prevReadMode, this`mode, this`reduce, this`thumbWidth, this`displayedRows,
               this`shownPages
      ensures old(initComplete) && (Num(newMode) == old(mode) || !CanSwitchToMode(newMode)) ==>
                && mode == old(mode) && prevReadMode == old(prevReadMode) && reduce == old(reduce)
                && events == old(events) && displayedRows == old(displayedRows) && shownPages == old(shownPages)
                && thumbWidth == old(thumbWidth)
      ensures !(old(initComplete) && (Num(newMode) == old(mode) || !CanSwitchToMode(newMode))) ==>
                && prevReadMode == old(PrevReadMode(mode))
                && mode == Num(newMode)
                && events == old(events) + ["stop"]
                             + (if old(suppressFragmentChange) || suppress then [] else ["fragmentChange"])
                             + [Fragment.NumberText(newMode) + "PageViewSelected"]
                && ViewSetUp(newMode, old(pageScale), onePageFactors, twoPageReduce, pageViewWidth,
                             old(thumbColumns), old(reduce), old(thumbWidth), old(displayedRows), old(shownPages))
    {
      if initComplete {
        if Num(newMode) == mode {
          return;
        }
        if !CanSwitchToMode(newMode) {
          return;
        }
      }
      events := events + ["stop"];
      prevReadMode := PrevReadMode(mode);
      mode := Num(newMode);
      SetUpView(newMode, onePageFactors, twoPageReduce, pageViewWidth);
      if !suppressFragmentChange && !suppress {
        events := events + ["fragmentChange"];
      }
      events := events + [Fragment.NumberText(newMode) + "PageViewSelected"];
    }

    /**
     * The view-dependent part of a mode switch: the one-page view quantizes
     * the scale to its reduction factors, the thumbnail view is prepared,
     * and the two-page view takes the reduce its own calculation gives.
     */
    ghost predicate ViewSetUp(newMode: int, scale: real, onePageFactors: seq<ReductionFactor>, twoPageReduce: real,
                              pageViewWidth: real, columns: int, reduce0: real, thumbWidth0: int,
                              displayedRows0: set<int>, shownPages0: set<int>)
      reads this`reduce, this`thumbWidth, this`displayedRows, this`shownPages
    {
      && (newMode == Mode1Up ==>
            exists k :: IsFirstNearest(scale, onePageFactors, k) && reduce == onePageFactors[k].reduce)
      && (newMode == ModeThumb ==>
            && thumbWidth == ThumbnailWidth(pageViewWidth, columns, thumbPadding as real)
            && reduce == book.width(0) as real / thumbWidth as real
            && displayedRows == {} && shownPages == {})
      && (newMode != Mode1Up && newMode != ModeThumb ==> reduce == twoPageReduce)
      && (newMode != ModeThumb ==>
            displayedRows == displayedRows0 && shownPages == shownPages0 && thumbWidth == thumbWidth0)
    }

    method SetUpView(newMode: int, onePageFactors: seq<ReductionFactor>, twoPageReduce: real, pageViewWidth: real)
      requires |onePageFactors| > 0
      modifies this`reduce, this`thumbWidth, this`displayedRows, this`shownPages
      ensures ViewSetUp(newMode, pageScale, onePageFactors, twoPageReduce, pageViewWidth, thumbColumns,
                        old(reduce), old(thumbWidth), old(displayedRows), old(shownPages))
    {
      if pageScale != reduce {
        reduce := pageScale;
      }
      if newMode == Mode1Up {
        reduce := QuantizeReduce(reduce, onePageFactors);
      } else if newMode == ModeThumb {
        PrepareThumbnailView(pageViewWidth);
      } else {
        reduce := twoPageReduce;
      }
    }

    /**
     * `prepareThumbnailView` without the page-view markup: the thumbnail
     * width for the column count, the reduce that width implies, and an
     * empty grid (the redraw that follows is `DrawLeafsThumbnail`).
     */
    method PrepareThumbnailView(pageViewWidth: real)
      modifies this`thumbWidth, this`reduce, this`displayedRows, this`shownPages
      ensures thumbWidth == ThumbnailWidth(pageViewWidth, thumbColumns, thumbPadding as real)
      ensures thumbWidth > 0 && reduce == book.width(0) as real / thumbWidth as real
      ensures displayedRows == {} && shownPages == {}
    {
      thumbWidth := ThumbnailWidth(pageViewWidth, thumbColumns, thumbPadding as real);
      reduce := book.width(0) as real / thumbWidth as real;
      displayedRows := {};
      shownPages := {};
    }

    /**
     * `zoomThumb`: -1 adds a column, 1 removes one, the count is clamped to
     * [2, 8], and the view is prepared again exactly when the count changed.
     */
    method ZoomThumb(direction: int, pageViewWidth: real)
      modifies this`thumbColumns, this`thumbWidth, this`reduce, this`displayedRows, this`shownPages
      ensures thumbColumns == NextColumns(old(thumbColumns), direction)
      ensures thumbColumns != old(thumbColumns) ==>
                && thumbWidth == ThumbnailWidth(pageViewWidth, thumbColumns, thumbPadding as real)
                && reduce == book.width(0) as real / thumbWidth as real
                && displayedRows == {} && shownPages == {}
      ensures thumbColumns == old(thumbColumns) ==>
                && thumbWidth == old(thumbWidth) && reduce == old(reduce)
                && displayedRows == old(displayedRows) && shownPages == old(shownPages)
    {
      var oldColumns := thumbColumns;
      if direction == -1 {
        thumbColumns := thumbColumns + 1;
      } else if direction == 1 {
        thumbColumns := thumbColumns - 1;
      }
      if thumbColumns < 2 {
        thumbColumns := 2;
      } else if thumbColumns > 8 {
        thumbColumns := 8;
      }
      if thumbColumns != oldColumns {
        PrepareThumbnailView(pageViewWidth);
      }
    }

    // -------------------------------------------------------------------
    // The current page

    /**
     * `currentIndex`: the first index in the one-page and thumbnail views,
     * clamped to the book in the two-page view; any other mode throws.
     */
    function CurrentIndex(): (r: Result<int>)
      reads this
      ensures r.Throws? <==> !KnownMode()
      ensures mode == Num(Mode1Up) || mode == Num(ModeThumb) ==> r == Ok(firstIndex)
      ensures mode == Num(Mode2Up) && book.numLeafs > 0 ==>
                && 0 <= r.value < book.numLeafs
                && (0 <= firstIndex < book.numLeafs ==> r.value == firstIndex)
                && r.value == if firstIndex < 0 then 0 else if firstIndex >= book.numLeafs then book.numLeafs - 1 else firstIndex
    {
      if mode == Num(Mode1Up) || mode == Num(ModeThumb) then Ok(firstIndex)
      else if mode == Num(Mode2Up) then Ok(Clamp(firstIndex, 0, book.numLeafs - 1))
      else Throws("currentIndex called for unimplemented mode")
    }

    /**
     * `updateFirstIndex`: sets the first index; a fragment change is
     * announced unless suppressed or the index did not change; with an
     * initial search term an unsuppressed update ends the global
     * suppression; a page change is always announced.
     */
    method UpdateFirstIndex(index: int, suppress: bool)
      modifies this`firstIndex, this`events, this`suppressFragmentChange
      ensures firstIndex == index
      ensures events == old(events) + IndexEvents(old(firstIndex), index, suppress, old(suppressFragmentChange))
      ensures suppressFragmentChange ==
                if initialSearchTerm && !(suppress || old(firstIndex) == index) then false
                else old(suppressFragmentChange)
    {
      var localSuppress := suppress;
      if firstIndex == index {
        localSuppress := true;
      }
      firstIndex := index;
      if !(suppressFragmentChange || localSuppress) {
        events := events + ["fragmentChange"];
      }
      if initialSearchTerm && !localSuppress {
        suppressFragmentChange := false;
      }
      events := events + ["pageChanged"];
    }

    /** `firstDisplayableIndex`: 0, or -1 in the two-page view when page 0 is not on its leading side. */
    function FirstDisplayableIndex(): (i: int)
      reads this
      ensures i == 0 || i == -1
      ensures i == -1 <==> mode == Num(Mode2Up) && book.side(0) != (if rightToLeft then Side.Right else Side.Left)
    {
      if mode != Num(Mode2Up) then 0
      else if !rightToLeft then (if book.side(0) == Side.Left then 0 else -1)
      else (if book.side(0) == Side.Right then 0 else -1)
    }

    /** `lastDisplayableIndex`: the last page, or one past it in the two-page view when it is not on its trailing side. */
    function LastDisplayableIndex(): (i: int)
      reads this
      ensures i == book.numLeafs - 1 || i == book.numLeafs
      ensures i == book.numLeafs <==>
                mode == Num(Mode2Up) && book.side(book.numLeafs - 1) != (if rightToLeft then Side.Left else Side.Right)
    {
      var lastIndex := book.numLeafs - 1;
      if mode != Num(Mode2Up) then lastIndex
      else if !rightToLeft then (if book.side(lastIndex) == Side.Right then lastIndex else lastIndex + 1)
      else (if book.side(lastIndex) == Side.Left then lastIndex else lastIndex + 1)
    }

    /** The displayable range covers every page of the book. */
    lemma DisplayableCoversBook()
      ensures FirstDisplayableIndex() <= 0 && book.numLeafs - 1 <= LastDisplayableIndex()
      ensures LastDisplayableIndex() - FirstDisplayableIndex() <= book.numLeafs + 1
    {
    }

    // -------------------------------------------------------------------
    // Navigation

    /** `next`: a forward flip in the two-page view, else one page on if not at the last displayable page. */
    function Next(): (a: Action)
      reads this
      ensures a.JumpTo? ==> a.index == firstIndex + 1 && a.index <= LastDisplayableIndex()
      ensures a == Stay <==> mode != Num(Mode2Up) && firstIndex >= LastDisplayableIndex()
      ensures mode == Num(Mode2Up) ==> a == FlipForward
      ensures mode != Num(Mode2Up) && firstIndex < LastDisplayableIndex() ==> a == JumpTo(firstIndex + 1)
    {
      if mode == Num(Mode2Up) then FlipForward
      else if firstIndex < LastDisplayableIndex() then JumpTo(firstIndex + 1)
      else Stay
    }

    /** `prev`: nothing on the front page; a back flip in the two-page view, else one page back. */
    function Prev(): (a: Action)
      reads this
      ensures a.JumpTo? ==> a.index == firstIndex - 1 && a.index >= 0
      ensures a == Stay <==> firstIndex < 1
      ensures firstIndex >= 1 && mode == Num(Mode2Up) ==> a == FlipBack
      ensures firstIndex >= 1 && mode != Num(Mode2Up) ==> a == JumpTo(firstIndex - 1)
    {
      if firstIndex < 1 then Stay
      else if mode == Num(Mode2Up) then FlipBack
      else JumpTo(firstIndex - 1)
    }

    /** `first` and `last`: jumps to the two ends of the displayable range. */
    function First(): Action
      reads this
    {
      JumpTo(FirstDisplayableIndex())
    }

    function Last(): Action
      reads this
    {
      JumpTo(LastDisplayableIndex())
    }

    /** `right`, `left`, `rightmost`, `leftmost`: forwards is to the right unless the book reads right to left. */
    function Right(): Action reads this {
      if !rightToLeft then Next() else Prev()
    }

    function Left(): Action reads this {
      if !rightToLeft then Prev() else Next()
    }

    function Rightmost(): Action reads this {
      if !rightToLeft then Last() else First()
    }

    function Leftmost(): Action reads this {
      if !rightToLeft then First() else Last()
    }

    /**
     * The leftmost and rightmost commands go to the two displayable ends, the
     * leftmost one to the lower index exactly when the book reads left to
     * right; left and right are the two single steps, one on each side.
     */
    lemma EndsAndSteps()
      requires book.numLeafs >= 2
      ensures Leftmost().JumpTo? && Rightmost().JumpTo?
      ensures {Leftmost().index, Rightmost().index} == {FirstDisplayableIndex(), LastDisplayableIndex()}
      ensures !rightToLeft <==> Leftmost().index < Rightmost().index
      ensures Left().JumpTo? ==> (if rightToLeft then Left().index == firstIndex + 1 else Left().index == firstIndex - 1)
      ensures Right().JumpTo? ==> (if rightToLeft then Right().index == firstIndex - 1 else Right().index == firstIndex + 1)
    {
    }

    // -------------------------------------------------------------------
    // Jumps

    /** `_isIndexDisplayed`: the one-page view leaves out its first and last (cached) pages. */
    predicate IsIndexDisplayed(index: int)
      reads this
    {
      if mode == Num(Mode1Up) then
        |displayedIndices| >= 2 && index in displayedIndices[1..|displayedIndices| - 1]
      else index in displayedIndices
    }

    lemma IsIndexDisplayedExactly(index: int)
      ensures IsIndexDisplayed(index) <==>
                exists k :: (if mode == Num(Mode1Up) then 1 <= k < |displayedIndices| - 1 else 0 <= k < |displayedIndices|)
                            && displayedIndices[k] == index
    {
      if mode == Num(Mode1Up) && IsIndexDisplayed(index) {
        var d := displayedIndices[1..|displayedIndices| - 1];
        var j :| 0 <= j < |d| && d[j] == index;
        assert displayedIndices[j + 1] == index;
      }
      if mode == Num(Mode1Up) && !IsIndexDisplayed(index) {
        forall k | 1 <= k < |displayedIndices| - 1
          ensures displayedIndices[k] != index
        {
          assert displayedIndices[1..|displayedIndices| - 1][k - 1] == displayedIndices[k];
        }
      }
    }

    /**
     * The page a jump lands on: a page inside an unviewable run is replaced
     * by the start of the run, or by the page after the run when the start
     * is already on screen.
     */
    function JumpTarget(index: int): int
      reads this
    {
      if !book.viewable(index) && book.unviewablesStart(index) != index then
        (if IsIndexDisplayed(book.unviewablesStart(index)) then book.nextAfterRun(index) else book.unviewablesStart(index))
      else index
    }

    /** With a well-formed book, one retarget is enough: the target is a page a jump may land on. */
    lemma JumpTargetSettled(index: int)
      requires WellFormed(book)
      ensures Settled(book, JumpTarget(index))
      ensures Settled(book, index) ==> JumpTarget(index) == index
    {
    }

    /**
     * What `jumpToIndex` leaves behind for the settled target `t`, after its
     * stop event: in the two-page view a flip back or forward unless `t` is
     * in the spread; in the thumbnail view `t` becomes the first index,
     * through `updateFirstIndex`, and the grid is redrawn at once when the
     * view already sits at the target's row (`atRowTop`), otherwise scrolled
     * there; in the one-page view the page is scrolled to. The immediate
     * redraw is `DrawLeafsThumbnail`, which the caller runs on a
     * `RedrawThumbs` jump.
     */
    twostate predicate JumpedTo(t: int, atRowTop: bool, jump: Jump)
      reads this
    {
      && (old(mode) == Num(Mode2Up) ==>
            && jump == (if t < Min(currentIndexL, currentIndexR) then FlipBackTo(t)
                        else if t > Max(currentIndexL, currentIndexR) then FlipForwardTo(t)
                        else AlreadyShown)
            && events == old(events) + ["stop"] && firstIndex == old(firstIndex)
            && suppressFragmentChange == old(suppressFragmentChange))
      && (old(mode) == Num(ModeThumb) ==>
            && jump == (if atRowTop then RedrawThumbs(t) else ScrollThumbs(t)) && firstIndex == t
            && events == old(events) + ["stop"] + IndexEvents(old(firstIndex), t, false, old(suppressFragmentChange))
            && suppressFragmentChange == (if initialSearchTerm && old(firstIndex) != t then false
                                          else old(suppressFragmentChange)))
      && (old(mode) == Num(Mode1Up) ==>
            && jump == ScrollPage(t) && events == old(events) + ["stop"] && firstIndex == old(firstIndex)
            && suppressFragmentChange == old(suppressFragmentChange))
    }

    /**
     * `jumpToIndex` up to its scrolling: the target settled, a stop event,
     * then in the two-page view a flip back or forward unless the target is
     * in the spread; in the thumbnail view the target becomes the first
     * index, and the grid is redrawn now or scrolled to; in the one-page
     * view the page is scrolled to. `atRowTop` says whether the container's
     * scroll position is already the top of the target's row.
     */
    method JumpToIndex(index: int, atRowTop: bool) returns (jump: Jump)
      requires WellFormed(book) && KnownMode()
      modifies this`firstIndex, this`events, this`suppressFragmentChange
      ensures Settled(book, old(JumpTarget(index))) && JumpedTo(old(JumpTarget(index)), atRowTop, jump)
    {
      var t := JumpTarget(index);
      JumpTargetSettled(index);
      events := events + ["stop"];
      if mode == Num(Mode2Up) {
        if t < Min(currentIndexL, currentIndexR) {
          jump := FlipBackTo(t);
        } else if t > Max(currentIndexL, currentIndexR) {
          jump := FlipForwardTo(t);
        } else {
          jump := AlreadyShown;
        }
      } else if mode == Num(ModeThumb) {
        UpdateFirstIndex(t, false);
        if atRowTop {
          jump := RedrawThumbs(t);
        } else {
          jump := ScrollThumbs(t);
        }
      } else {
        jump := ScrollPage(t);
      }
    }

    /** `jumpToPage`: jumps when the book can read the page string as an index, and says whether it could. */
    method JumpToPage(pageNum: string, parsePageString: string -> Option<int>, atRowTop: bool)
      returns (found: bool, jump: Option<Jump>)
      requires WellFormed(book) && KnownMode()
      modifies this`firstIndex, this`events, this`suppressFragmentChange
      ensures found <==> parsePageString(pageNum).Some?
      ensures jump.Some? <==> found
      ensures !found ==> events == old(events) && firstIndex == old(firstIndex)
                         && suppressFragmentChange == old(suppressFragmentChange)
      ensures found ==> var t := old(JumpTarget(parsePageString(pageNum).value));
                        Settled(book, t) && JumpedTo(t, atRowTop, jump.value)
    {
      var pageIndex := parsePageString(pageNum);
      if pageIndex.Some? {
        var j := JumpToIndex(pageIndex.value, atRowTop);
        return true, Some(j);
      }
      return false, None;
    }

    // -------------------------------------------------------------------
    // The thumbnail grid

    /** The end of `drawLeafsThumbnail`: a current page outside the visible range moves to its nearer end. */
    method MoveIntoView(leastVisible: int, mostVisible: int)
      modifies this`firstIndex, this`events, this`suppressFragmentChange
      ensures Retarget(old(firstIndex), leastVisible, mostVisible).None? ==>
                firstIndex == old(firstIndex) && events == old(events)
                && suppressFragmentChange == old(suppressFragmentChange)
      ensures Retarget(old(firstIndex), leastVisible, mostVisible).Some? ==>
                var i := Retarget(old(firstIndex), leastVisible, mostVisible).value;
                && firstIndex == i
                && events == old(events) + IndexEvents(old(firstIndex), i, false, old(suppressFragmentChange))
                && suppressFragmentChange == (if initialSearchTerm && old(firstIndex) != i then false
                                              else old(suppressFragmentChange))
    {
      var currentIndex := firstIndex;
      if currentIndex < leastVisible {
        UpdateFirstIndex(leastVisible, false);
      } else if currentIndex > mostVisible {
        UpdateFirstIndex(mostVisible, false);
      }
    }

    /**
     * `drawLeafsThumbnail` without the markup: lay the grid out, build the
     * newly displayed rows and tear down the leaving ones, remember the
     * displayed rows, and move the current page into view. When the
     * containers on screen were those of the displayed rows and no page is
     * in two rows, they still are.
     */
    method DrawLeafsThumbnail(order: seq<int>, viewWidth: int, scrollTop: int, scrollBottom: int, pageViewBuffer: int)
      returns (leastVisible: int, mostVisible: int)
      requires mode == Num(ModeThumb)
      modifies this`displayedRows, this`shownPages, this`firstIndex, this`events, this`suppressFragmentChange
      ensures var m := BookGrid(book, old(thumbWidth), thumbPadding, order, viewWidth);
              var rows := VisibleRows(m, thumbPadding, scrollTop, scrollBottom);
              && RowsNonEmpty(m) && PresentRows(m, rows)
              && leastVisible == LeastFirst(m, rows, book.numLeafs - 1)
              && mostVisible == GreatestLast(m, rows, 0)
              && displayedRows == Elements(ToDisplay(rows, thumbRowBuffer, |m|))
      ensures var m := BookGrid(book, old(thumbWidth), thumbPadding, order, viewWidth);
              var built := PagesOf(m, displayedRows - old(displayedRows));
              shownPages == (old(shownPages) + built) - TearDown(m, old(displayedRows), displayedRows, built)
      ensures var m := BookGrid(book, old(thumbWidth), thumbPadding, order, viewWidth);
              UniquePages(m) && old(shownPages) == PagesOf(m, old(displayedRows)) ==> shownPages == PagesOf(m, displayedRows)
      ensures Retarget(old(firstIndex), leastVisible, mostVisible).None? ==>
                firstIndex == old(firstIndex) && events == old(events)
                && suppressFragmentChange == old(suppressFragmentChange)
      ensures Retarget(old(firstIndex), leastVisible, mostVisible).Some? ==>
                var i := Retarget(old(firstIndex), leastVisible, mostVisible).value;
                && firstIndex == i
                && events == old(events) + IndexEvents(old(firstIndex), i, false, old(suppressFragmentChange))
                && suppressFragmentChange == (if initialSearchTerm && old(firstIndex) != i then false
                                              else old(suppressFragmentChange))
    {
      var toDisplay, shown, least, most :=
        RedrawGrid(book, thumbWidth, thumbPadding, order, viewWidth, scrollTop, scrollBottom,
                   thumbRowBuffer, pageViewBuffer, rightToLeft, displayedRows, shownPages);
      displayedRows, shownPages := toDisplay, shown;
      MoveIntoView(least, most);
      leastVisible, mostVisible := least, most;
    }

    /**
     * After a draw of pages in increasing order with some row in view, the
     * current page is one of the visible range.
     */
    lemma DrawKeepsCurrentInView(order: seq<int>, viewWidth: int, scrollTop: int, scrollBottom: int, current: int)
      requires StrictlyIncreasing(order)
      requires |VisibleRows(BookGrid(book, thumbWidth, thumbPadding, order, viewWidth), thumbPadding, scrollTop, scrollBottom)| > 0
      ensures var m := BookGrid(book, thumbWidth, thumbPadding, order, viewWidth);
              var rows := VisibleRows(m, thumbPadding, scrollTop, scrollBottom);
              && RowsNonEmpty(m) && PresentRows(m, rows)
              && var least := LeastFirst(m, rows, book.numLeafs - 1);
                 var most := GreatestLast(m, rows, 0);
                 var after := match Retarget(current, least, most) case Some(i) => i case None => current;
                 least <= after <= most
    {
      var th := ThumbHeights(book, thumbWidth);
      var m := BookGrid(book, thumbWidth, thumbPadding, order, viewWidth);
      PackGridRowsNonEmpty(th, order, thumbWidth + thumbPadding, viewWidth);
      PackGridOrdered(th, order, thumbWidth + thumbPadding, viewWidth);
      VisibleRowsValid(m, thumbPadding, scrollTop, scrollBottom);
      VisibleSpan(m, VisibleRows(m, thumbPadding, scrollTop, scrollBottom), book.numLeafs, current);
    }

    // -------------------------------------------------------------------
    // The two-page container cache

    /** A cached container far from the spread and made at a coarser reduce than the current one. */
    predicate Stale(key: int, stored: real)
      reads this`currentIndexL, this`currentIndexR, this`reduce
    {
      StaleEntry(key, stored, currentIndexL, currentIndexR, reduce)
    }

    /**
     * `pruneUnusedImgs`: every container but the spread's two is detached
     * from the view, and exactly the stale entries are deleted from the
     * cache. `keys` is the order in which the cache's keys are enumerated.
     */
    method PruneUnusedImgs(keys: seq<int>) returns (detached: set<int>)
      requires forall k :: k in prefetchedImgs <==> k in keys
      requires forall i, j :: 0 <= i < j < |keys| ==> keys[i] != keys[j]
      modifies this`prefetchedImgs
      ensures forall k :: k in prefetchedImgs <==> k in old(prefetchedImgs) && !Stale(k, old(prefetchedImgs)[k])
      ensures forall k :: k in prefetchedImgs ==> prefetchedImgs[k] == old(prefetchedImgs)[k]
      ensures forall k :: k in detached <==> k in old(prefetchedImgs) && k != currentIndexL && k != currentIndexR
    {
      ghost var before := prefetchedImgs;
      detached := {};
      for i := 0 to |keys|
        invariant forall k :: k in prefetchedImgs <==>
                    k in before && (k !in keys[..i] || !StaleEntry(k, before[k], currentIndexL, currentIndexR, reduce))
        invariant forall k :: k in prefetchedImgs ==> prefetchedImgs[k] == before[k]
        invariant forall k :: k in detached <==> k in keys[..i] && k != currentIndexL && k != currentIndexR
      {
        var key := keys[i];
        assert key !in keys[..i];
        assert keys[..i + 1] == keys[..i] + [key];
        if key != currentIndexL && key != currentIndexR {
          detached := detached + {key};
        }
        if key < currentIndexL - 4 || key > currentIndexR + 4 {
          if prefetchedImgs[key] > reduce {
            prefetchedImgs := prefetchedImgs - {key};
          }
        }
      }
      assert keys[..|keys|] == keys;
    }

    /** Pruning never deletes the spread's own pages when they are at most four apart. */
    lemma PruneKeepsSpread(stored: real)
      requires -4 <= currentIndexR - currentIndexL <= 4
      ensures !Stale(currentIndexL, stored) && !Stale(currentIndexR, stored)
    {
    }

    /**
     * `prefetchImg` without the delayed request: a page of the spread, or
     * any page when asked to fetch now, gets a container at once, marked
     * empty when the index is outside the book; any other page changes
     * nothing now.
     */
    method PrefetchImg(index: int, fetchNow: bool, imageReduce: real) returns (registered: bool, emptyPage: bool)
      modifies this`prefetchedImgs
      ensures registered <==> fetchNow || index == currentIndexL || index == currentIndexR
      ensures registered ==> prefetchedImgs == old(prefetchedImgs)[index := imageReduce]
      ensures !registered ==> prefetchedImgs == old(prefetchedImgs)
      ensures emptyPage <==> registered && (index < 0 || index > book.numLeafs - 1)
    {
      var indexIsInView := index == currentIndexL || index == currentIndexR;
      if fetchNow || indexIsInView {
        emptyPage := index < 0 || index > book.numLeafs - 1;
        prefetchedImgs := prefetchedImgs[index := imageReduce];
        registered := true;
      } else {
        registered := false;
        emptyPage := false;
      }
    }
  }

  /**
   * The first half of `drawLeafsThumbnail`: pack the pages in the book's
   * order and find the rows in view and the pages they span.
   */
  method LayOutGrid(b: Book, thumbWidth: int, thumbPadding: int, order: seq<int>, viewWidth: int,
                    scrollTop: int, scrollBottom: int)
    returns (leafMap: LeafMap, rows: seq<int>, leastVisible: int, mostVisible: int)
    ensures leafMap == BookGrid(b, thumbWidth, thumbPadding, order, viewWidth) && RowsNonEmpty(leafMap)
    ensures rows == VisibleRows(leafMap, thumbPadding, scrollTop, scrollBottom) && PresentRows(leafMap, rows)
    ensures leastVisible == LeastFirst(leafMap, rows, b.numLeafs - 1)
    ensures mostVisible == GreatestLast(leafMap, rows, 0)
  {
    var bottomPos;
    leafMap, bottomPos := PackRows(b, order, thumbWidth, thumbPadding, viewWidth);
    PackGridRowsNonEmpty(ThumbHeights(b, thumbWidth), order, thumbWidth + thumbPadding, viewWidth);
    var placed;
    placed, rows, leastVisible, mostVisible := LocateRows(leafMap, thumbPadding, scrollTop, scrollBottom, b.numLeafs);
  }

  /**
   * The second half of `drawLeafsThumbnail`: add the buffer rows and list
   * the pages of the rows not displayed yet.
   */
  method DisplayRows(leafMap: LeafMap, rows: seq<int>, thumbRowBuffer: int, displayedRows: set<int>,
                     pageViewBuffer: int, rightToLeft: bool, viewWidth: int, thumbWidth: int, thumbPadding: int)
    returns (toDisplay: set<int>, built: set<int>)
    ensures toDisplay == Elements(ToDisplay(rows, thumbRowBuffer, |leafMap|))
    ensures built == PagesOf(leafMap, toDisplay - displayedRows)
  {
    var rowsToDisplay := BufferRows(rows, thumbRowBuffer, |leafMap|);
    var imagesToDisplay, _ :=
      MaterializeRows(leafMap, rowsToDisplay, displayedRows, pageViewBuffer, rightToLeft, viewWidth, thumbWidth, thumbPadding);
    FreshPagesSet(leafMap, rowsToDisplay, displayedRows);
    toDisplay := Elements(rowsToDisplay);
    built := Elements(imagesToDisplay);
  }

  /**
   * The state change of `drawLeafsThumbnail` on values: the rows to display
   * and the containers on screen afterwards, with the visible range.
   */
  method RedrawGrid(b: Book, thumbWidth: int, thumbPadding: int, order: seq<int>, viewWidth: int,
                    scrollTop: int, scrollBottom: int, thumbRowBuffer: int, pageViewBuffer: int, rightToLeft: bool,
                    displayedRows: set<int>, shownPages: set<int>)
    returns (toDisplay: set<int>, shown: set<int>, leastVisible: int, mostVisible: int)
    ensures var m := BookGrid(b, thumbWidth, thumbPadding, order, viewWidth);
            var rows := VisibleRows(m, thumbPadding, scrollTop, scrollBottom);
            && RowsNonEmpty(m) && PresentRows(m, rows)
            && leastVisible == LeastFirst(m, rows, b.numLeafs - 1)
            && mostVisible == GreatestLast(m, rows, 0)
            && toDisplay == Elements(ToDisplay(rows, thumbRowBuffer, |m|))
    ensures var m := BookGrid(b, thumbWidth, thumbPadding, order, viewWidth);
            var built := PagesOf(m, toDisplay - displayedRows);
            shown == (shownPages + built) - TearDown(m, displayedRows, toDisplay, built)
    ensures var m := BookGrid(b, thumbWidth, thumbPadding, order, viewWidth);
            UniquePages(m) && shownPages == PagesOf(m, displayedRows) ==> shown == PagesOf(m, toDisplay)
  {
    var leafMap, rows, least, most := LayOutGrid(b, thumbWidth, thumbPadding, order, viewWidth, scrollTop, scrollBottom);
    var built;
    toDisplay, built :=
      DisplayRows(leafMap, rows, thumbRowBuffer, displayedRows, pageViewBuffer, rightToLeft, viewWidth, thumbWidth, thumbPadding);
    shown := (shownPages + built) - TearDown(leafMap, displayedRows, toDisplay, built);
    if UniquePages(leafMap) && shownPages == PagesOf(leafMap, displayedRows) {
      ShownAfterDraw(leafMap, displayedRows, toDisplay);
    }
    leastVisible, mostVisible := least, most;
  }

  /**
   * A cached container `pruneUnusedImgs` is meant to delete: more than four
   * pages from the spread `indexL`, `indexR` and made at a coarser reduce
   * than the current one.
   */
  predicate StaleEntry(key: int, stored: real, indexL: int, indexR: int, reduce: real) {
    (key < indexL - 4 || key > indexR + 4) && stored > reduce
  }

  /**
   * The reduce `pruneUnusedImgs` reads, as written. `prefetchImg` stores the
   * reduce on the container element but caches the jQuery wrapper around
   * it, which has no `reduce` property, so the read is `undefined` whatever
   * reduce the container was made at.
   */
  function WrapperReduce(elementReduce: real): Option<real> {
    None
  }

  /** The deletion test as written: `undefined > reduce` is false. */
  predicate StaleAsWritten(key: int, wrapperReduce: Option<real>, indexL: int, indexR: int, reduce: real) {
    (key < indexL - 4 || key > indexR + 4) && wrapperReduce.Some? && wrapperReduce.value > reduce
  }

  /** The cache after `pruneUnusedImgs` as written: no entry is ever deleted. */
  function PruneAsWritten(cache: map<int, real>, indexL: int, indexR: int, reduce: real): (r: map<int, real>)
    ensures r == cache
  {
    map k | k in cache && !StaleAsWritten(k, WrapperReduce(cache[k]), indexL, indexR, reduce) :: cache[k]
  }

  /**
   * A container far from the spread at 10 and 11, made at reduce 16 while
   * the current reduce is 4, is stale, yet the prune as written keeps it.
   */
  lemma PruneAsWrittenKeepsStale()
    ensures StaleEntry(0, 16.0, 10, 11, 4.0)
    ensures 0 in PruneAsWritten(map[0 := 16.0], 10, 11, 4.0)
  {
  }

  function Min(a: int, b: int): int {
    if a < b then a else b
  }

}
