/**
 * The paged board of src/App4.tsx: a list of ten works at a time whose page
 * turns on one timer, and a current work, advanced on another timer, whose
 * deadline drives the countdown line. Neither timer guards against an empty
 * list, so both indices are JavaScript numbers that can become NaN. A timer
 * firing is a call to `TickItem` or `TickPage`.
 */
module Paging {
  import opened Wrappers
  import opened Slices
  import opened Works
  import opened Deadline

  /** A JavaScript number used as an index: a whole number, or NaN. */
  datatype JsIndex = At(i: nat) | NaN

  const ItemsPerPage := 10

  /** `Math.ceil(n / ITEMS_PER_PAGE)`: the fewest pages that hold `n` works. */
  function PageCount(n: nat): (p: nat)
    ensures p * ItemsPerPage >= n
    ensures p > 0 ==> (p - 1) * ItemsPerPage < n
  {
    (n + ItemsPerPage - 1) / ItemsPerPage
  }

  /**
   * `(prev + 1) % n` on a JavaScript number. A modulus of zero gives NaN, and
   * NaN plus one, modulo anything, is NaN again.
   */
  function Advance(x: JsIndex, n: nat): (y: JsIndex)
    ensures y.At? <==> x.At? && n > 0
    ensures y.At? ==> y.i < n
    ensures y.At? && x.i + 1 < n ==> y.i == x.i + 1
    ensures y.At? && x.i + 1 == n ==> y.i == 0
  {
    match x
    case NaN => NaN
    case At(i) => if n == 0 then NaN else At((i + 1) % n)
  }

  /** The works on page `p`: `obras.slice(p * 10, (p + 1) * 10)`. */
  function PageAt(works: seq<Obra>, p: nat): (shown: seq<Obra>)
    ensures |shown| <= ItemsPerPage
    ensures p < PageCount(|works|) ==>
              p * ItemsPerPage < |works| && shown == works[p * ItemsPerPage..Min((p + 1) * ItemsPerPage, |works|)]
    ensures p >= PageCount(|works|) ==> shown == []
  {
    Slice(works, p * ItemsPerPage, (p + 1) * ItemsPerPage)
  }

  /** Pages 0 to k - 1, one after the other. */
  function Pages(works: seq<Obra>, k: nat): seq<Obra> {
    if k == 0 then [] else Pages(works, k - 1) + PageAt(works, k - 1)
  }

  lemma {:induction false} PagesArePrefix(works: seq<Obra>, k: nat)
    requires k <= PageCount(|works|)
    ensures Pages(works, k) == works[..Min(k * ItemsPerPage, |works|)]
  {
    if k > 0 {
      PagesArePrefix(works, k - 1);
      assert (k - 1) * ItemsPerPage < |works|;
    }
  }

  /**
   * The pages, read in order, give back the whole list: every work appears on
   * exactly one page, in its original position.
   */
  lemma PagesCoverAll(works: seq<Obra>)
    ensures Pages(works, PageCount(|works|)) == works
  {
    PagesArePrefix(works, PageCount(|works|));
  }

  /** The index names a position among `n`, or is the initial 0 of an empty list. */
  predicate InRange(x: JsIndex, n: nat) {
    x.At? ==> x.i < n || x.i == 0
  }

  class Board {
    var works: seq<Obra>
    var item: JsIndex
    var page: JsIndex

    ghost predicate Valid()
      reads this
    {
      InRange(item, |works|) && InRange(page, PageCount(|works|))
    }

    /** The board before the works are read: an empty list, both indices 0. */
    constructor ()
      ensures Valid() && works == [] && item == At(0) && page == At(0)
    {
      works, item, page := [], At(0), At(0);
    }

    /** The works are read from the bundled data, once, when the board is first shown. */
    method Load(loaded: seq<Obra>)
      requires Valid() && works == []
      modifies this
      ensures Valid() && works == loaded && item == old(item) && page == old(page)
    {
      works := loaded;
    }

    /** The 10-second timer: the next work becomes current; on an empty list the index becomes NaN. */
    method TickItem()
      requires Valid()
      modifies this
      ensures Valid() && works == old(works) && page == old(page)
      ensures item == Advance(old(item), |works|)
    {
      item := match item
        case NaN => NaN
        case At(i) => if |works| == 0 then NaN else At((i + 1) % |works|);
    }

    /** The 5-second timer: the next page is shown; with no pages the index becomes NaN. */
    method TickPage()
      requires Valid()
      modifies this
      ensures Valid() && works == old(works) && item == old(item)
      ensures page == Advance(old(page), PageCount(|works|))
    {
      var pages := (|works| + ItemsPerPage - 1) / ItemsPerPage;
      page := match page
        case NaN => NaN
        case At(p) => if pages == 0 then NaN else At((p + 1) % pages);
    }

    /**
     * The works listed on screen. A NaN page turns both slice bounds into
     * NaN, which `slice` reads as 0, so nothing is listed.
     */
    method ShownPage() returns (shown: seq<Obra>)
      requires Valid()
      ensures |shown| <= ItemsPerPage
      ensures page.NaN? ==> shown == []
      ensures page.At? ==> shown == PageAt(works, page.i)
      ensures page.At? && works != [] ==> shown != []
    {
      match page
      case NaN =>
        shown := Slice(works, 0, 0);
      case At(p) =>
        shown := Slice(works, p * ItemsPerPage, (p + 1) * ItemsPerPage);
    }

    /** `obras[indiceAtual]`: undefined for a NaN index or an empty list. */
    method CurrentWork() returns (current: Option<Obra>)
      requires Valid()
      ensures current.Some? <==> item.At? && works != []
      ensures current.Some? ==> current.value == works[item.i]
    {
      if item.At? && item.i < |works| {
        current := Some(works[item.i]);
      } else {
        current := None;
      }
    }

    /**
     * The countdown line. `daysTo` gives the whole days from now to a work's
     * deadline, or None when the deadline is not a valid date.
     */
    method Countdown(daysTo: Obra -> Option<int>) returns (line: string)
      requires Valid()
      ensures item.At? && works != [] ==> line == CountdownMessage(daysTo(works[item.i]))
      ensures !(item.At? && works != []) ==> line == ExpiredText
    {
      var current := CurrentWork();
      var days := if current.Some? then daysTo(current.value) else None;
      line := CountdownMessage(days);
    }
  }
}
