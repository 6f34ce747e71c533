/**
 * The lightbox viewer: the module variables `currentImageIndex` and
 * `currentImageArray`, the `active` class of the lightbox element, the
 * scroll lock on the document body and the `src` of the lightbox image;
 * and the transitions that change them.
 *
 * Each transition is first given as a function on a `ViewerState` value
 * (its specification); the class `Viewer` holds the same state in fields
 * and its methods are proved to follow those functions.
 */
module Lightbox {
  import Paths

  /**
   * `index` is `currentImageIndex`, `images` is `currentImageArray`,
   * `active` is the lightbox's `active` class, `scrollLocked` is
   * `document.body.style.overflow == 'hidden'`, `src` is `lightboxImg.src`.
   */
  datatype ViewerState = ViewerState(index: nat, images: seq<string>, active: bool, scrollLocked: bool, src: string)

  /** The state at page load: index 0, no active sequence, closed, unlocked. */
  function Initial(src: string): ViewerState
  {
    ViewerState(0, [], false, false, src)
  }

  /**
   * The viewer's invariant: the scroll lock is on exactly while the viewer is
   * open, and while it is open the index lies inside the active sequence and
   * the image shows the resolved path of the entry at that index.
   */
  predicate Invariant(s: ViewerState, enc: string -> string)
  {
    s.scrollLocked == s.active &&
    (s.active ==> s.index < |s.images| && s.src == Paths.EncodeFilePath(enc, s.images[s.index]))
  }

  /** True when `openLightbox(index, imageArray)` throws: `imageArray[index]` is undefined and `encodeFilePath` fails on it. */
  predicate OpenThrows(index: nat, imageArray: seq<string>)
  {
    index >= |imageArray|
  }

  /**
   * `openLightbox(index, imageArray)`. Index and sequence are assigned first;
   * when `imageArray[index]` does not exist the call throws there and the
   * image, the `active` class and the scroll lock are left as they were.
   */
  function OpenStep(s: ViewerState, enc: string -> string, index: nat, imageArray: seq<string>): ViewerState
  {
    if OpenThrows(index, imageArray) then s.(index := index, images := imageArray)
    else ViewerState(index, imageArray, true, true, Paths.EncodeFilePath(enc, imageArray[index]))
  }

  /** `closeLightbox()`: closed, unlocked, active sequence cleared; index and image untouched. */
  function CloseStep(s: ViewerState): ViewerState
  {
    s.(active := false, scrollLocked := false, images := [])
  }

  /** `showNextImage()`: one step forward with wrap-around; nothing when the sequence is empty. */
  function NextStep(s: ViewerState, enc: string -> string): ViewerState
  {
    if |s.images| > 0 then
      var i := (s.index + 1) % |s.images|;
      s.(index := i, src := Paths.EncodeFilePath(enc, s.images[i]))
    else s
  }

  /** `showPrevImage()`: one step back with wrap-around; nothing when the sequence is empty. */
  function PrevStep(s: ViewerState, enc: string -> string): ViewerState
  {
    if |s.images| > 0 then
      var i := (s.index - 1 + |s.images|) % |s.images|;
      s.(index := i, src := Paths.EncodeFilePath(enc, s.images[i]))
    else s
  }

  /** The `keydown` listener: only while open, Escape closes, ArrowRight is next, ArrowLeft is previous. */
  function KeyDownStep(s: ViewerState, enc: string -> string, key: string): ViewerState
  {
    if !s.active then s
    else if key == "Escape" then CloseStep(s)
    else if key == "ArrowRight" then NextStep(s, enc)
    else if key == "ArrowLeft" then PrevStep(s, enc)
    else s
  }

  /** The lightbox's own `click` listener: a click whose target is the backdrop itself closes. */
  function BackdropClickStep(s: ViewerState, targetIsBackdrop: bool): ViewerState
  {
    if targetIsBackdrop then CloseStep(s) else s
  }

  /** A series of key presses, dispatched one after another. */
  function KeyDowns(s: ViewerState, enc: string -> string, keys: seq<string>): ViewerState
    decreases |keys|
  {
    if keys == [] then s else KeyDowns(KeyDownStep(s, enc, keys[0]), enc, keys[1..])
  }

  /** A navigation button press: the next or the previous control. */
  datatype Nav = NextNav | PrevNav

  /** A series of navigation button presses. */
  function Navigate(s: ViewerState, enc: string -> string, navs: seq<Nav>): ViewerState
    decreases |navs|
  {
    if navs == [] then s
    else
      var t := if navs[0] == NextNav then NextStep(s, enc) else PrevStep(s, enc);
      Navigate(t, enc, navs[1..])
  }

  /** k presses of the next control in a row. */
  function NextTimes(s: ViewerState, enc: string -> string, k: nat): ViewerState
  {
    if k == 0 then s else NextStep(NextTimes(s, enc, k - 1), enc)
  }

  /** The page-load state satisfies the invariant. */
  lemma InitialInvariant(enc: string -> string, src: string)
    ensures Invariant(Initial(src), enc)
    ensures !Initial(src).active && Initial(src).images == []
  {
  }

  /**
   * Opening at an index inside the sequence shows that entry, opens and locks,
   * and establishes the invariant whatever the state before.
   */
  lemma OpenShowsEntry(s: ViewerState, enc: string -> string, index: nat, imageArray: seq<string>)
    requires index < |imageArray|
    ensures var t := OpenStep(s, enc, index, imageArray);
      Invariant(t, enc) && t.active && t.scrollLocked && t.index == index && t.images == imageArray &&
      t.src == Paths.EncodeFilePath(enc, imageArray[index])
  {
  }

  /** A throwing open on a closed viewer leaves it closed, unlocked and showing the same image. */
  lemma OpenThrowsWhileClosed(s: ViewerState, enc: string -> string, index: nat, imageArray: seq<string>)
    requires Invariant(s, enc) && !s.active
    requires OpenThrows(index, imageArray)
    ensures var t := OpenStep(s, enc, index, imageArray);
      Invariant(t, enc) && !t.active && !t.scrollLocked && t.src == s.src
  {
  }

  /** Closing always yields a valid, closed, unlocked state with no active sequence. */
  lemma CloseInvariant(s: ViewerState, enc: string -> string)
    ensures Invariant(CloseStep(s), enc)
    ensures !CloseStep(s).active && !CloseStep(s).scrollLocked && CloseStep(s).images == []
    ensures CloseStep(s).index == s.index
  {
  }

  /** Next keeps the index inside a non-empty sequence and shows the entry there. */
  lemma NextInRange(s: ViewerState, enc: string -> string)
    requires |s.images| > 0
    ensures var t := NextStep(s, enc);
      t.index < |s.images| && t.images == s.images && t.src == Paths.EncodeFilePath(enc, s.images[t.index]) &&
      t.active == s.active && t.scrollLocked == s.scrollLocked
  {
  }

  /** Previous keeps the index inside a non-empty sequence and shows the entry there. */
  lemma PrevInRange(s: ViewerState, enc: string -> string)
    requires |s.images| > 0
    ensures var t := PrevStep(s, enc);
      t.index < |s.images| && t.images == s.images && t.src == Paths.EncodeFilePath(enc, s.images[t.index]) &&
      t.active == s.active && t.scrollLocked == s.scrollLocked
  {
  }

  /** Next and previous preserve the invariant. */
  lemma NextPrevPreserveInvariant(s: ViewerState, enc: string -> string)
    requires Invariant(s, enc)
    ensures Invariant(NextStep(s, enc), enc) && Invariant(PrevStep(s, enc), enc)
  {
  }

  /** With an empty active sequence next and previous change nothing. */
  lemma EmptyNavigationIsNoOp(s: ViewerState, enc: string -> string)
    requires s.images == []
    ensures NextStep(s, enc) == s && PrevStep(s, enc) == s
  {
  }

  /** (q + 1) * n unfolds to q * n + n. */
  lemma MulSucc(q: int, n: int)
    ensures (q + 1) * n == q * n + n
  {
  }

  lemma MulMonotone(a: int, b: int, n: int)
    requires a <= b && 0 < n
    ensures a * n <= b * n
  {
  }

  /** Euclidean remainders are unique: x == q * n + r with 0 <= r < n fixes x % n. */
  lemma ModUnique(x: int, n: int, q: int, r: int)
    requires 0 < n && 0 <= r < n && x == q * n + r
    ensures x % n == r
  {
    var q', r' := x / n, x % n;
    assert x == q' * n + r';
    if q' < q {
      MulMonotone(q' + 1, q, n);
      MulSucc(q', n);
    } else if q < q' {
      MulMonotone(q + 1, q', n);
      MulSucc(q, n);
    }
  }

  /** One step forward from a residue is the residue of the successor. */
  lemma ModSucc(a: nat, n: nat)
    requires n > 0
    ensures (a % n + 1) % n == (a + 1) % n
  {
    var q, r := a / n, a % n;
    assert a == q * n + r;
    if r + 1 < n {
      ModUnique(a + 1, n, q, r + 1);
      ModUnique(r + 1, n, 0, r + 1);
    } else {
      MulSucc(q, n);
      ModUnique(a + 1, n, q + 1, 0);
      ModUnique(n, n, 1, 0);
    }
  }

  /** On indices of a sequence of length n >= 1, the previous index undoes the next one and vice versa. */
  lemma IndexStepsInverse(i: nat, n: nat)
    requires i < n
    ensures ((i + 1) % n - 1 + n) % n == i
    ensures ((i - 1 + n) % n + 1) % n == i
  {
    if i + 1 < n {
      ModUnique(i + 1, n, 0, i + 1);
      ModUnique(i + n, n, 1, i);
    } else {
      ModUnique(i + 1, n, 1, 0);
      ModUnique(n - 1, n, 0, i);
    }
    if i == 0 {
      ModUnique(n - 1, n, 0, n - 1);
      ModUnique(n, n, 1, 0);
    } else {
      ModUnique(i - 1 + n, n, 1, i - 1);
      ModUnique(i, n, 0, i);
    }
  }

  /** Within a sequence of length n >= 1, previous undoes next and next undoes previous. */
  lemma NextPrevInverse(s: ViewerState, enc: string -> string)
    requires s.index < |s.images|
    requires s.src == Paths.EncodeFilePath(enc, s.images[s.index])
    ensures PrevStep(NextStep(s, enc), enc) == s
    ensures NextStep(PrevStep(s, enc), enc) == s
  {
    IndexStepsInverse(s.index, |s.images|);
  }

  /** After k presses of next from index i the index is (i + k) mod n: navigation wraps around. */
  lemma {:induction false} NextTimesWraps(s: ViewerState, enc: string -> string, k: nat)
    requires s.index < |s.images|
    ensures NextTimes(s, enc, k).images == s.images
    ensures NextTimes(s, enc, k).index == (s.index + k) % |s.images|
    decreases k
  {
    if k > 0 {
      NextTimesWraps(s, enc, k - 1);
      ModSucc(s.index + k - 1, |s.images|);
    }
  }

  /** n presses of next on a sequence of length n come back to the starting index. */
  lemma FullCycle(s: ViewerState, enc: string -> string)
    requires s.index < |s.images|
    ensures NextTimes(s, enc, |s.images|).index == s.index
  {
    NextTimesWraps(s, enc, |s.images|);
    ModUnique(s.index + |s.images|, |s.images|, 1, s.index);
  }

  /** After a close, any presses of the navigation controls before another open change nothing. */
  lemma {:induction false} NavigateAfterCloseIsNoOp(s: ViewerState, enc: string -> string, navs: seq<Nav>)
    ensures Navigate(CloseStep(s), enc, navs) == CloseStep(s)
    decreases |navs|
  {
    if navs != [] {
      NavigateAfterCloseIsNoOp(s, enc, navs[1..]);
      assert NextStep(CloseStep(s), enc) == CloseStep(s) && PrevStep(CloseStep(s), enc) == CloseStep(s);
    }
  }

  /** While closed every key press is ignored, however many arrive. */
  lemma {:induction false} KeyDownsWhileClosedAreIgnored(s: ViewerState, enc: string -> string, keys: seq<string>)
    requires !s.active
    ensures KeyDowns(s, enc, keys) == s
    decreases |keys|
  {
    if keys != [] {
      KeyDownsWhileClosedAreIgnored(s, enc, keys[1..]);
    }
  }

  /** After Escape on an open viewer, later key presses change nothing: the state stays closed. */
  lemma EscapeThenKeysAreIgnored(s: ViewerState, enc: string -> string, keys: seq<string>)
    requires s.active
    ensures KeyDowns(s, enc, ["Escape"] + keys) == CloseStep(s)
  {
    assert (["Escape"] + keys)[0] == "Escape";
    assert (["Escape"] + keys)[1..] == keys;
    KeyDownsWhileClosedAreIgnored(CloseStep(s), enc, keys);
  }

  /**
   * While open, Escape closes, ArrowRight is next, ArrowLeft is previous and
   * every other key changes nothing.
   */
  lemma KeyDownWhileOpen(s: ViewerState, enc: string -> string, key: string)
    requires s.active
    ensures key == "Escape" ==> KeyDownStep(s, enc, key) == CloseStep(s)
    ensures key == "ArrowRight" ==> KeyDownStep(s, enc, key) == NextStep(s, enc)
    ensures key == "ArrowLeft" ==> KeyDownStep(s, enc, key) == PrevStep(s, enc)
    ensures key !in {"Escape", "ArrowRight", "ArrowLeft"} ==> KeyDownStep(s, enc, key) == s
  {
  }

  /** Key dispatch, backdrop clicks and any series of key presses preserve the invariant. */
  lemma {:induction false} KeyDownsPreserveInvariant(s: ViewerState, enc: string -> string, keys: seq<string>)
    requires Invariant(s, enc)
    ensures Invariant(KeyDowns(s, enc, keys), enc)
    decreases |keys|
  {
    if keys != [] {
      NextPrevPreserveInvariant(s, enc);
      KeyDownsPreserveInvariant(KeyDownStep(s, enc, keys[0]), enc, keys[1..]);
    }
  }

  /**
   * The viewer object: the same state as `ViewerState`, held in fields that
   * the transitions assign. `encodeSegment` is the per-segment encoder that
   * `encodeFilePath` applies.
   */
  class Viewer {
    const encodeSegment: string -> string
    var currentImageIndex: nat
    var currentImageArray: seq<string>
    var active: bool
    var scrollLocked: bool
    var src: string

    /** The abstract value of the fields. */
    function State(): ViewerState
      reads this
    {
      ViewerState(currentImageIndex, currentImageArray, active, scrollLocked, src)
    }

    predicate Valid()
      reads this
    {
      Invariant(State(), encodeSegment)
    }

    /** Page load: the module variables' initial values, the lightbox closed. */
    constructor (encodeSegment: string -> string, initialSrc: string)
      ensures this.encodeSegment == encodeSegment
      ensures State() == Initial(initialSrc)
      ensures Valid()
    {
      this.encodeSegment := encodeSegment;
      currentImageIndex := 0;
      currentImageArray := [];
      active := false;
      scrollLocked := false;
      src := initialSrc;
    }

    /** `openLightbox(index, imageArray)`; `threw` reports the exception at `imageArray[index]`. */
    method OpenLightbox(index: nat, imageArray: seq<string>) returns (threw: bool)
      modifies this
      ensures State() == OpenStep(old(State()), encodeSegment, index, imageArray)
      ensures threw == OpenThrows(index, imageArray)
      ensures !threw ==> Valid() && active && src == Paths.EncodeFilePath(encodeSegment, imageArray[index])
      ensures old(Valid()) && threw && !old(active) ==> Valid()
    {
      currentImageIndex := index;
      currentImageArray := imageArray;
      if index >= |imageArray| {
        threw := true;
        return;
      }
      src := Paths.EncodeFilePath(encodeSegment, imageArray[index]);
      active := true;
      scrollLocked := true;
      threw := false;
    }

    /** `closeLightbox()`. */
    method CloseLightbox()
      modifies this
      ensures State() == CloseStep(old(State()))
      ensures Valid()
    {
      active := false;
      scrollLocked := false;
      currentImageArray := [];
    }

    /** `showNextImage()`. */
    method ShowNextImage()
      modifies this
      ensures State() == NextStep(old(State()), encodeSegment)
      ensures old(Valid()) ==> Valid()
    {
      if |currentImageArray| > 0 {
        currentImageIndex := (currentImageIndex + 1) % |currentImageArray|;
        src := Paths.EncodeFilePath(encodeSegment, currentImageArray[currentImageIndex]);
      }
      if old(Valid()) {
        NextPrevPreserveInvariant(old(State()), encodeSegment);
      }
    }

    /** `showPrevImage()`. */
    method ShowPrevImage()
      modifies this
      ensures State() == PrevStep(old(State()), encodeSegment)
      ensures old(Valid()) ==> Valid()
    {
      if |currentImageArray| > 0 {
        currentImageIndex := (currentImageIndex - 1 + |currentImageArray|) % |currentImageArray|;
        src := Paths.EncodeFilePath(encodeSegment, currentImageArray[currentImageIndex]);
      }
      if old(Valid()) {
        NextPrevPreserveInvariant(old(State()), encodeSegment);
      }
    }

    /** The `keydown` listener on the document. */
    method KeyDown(key: string)
      modifies this
      ensures State() == KeyDownStep(old(State()), encodeSegment, key)
      ensures old(Valid()) ==> Valid()
    {
      if active {
        if key == "Escape" {
          CloseLightbox();
        } else if key == "ArrowRight" {
          ShowNextImage();
        } else if key == "ArrowLeft" {
          ShowPrevImage();
        }
      }
    }

    /** The lightbox's `click` listener: closes when the click's target is the backdrop itself. */
    method BackdropClick(targetIsBackdrop: bool)
      modifies this
      ensures State() == BackdropClickStep(old(State()), targetIsBackdrop)
      ensures old(Valid()) ==> Valid()
    {
      if targetIsBackdrop {
        CloseLightbox();
      }
    }
  }
}
