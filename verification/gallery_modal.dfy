/** The image viewer of the diary gallery (`test_modal.js`): opening the
    modal on a clicked image and stepping through the gallery with wrap
    around.

    Gallery images are values of any type with equality (the page's
    elements); the modal's `src` and the console logging are left out.
 */
module GalleryModal {

  /** `Array.prototype.indexOf`: the first position of `x`, or -1. */
  function IndexOf<T(==)>(s: seq<T>, x: T): (r: int)
    ensures -1 <= r < |s|
    ensures r == -1 <==> x !in s
    ensures r >= 0 ==> s[r] == x && x !in s[..r]
  {
    if s == [] then -1
    else if s[0] == x then 0
    else
      var k := IndexOf(s[1..], x);
      if k == -1 then -1
      else
        assert s[..k + 1] == [s[0]] + s[1..][..k];
        k + 1
  }

  /** The gallery the viewer steps through and the current position. */
  datatype Viewer<T> = Viewer(images: seq<T>, index: int)

  /** `openImageModal`: when the modal exists, the viewer takes the
      gallery and the clicked image's position in it. */
  function Open<T(==)>(v: Viewer<T>, modalFound: bool, gallery: seq<T>, clicked: T): (r: Viewer<T>)
    ensures !modalFound ==> r == v
    ensures modalFound ==> r.images == gallery && r.index == IndexOf(gallery, clicked)
    ensures modalFound && clicked in gallery ==> 0 <= r.index < |gallery| && gallery[r.index] == clicked
  {
    if modalFound then Viewer(gallery, IndexOf(gallery, clicked)) else v
  }

  /** `navigateImage(direction)`. */
  function Navigate<T>(v: Viewer<T>, direction: int): (r: Viewer<T>)
    ensures v.images == [] ==> r == v
    ensures r.images == v.images
    ensures v.images != [] ==> 0 <= r.index < |v.images|
    ensures v.images != [] && 0 <= v.index + direction < |v.images| ==> r.index == v.index + direction
    ensures v.images != [] && v.index + direction >= |v.images| ==> r.index == 0
    ensures v.images != [] && v.index + direction < 0 ==> r.index == |v.images| - 1
  {
    if v.images == [] then v
    else
      var i := v.index + direction;
      if i >= |v.images| then v.(index := 0)
      else if i < 0 then v.(index := |v.images| - 1)
      else v.(index := i)
  }

  function Steps<T>(v: Viewer<T>, direction: int, n: nat): Viewer<T>
    decreases n
  {
    if n == 0 then v else Steps(Navigate(v, direction), direction, n - 1)
  }

  lemma {:induction false} StepsAdd<T>(v: Viewer<T>, direction: int, a: nat, b: nat)
    ensures Steps(v, direction, a + b) == Steps(Steps(v, direction, a), direction, b)
    decreases a
  {
    if a > 0 {
      StepsAdd(Navigate(v, direction), direction, a - 1, b);
    }
  }

  /** Stepping forward `n` times from an image with at least `n` after it
      lands `n` places further on. */
  lemma {:induction false} ForwardNoWrap<T>(v: Viewer<T>, n: nat)
    requires 0 <= v.index && v.index + n < |v.images|
    ensures Steps(v, 1, n) == v.(index := v.index + n)
    decreases n
  {
    if n > 0 {
      ForwardNoWrap(Navigate(v, 1), n - 1);
    }
  }

  /** A full round of forward steps returns to the image it started from. */
  lemma FullRound<T>(v: Viewer<T>)
    requires 0 <= v.index < |v.images|
    ensures Steps(v, 1, |v.images|) == v
  {
    var i := v.index;
    var ahead: nat := |v.images| - 1 - i;
    var first := v.(index := 0);
    var last := v.(index := |v.images| - 1);
    StepsAdd(v, 1, ahead, i + 1);
    assert ahead + (i + 1) == |v.images|;
    ForwardNoWrap(v, ahead);
    assert Navigate(last, 1) == first;
    assert Steps(last, 1, i + 1) == Steps(first, 1, i);
    ForwardNoWrap(first, i);
  }

  /** A step back undoes a step forward, wrapping included. */
  lemma BackUndoesForward<T>(v: Viewer<T>)
    requires 0 <= v.index < |v.images|
    ensures Navigate(Navigate(v, 1), -1) == v
  {
  }
}
