/**
 * The full-screen photo viewer: stepping to the previous and next photo
 * with wrap-around, the keys and mouse presses it answers, and when it
 * shows anything at all. JavaScript's `%` truncates toward zero and
 * gives `NaN` for a zero divisor; `None` stands for `NaN`.
 */
module ImageViewer {
  import opened Wrappers

  /** JavaScript's `a % b` on integers: the sign follows `a`; `NaN` when `b` is 0. */
  function JsRem(a: int, b: int): (r: Option<int>)
    ensures b == 0 <==> r.None?
    ensures r.Some? && a >= 0 && b > 0 ==> r.value == a % b
  {
    if b == 0 then None
    else
      var m := if b < 0 then -b else b;
      if a >= 0 then Some(a % m) else Some(-((-a) % m))
  }

  /** The left arrow: `(currentIndex - 1 + images.length) % images.length`. */
  function Previous(i: int, n: nat): Option<int>
  {
    JsRem(i - 1 + n, n)
  }

  /** The right arrow: `(currentIndex + 1) % images.length`. */
  function Next(i: int, n: nat): Option<int>
  {
    JsRem(i + 1, n)
  }

  /** A remainder below the divisor is the number itself. */
  lemma ModBelow(a: int, n: int)
    requires 0 <= a < n
    ensures a % n == a
  {
  }

  /** A remainder between one and two divisors wraps once. */
  lemma ModWrapOnce(a: int, n: int)
    requires 0 < n <= a < 2 * n
    ensures a % n == a - n
  {
    ModBelow(a - n, n);
  }

  /** From a position among n > 0 photos, both arrows land on a position, one step away with wrap-around. */
  lemma StepsWrapAround(i: int, n: nat)
    requires 0 <= i < n
    ensures Previous(i, n) == Some(if i == 0 then n - 1 else i - 1)
    ensures Next(i, n) == Some(if i == n - 1 then 0 else i + 1)
  {
    if i == 0 {
      ModBelow(i - 1 + n, n);
    } else {
      ModWrapOnce(i - 1 + n, n);
    }
    if i == n - 1 {
      ModWrapOnce(i + 1, n);
    } else {
      ModBelow(i + 1, n);
    }
  }

  /** Next undoes previous and previous undoes next. */
  lemma StepsAreInverse(i: int, n: nat)
    requires 0 <= i < n
    ensures Previous(i, n).Some? && Next(Previous(i, n).value, n) == Some(i)
    ensures Next(i, n).Some? && Previous(Next(i, n).value, n) == Some(i)
  {
    StepsWrapAround(i, n);
    var p := if i == 0 then n - 1 else i - 1;
    var q := if i == n - 1 then 0 else i + 1;
    StepsWrapAround(p, n);
    StepsWrapAround(q, n);
  }

  datatype Key = Escape | ArrowLeft | ArrowRight | OtherKey

  /** What a key press or a mouse press asks of the viewer's owner. */
  datatype KeyEffect = Close | IndexChange(index: Option<int>) | Ignored

  /**
   * The `keydown` handler: nothing while closed; Escape closes; the arrows
   * step back or forward; every other key is ignored.
   */
  function HandleKey(isOpen: bool, key: Key, i: int, n: nat): (e: KeyEffect)
    ensures !isOpen || key == OtherKey ==> e == Ignored
    ensures e == Close <==> isOpen && key == Escape
    ensures isOpen && key == ArrowLeft ==> e == IndexChange(Previous(i, n))
    ensures isOpen && key == ArrowRight ==> e == IndexChange(Next(i, n))
  {
    if !isOpen then Ignored
    else match key
      case Escape => Close
      case ArrowLeft => IndexChange(Previous(i, n))
      case ArrowRight => IndexChange(Next(i, n))
      case OtherKey => Ignored
  }

  /** What is drawn: nothing, the photo at the index with its `k / n` counter, or a failing render. */
  datatype View<T> = Hidden | Showing(image: T, position: nat, total: nat) | RenderFails

  /**
   * The render: nothing while closed or without photos; otherwise the photo
   * at the current index. An index outside the list reads `undefined`, and
   * reading its `url` throws.
   */
  function Render<T>(isOpen: bool, images: seq<T>, i: int): (v: View<T>)
    ensures v == Hidden <==> !isOpen || |images| == 0
    ensures v.Showing? ==> 0 <= i < |images| && v.image == images[i] && v.position == i + 1 && v.total == |images|
    ensures v == RenderFails <==> isOpen && |images| > 0 && !(0 <= i < |images|)
  {
    if !isOpen || |images| == 0 then Hidden
    else if 0 <= i < |images| then Showing(images[i], i + 1, |images|)
    else RenderFails
  }

  /**
   * Where a mouse button goes down: inside the photo container (the image
   * and its counter), on the close button or one of the arrow buttons drawn
   * beside the container, or on the dark backdrop.
   */
  datatype Target = InContainer | CloseButton | PreviousButton | NextButton | Backdrop

  /**
   * The document's `mousedown` handler: the container is mounted only while
   * a photo is drawn, and a press anywhere outside it closes the viewer.
   */
  function HandleMouseDown<T>(isOpen: bool, images: seq<T>, i: int, target: Target): (e: KeyEffect)
    ensures e == Close <==> Render(isOpen, images, i).Showing? && target != InContainer
    ensures e != Close ==> e == Ignored
  {
    if Render(isOpen, images, i).Showing? && target != InContainer then Close else Ignored
  }

  /**
   * The arrow buttons are outside the container, so pressing one with the
   * mouse closes the viewer, while the arrow keys step through the photos.
   */
  lemma ArrowButtonsPressClose<T>(images: seq<T>, i: int)
    requires Render(true, images, i).Showing?
    ensures HandleMouseDown(true, images, i, PreviousButton) == Close
    ensures HandleMouseDown(true, images, i, NextButton) == Close
    ensures HandleKey(true, ArrowLeft, i, |images|).IndexChange?
    ensures HandleMouseDown(true, images, i, InContainer) == Ignored
  {
  }

  /** Once a photo is on screen, the arrows always lead to another photo on screen, never to a failing render. */
  lemma ArrowsKeepShowing<T>(images: seq<T>, i: int, key: Key)
    requires Render(true, images, i).Showing?
    requires key == ArrowLeft || key == ArrowRight
    ensures var e := HandleKey(true, key, i, |images|);
      e.IndexChange? && e.index.Some? && Render(true, images, e.index.value).Showing?
  {
    StepsWrapAround(i, |images|);
  }
}
