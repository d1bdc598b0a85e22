/** The navigation menu and the image carousel (JS/JScript.js): a position
    among `n` images moved one step forward or back with wrap-around, the
    horizontal offset the carousel is drawn at, and a hamburger button whose
    click toggles two class flags. */
module Carousel {

  /** JavaScript's `%`: the remainder of a division truncated toward zero, so
      it takes the sign of the dividend (Dafny's `%` never goes negative). */
  function JsRem(a: int, n: int): (r: int)
    requires n > 0
    ensures a >= 0 ==> 0 <= r < n
    ensures a <= 0 ==> -n < r <= 0
    ensures (a - r) % n == 0
  {
    if a >= 0 then
      var q := a / n;
      assert a == q * n + a % n;
      MultipleMod(q, n);
      assert a - a % n == q * n;
      a % n
    else
      var b := -a;
      var q := b / n;
      assert b == q * n + b % n;
      MultipleMod(-q, n);
      assert a + b % n == (-q) * n;
      -(b % n)
  }

  /** A multiple of `n` leaves no remainder. */
  lemma MultipleMod(k: int, n: int)
    requires n > 0
    ensures (k * n) % n == 0
  {
    var m := k * n;
    var q := m / n;
    var d := k - q;
    assert m == q * n + m % n;
    assert d * n == k * n - q * n;
    assert d >= 1 ==> d * n >= n;
    assert d <= -1 ==> d * n <= -n;
  }

  /** The position after the "next" button: `(index + 1) % images.length`. */
  function Next(index: int, n: int): (r: int)
    requires n > 0
    ensures 0 <= index < n ==> 0 <= r < n
  {
    JsRem(index + 1, n)
  }

  /** The position after the "prev" button:
      `(index - 1 + images.length) % images.length`. */
  function Prev(index: int, n: int): (r: int)
    requires n > 0
    ensures 0 <= index < n ==> 0 <= r < n
  {
    JsRem(index - 1 + n, n)
  }

  /** The horizontal offset, as a percentage of one image, that
      updateCarousel translates the strip by: a whole number of images,
      zero only on the first image, and never positive. */
  function Offset(index: int): (r: int)
    ensures r % 100 == 0
    ensures r == 0 <==> index == 0
    ensures index >= 0 ==> r <= 0
  {
    -index * 100
  }

  /** Both buttons keep the position among the images. */
  lemma StepsStayInRange(index: int, n: int)
    requires n > 0 && 0 <= index < n
    ensures 0 <= Next(index, n) < n
    ensures 0 <= Prev(index, n) < n
  {
  }

  /** "next" moves one image forward and wraps from the last to the first. */
  lemma NextStep(index: int, n: int)
    requires n > 0 && 0 <= index < n
    ensures Next(index, n) == if index == n - 1 then 0 else index + 1
  {
  }

  /** "prev" moves one image back and wraps from the first to the last. */
  lemma PrevStep(index: int, n: int)
    requires n > 0 && 0 <= index < n
    ensures Prev(index, n) == if index == 0 then n - 1 else index - 1
  {
  }

  /** "prev" undoes "next" and "next" undoes "prev". */
  lemma PrevUndoesNext(index: int, n: int)
    requires n > 0 && 0 <= index < n
    ensures Prev(Next(index, n), n) == index
    ensures Next(Prev(index, n), n) == index
  {
    NextStep(index, n);
    PrevStep(index, n);
    NextStep(Prev(index, n), n);
    PrevStep(Next(index, n), n);
  }

  /** The position after pressing "next" `k` times. */
  function NextTimes(index: int, n: int, k: nat): int
    requires n > 0
  {
    if k == 0 then index else Next(NextTimes(index, n, k - 1), n)
  }

  /** From a valid position, `k` presses of "next" land `k` images further
      on while that stays before the end, and wrap around to the start after
      passing the last image. */
  lemma {:induction false} NextTimesAdvance(index: int, n: int, k: nat)
    requires n > 0 && 0 <= index < n && k <= n
    ensures index + k < n ==> NextTimes(index, n, k) == index + k
    ensures index + k >= n ==> NextTimes(index, n, k) == index + k - n
  {
    if k > 0 {
      NextTimesAdvance(index, n, k - 1);
      NextStep(NextTimes(index, n, k - 1), n);
    }
  }

  /** Pressing "next" once per image comes back to the same image. */
  lemma NextFullCycle(index: int, n: int)
    requires n > 0 && 0 <= index < n
    ensures NextTimes(index, n, n) == index
  {
    NextTimesAdvance(index, n, n);
  }

  /** The offset of a valid position lies in (-100 n, 0]. */
  lemma OffsetRange(index: int, n: int)
    requires n > 0 && 0 <= index < n
    ensures -100 * n < Offset(index) <= 0
  {
  }

  /** The carousel: its number of images, the current position and the
      offset it was last drawn at. */
  class Carousel {
    const count: nat
    var index: int
    var offset: int

    /** The position is that of an image, and the drawn offset matches it. */
    ghost predicate Valid()
      reads this
    {
      count > 0 && 0 <= index < count && offset == Offset(index)
    }

    /** The page starts on the first image, not yet translated. */
    constructor (imageCount: nat)
      requires imageCount > 0
      ensures Valid() && count == imageCount && index == 0 && offset == 0
    {
      count := imageCount;
      index := 0;
      offset := 0;
    }

    /** updateCarousel: draw the strip at the current position. */
    method Update()
      modifies this`offset
      ensures offset == Offset(index)
    {
      offset := -index * 100;
    }

    /** The "next" button's click handler. */
    method ClickNext()
      requires Valid()
      modifies this`index, this`offset
      ensures Valid()
      ensures index == Next(old(index), count)
    {
      StepsStayInRange(index, count);
      index := (index + 1) % count;
      Update();
    }

    /** The "prev" button's click handler. */
    method ClickPrev()
      requires Valid()
      modifies this`index, this`offset
      ensures Valid()
      ensures index == Prev(old(index), count)
    {
      StepsStayInRange(index, count);
      index := (index - 1 + count) % count;
      Update();
    }
  }

  /** The two class flags the hamburger click toggles: `active` on the
      button and `open` on the navigation menu. */
  datatype MenuState = MenuState(active: bool, open: bool)

  /** One click: both flags flip. */
  function Toggled(s: MenuState): (r: MenuState)
    ensures r.active != s.active && r.open != s.open
  {
    MenuState(!s.active, !s.open)
  }

  /** One click keeps the two flags equal when they were, and a second click
      restores the state. */
  lemma ToggleProperties(s: MenuState)
    ensures s.active == s.open ==> Toggled(s).active == Toggled(s).open
    ensures Toggled(Toggled(s)) == s
  {
  }

  /** The button and the menu whose classes the click handler toggles. */
  class HamburgerMenu {
    var active: bool
    var open: bool

    function State(): MenuState
      reads this
    {
      MenuState(active, open)
    }

    /** The page starts with the menu closed. */
    constructor ()
      ensures State() == MenuState(false, false)
    {
      active := false;
      open := false;
    }

    /** The hamburger's click handler. */
    method Click()
      modifies this
      ensures State() == Toggled(old(State()))
    {
      active := !active;
      open := !open;
    }
  }
}
