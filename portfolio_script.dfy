/** The decision rules inside the callbacks of script.js.
 *
 *  The page script is mostly browser and library glue. What it decides on its
 *  own is modelled here: how a statistic's text is split into the number to
 *  count up to and the text after it, the hue counter of the background, the
 *  staggered start times of the skill bars and hero elements, where an anchor
 *  link scrolls to, when the header turns solid and the scroll-to-top button
 *  shows, and which source a lazily loaded image ends up with.
 *
 *  Scroll positions are `real` (the browser reports fractional pixels), element
 *  offsets are `int`. Timers are represented by the delay they are scheduled
 *  with and the effect they will have; nothing here waits.
 */
module PortfolioScript {

  datatype Option<T> = None | Some(value: T)

  // ---------------------------------------------------------------------------
  // Stat labels (script.js:136-141)

  /** The character class `[\d.]`: an ASCII digit or a dot. */
  predicate IsNumericChar(c: char) {
    '0' <= c <= '9' || c == '.'
  }

  /** `text.replace(/[^\d.]/g, '')`: the text with everything but digits and
   *  dots removed. */
  function NumericPart(text: string): (num: string)
    ensures forall k :: 0 <= k < |num| ==> IsNumericChar(num[k])
  {
    if text == [] then []
    else
      (if IsNumericChar(text[0]) then [text[0]] else []) + NumericPart(text[1..])
  }

  /** `text.replace(/[\d.]/g, '')`: the text with every digit and dot
   *  removed. */
  function Suffix(text: string): (suffix: string)
    ensures forall k :: 0 <= k < |suffix| ==> !IsNumericChar(suffix[k])
  {
    if text == [] then []
    else
      (if IsNumericChar(text[0]) then [] else [text[0]]) + Suffix(text[1..])
  }

  /** Both parts keep the order of the text: splitting a concatenation gives
   *  the concatenation of the splits. */
  lemma {:induction false} SplitOfConcat(a: string, b: string)
    ensures NumericPart(a + b) == NumericPart(a) + NumericPart(b)
    ensures Suffix(a + b) == Suffix(a) + Suffix(b)
    decreases |a|
  {
    if a != [] {
      var ab := a + b;
      assert ab[0] == a[0] && ab[1..] == a[1..] + b;
      SplitOfConcat(a[1..], b);
      var n := if IsNumericChar(a[0]) then [a[0]] else [];
      var x := if IsNumericChar(a[0]) then [] else [a[0]];
      assert NumericPart(ab) == n + NumericPart(a[1..] + b);
      assert NumericPart(a) == n + NumericPart(a[1..]);
      assert Suffix(ab) == x + Suffix(a[1..] + b);
      assert Suffix(a) == x + Suffix(a[1..]);
    } else {
      assert a + b == b;
    }
  }

  /** Every character of the text lands in exactly one of the two parts. */
  lemma {:induction false} SplitPartitions(text: string)
    ensures |NumericPart(text)| + |Suffix(text)| == |text|
    ensures multiset(NumericPart(text)) + multiset(Suffix(text)) == multiset(text)
    decreases |text|
  {
    if text != [] {
      var rest := text[1..];
      SplitPartitions(rest);
      assert text == [text[0]] + rest;
      if IsNumericChar(text[0]) {
        assert NumericPart(text) == [text[0]] + NumericPart(rest);
        assert Suffix(text) == Suffix(rest);
      } else {
        assert NumericPart(text) == NumericPart(rest);
        assert Suffix(text) == [text[0]] + Suffix(rest);
      }
    }
  }

  /** The numeric part is empty exactly when the text holds no digit and no
   *  dot. */
  lemma {:induction false} NumericPartEmpty(text: string)
    ensures NumericPart(text) == [] <==> forall k :: 0 <= k < |text| ==> !IsNumericChar(text[k])
    decreases |text|
  {
    if text != [] {
      NumericPartEmpty(text[1..]);
      assert forall k :: 1 <= k < |text| ==> text[k] == text[1..][k - 1];
    }
  }

  /** What `animateCounter` is called with: count from `startValue` up to the
   *  number written in `target` over `durationMs`, showing `suffix` after it.
   *  Turning `target` into a number (`parseFloat`) is not modelled. */
  datatype CounterAnimation = CounterAnimation(startValue: int, target: string, suffix: string, durationMs: nat)

  const CounterDurationMs: nat := 2000

  /** The counter for one `.stat-number` element: started only when the text
   *  holds a digit or a dot. */
  function CounterFor(text: string): (anim: Option<CounterAnimation>)
    ensures anim.Some? <==> exists k :: 0 <= k < |text| && IsNumericChar(text[k])
    ensures anim.Some? ==> anim.value.startValue == 0 && anim.value.durationMs == 2000
    ensures anim.Some? ==> anim.value.target == NumericPart(text) && anim.value.suffix == Suffix(text)
  {
    NumericPartEmpty(text);
    var numericValue := NumericPart(text);
    if numericValue != [] then
      Some(CounterAnimation(0, numericValue, Suffix(text), CounterDurationMs))
    else None
  }

  // ---------------------------------------------------------------------------
  // Background hue (script.js:63-65)

  const HueCycle: int := 360

  /** One tick of the 100 ms interval. */
  function NextHue(hue: int): (next: int)
    requires 0 <= hue < HueCycle
    ensures 0 <= next < HueCycle
    ensures 0 <= hue < HueCycle - 1 ==> next == hue + 1
    ensures hue == HueCycle - 1 ==> next == 0
  {
    (hue + 1) % HueCycle
  }

  /** The hue after `ticks` ticks from 0: the number of ticks modulo 360. */
  function HueAfter(ticks: nat): (hue: int)
    ensures hue == ticks % HueCycle
  {
    if ticks == 0 then 0 else NextHue(HueAfter(ticks - 1))
  }

  /** The `hue` variable captured by the interval callback of `addColorShift`. */
  class ColorShift {
    var hue: int
    ghost var ticks: nat

    ghost predicate Valid()
      reads this
    {
      0 <= hue < HueCycle && hue == HueAfter(ticks)
    }

    constructor ()
      ensures Valid() && hue == 0 && ticks == 0
    {
      hue := 0;
      ticks := 0;
    }

    method Tick()
      requires Valid()
      modifies this
      ensures Valid() && ticks == old(ticks) + 1
      ensures hue == NextHue(old(hue))
    {
      hue := (hue + 1) % HueCycle;
      ticks := ticks + 1;
    }
  }

  // ---------------------------------------------------------------------------
  // Staggered start times (script.js:187-191, 440-447)

  const StaggerStepMs: nat := 200

  /** A timer set with `setTimeout(callback, delayMs)` whose callback applies
   *  `effect`. */
  datatype Timer<T> = Timer(delayMs: nat, effect: T)

  /** The `forEach((item, index) => setTimeout(..., index * 200))` pattern: the
   *  timers set for a list of items, in order. */
  method Stagger<T>(effects: seq<T>) returns (timers: seq<Timer<T>>)
    ensures |timers| == |effects|
    ensures forall i :: 0 <= i < |effects| ==>
      timers[i].effect == effects[i] && timers[i].delayMs == i * StaggerStepMs
    ensures |timers| > 0 ==> timers[0].delayMs == 0
    ensures forall i, j :: 0 <= i < j < |timers| ==> timers[i].delayMs < timers[j].delayMs
  {
    timers := [];
    for i := 0 to |effects|
      invariant |timers| == i
      invariant forall k :: 0 <= k < i ==> timers[k] == Timer(k * StaggerStepMs, effects[k])
    {
      timers := timers + [Timer(i * StaggerStepMs, effects[i])];
    }
  }

  /** `width + '%'` where `width` is the bar's `data-width` attribute; a missing
   *  attribute is `null`, which JavaScript writes as `null`. */
  function WidthStyle(dataWidth: Option<string>): (style: string)
    ensures |style| > 0 && style[|style| - 1] == '%'
    ensures dataWidth.Some? ==> style[..|style| - 1] == dataWidth.value
    ensures dataWidth.None? ==> style == "null%"
  {
    (if dataWidth.Some? then dataWidth.value else "null") + "%"
  }

  /** The skill bars of a section that came into view: bar `i` gets its width
   *  `i * 200` ms later. */
  method AnimateSkillBars(dataWidths: seq<Option<string>>) returns (timers: seq<Timer<string>>)
    ensures |timers| == |dataWidths|
    ensures forall i :: 0 <= i < |dataWidths| ==>
      timers[i] == Timer(i * StaggerStepMs, WidthStyle(dataWidths[i]))
    ensures forall i, j :: 0 <= i < j < |timers| ==> timers[i].delayMs < timers[j].delayMs
  {
    var widths := seq(|dataWidths|, i requires 0 <= i < |dataWidths| => WidthStyle(dataWidths[i]));
    timers := Stagger(widths);
  }

  /** The outer `setTimeout` of the load handler. */
  const HeroStartMs: nat := 100

  /** The hero elements after the page loaded: element `i` is shown `i * 200`
   *  ms after the outer 100 ms timer fired, so `100 + i * 200` ms after
   *  `load`. */
  method RevealHero<T>(elements: seq<T>) returns (timers: seq<Timer<T>>, sinceLoad: seq<nat>)
    ensures |timers| == |elements| == |sinceLoad|
    ensures forall i :: 0 <= i < |elements| ==>
      timers[i] == Timer(i * StaggerStepMs, elements[i]) &&
      sinceLoad[i] == HeroStartMs + timers[i].delayMs
    ensures |sinceLoad| > 0 ==> sinceLoad[0] == HeroStartMs
    ensures forall i, j :: 0 <= i < j < |sinceLoad| ==> sinceLoad[i] < sinceLoad[j]
  {
    timers := Stagger(elements);
    sinceLoad := seq(|timers|, i requires 0 <= i < |timers| => HeroStartMs + timers[i].delayMs);
  }

  // ---------------------------------------------------------------------------
  // Anchor links (script.js:97-101)

  /** The height of the fixed header that an anchor target must clear. */
  const HeaderOffset: int := 80

  /** Where a click on `<a href=...>` scrolls to. `page` maps each selector to
   *  the `offsetTop` of the first element it selects; `None` means nothing is
   *  scrolled. */
  function AnchorScrollTop(page: map<string, int>, href: string): (top: Option<int>)
    ensures top.Some? <==> href in page
    ensures top.Some? ==> page[href] - top.value == HeaderOffset
  {
    if href in page then Some(page[href] - HeaderOffset) else None
  }

  // ---------------------------------------------------------------------------
  // Scroll thresholds (script.js:115-121, 302-308)

  const HeaderSolidAfter: real := 50.0
  const ScrollTopShownAfter: real := 300.0

  /** The two looks of the header. */
  datatype HeaderLook = HeaderLook(background: string, boxShadow: string)

  const SolidHeader := HeaderLook("rgba(255, 255, 255, 0.98)", "0 2px 20px rgba(0, 0, 0, 0.1)")
  const ClearHeader := HeaderLook("rgba(255, 255, 255, 0.95)", "none")

  /** The header's look at a scroll position. */
  function HeaderLookAt(scrollY: real): (look: HeaderLook)
    ensures look == SolidHeader <==> scrollY > HeaderSolidAfter
    ensures look == ClearHeader <==> scrollY <= HeaderSolidAfter
  {
    if scrollY > HeaderSolidAfter then SolidHeader else ClearHeader
  }

  /** Scrolling further down never turns the header back to clear. */
  lemma HeaderLookMonotone(y1: real, y2: real)
    requires y1 <= y2 && HeaderLookAt(y1) == SolidHeader
    ensures HeaderLookAt(y2) == SolidHeader
  {
  }

  /** The `.minimal-header` element's inline style. */
  class Header {
    var background: string
    var boxShadow: string

    constructor (background: string, boxShadow: string)
      ensures this.background == background && this.boxShadow == boxShadow
    {
      this.background := background;
      this.boxShadow := boxShadow;
    }
  }

  /** The first scroll listener: styles the header when there is one. */
  method OnScrollHeader(header: Header?, scrollY: real)
    modifies header
    ensures header != null ==> HeaderLook(header.background, header.boxShadow) == HeaderLookAt(scrollY)
  {
    if header != null {
      var look := HeaderLookAt(scrollY);
      header.background := look.background;
      header.boxShadow := look.boxShadow;
    }
  }

  /** Whether the scroll-to-top button is shown at a scroll position. */
  datatype ButtonLook = ButtonLook(opacity: string, visibility: string)

  const ShownButton := ButtonLook("1", "visible")
  const HiddenButton := ButtonLook("0", "hidden")

  function ScrollTopButtonAt(pageYOffset: real): (look: ButtonLook)
    ensures look == ShownButton <==> pageYOffset > ScrollTopShownAfter
    ensures look == HiddenButton <==> pageYOffset <= ScrollTopShownAfter
  {
    if pageYOffset > ScrollTopShownAfter then ShownButton else HiddenButton
  }

  /** The button the script creates; its inline style starts hidden. */
  class ScrollTopButton {
    var opacity: string
    var visibility: string

    constructor ()
      ensures ButtonLook(opacity, visibility) == HiddenButton
    {
      opacity := "0";
      visibility := "hidden";
    }

    /** The third scroll listener. */
    method OnScroll(pageYOffset: real)
      modifies this
      ensures ButtonLook(opacity, visibility) == ScrollTopButtonAt(pageYOffset)
    {
      var look := ScrollTopButtonAt(pageYOffset);
      opacity := look.opacity;
      visibility := look.visibility;
    }
  }

  // ---------------------------------------------------------------------------
  // Lazy images (script.js:346-349)

  /** `img.dataset.src || img.src`: the `data-src` attribute unless it is
   *  missing or empty. */
  function LazySource(src: string, dataSrc: Option<string>): (chosen: string)
    ensures dataSrc.Some? && dataSrc.value != "" ==> chosen == dataSrc.value
    ensures dataSrc.None? || dataSrc.value == "" ==> chosen == src
  {
    if dataSrc.Some? && dataSrc.value != "" then dataSrc.value else src
  }

  /** Choosing the source again changes nothing. */
  lemma LazySourceIdempotent(src: string, dataSrc: Option<string>)
    ensures LazySource(LazySource(src, dataSrc), dataSrc) == LazySource(src, dataSrc)
  {
  }

  /** An observed image. */
  class LazyImage {
    var src: string
    var dataSrc: Option<string>
    var classes: set<string>
    var observed: bool

    constructor (src: string, dataSrc: Option<string>, classes: set<string>)
      ensures this.src == src && this.dataSrc == dataSrc && this.classes == classes && observed
    {
      this.src := src;
      this.dataSrc := dataSrc;
      this.classes := classes;
      observed := true;
    }

    /** The observer callback for an image that came into view. */
    method Reveal()
      modifies this
      ensures src == LazySource(old(src), old(dataSrc))
      ensures dataSrc == old(dataSrc)
      ensures classes == old(classes) - {"lazy"}
      ensures !observed
    {
      src := LazySource(src, dataSrc);
      classes := classes - {"lazy"};
      observed := false;
    }
  }
}
