/** The scramble-text effect (components/HackerText.tsx).

    While the element is hovered, a 30 ms interval rewrites the displayed text:
    positions left of a reveal cursor show the true character, every other
    position a random symbol. The cursor grows by 1/3 per tick; here it is the
    integer tick count `k`, the cursor being k/3, so "index < cursor" reads
    `3 * i < k`. The random symbols are supplied as indices into the alphabet. */
module HackerText {

  /** The symbols shown over positions not yet revealed. */
  const Alphabet: string := "ABCDEFGHIJKLMNOPQRSTUVWXYZ#@$%&*0123456789"

  /** What `Math.floor(Math.random() * characters.length)` can yield. */
  type SymbolIndex = i: nat | i < 42

  /** How many leading positions are revealed at tick count `k`: ceil(k / 3). */
  function RevealedCount(k: nat): (r: nat)
    ensures k <= 3 * r < k + 3
  {
    (k + 2) / 3
  }

  /** Position `i` is revealed at tick count `k`: `i < k / 3`. The revealed
      positions are exactly the first RevealedCount(k). */
  function IsRevealed(i: nat, k: nat): (b: bool)
    ensures b <==> i < RevealedCount(k)
  {
    3 * i < k
  }

  /** `display` is what a tick at count `k` can have produced for `text`:
      revealed positions are the text, the others symbols of the alphabet. */
  ghost predicate Shows(display: string, text: string, k: nat) {
    |display| == |text|
    && (forall i :: 0 <= i < |text| && IsRevealed(i, k) ==> display[i] == text[i])
    && (forall i :: 0 <= i < |text| && !IsRevealed(i, k) ==> display[i] in Alphabet)
  }

  /** The updater of one tick: `prev.split("").map(...).join("")`, with
      `picks[i]` the random symbol drawn for position `i`. */
  function Scramble(text: string, prev: string, k: nat, picks: seq<SymbolIndex>): (r: string)
    requires |prev| == |text| && |picks| == |prev|
    ensures |r| == |prev|
    ensures Shows(r, text, k)
  {
    seq(|prev|, i requires 0 <= i < |prev| => if IsRevealed(i, k) then text[i] else Alphabet[picks[i]])
  }

  /** At the tick where the cursor reaches the text length, the text is shown exactly. */
  lemma ScrambleAtEnd(text: string, prev: string, picks: seq<SymbolIndex>)
    requires |prev| == |text| && |picks| == |prev|
    ensures Scramble(text, prev, 3 * |text|, picks) == text
  {
  }

  /** The revealed prefix never shrinks: whatever one tick revealed, every later
      tick shows again. */
  lemma RevealedPrefixGrows(text: string, d1: string, d2: string, k1: nat, k2: nat)
    requires k1 <= k2 && Shows(d1, text, k1) && Shows(d2, text, k2)
    ensures RevealedCount(k1) <= RevealedCount(k2)
    ensures forall i :: 0 <= i < |text| && IsRevealed(i, k1) ==> d2[i] == d1[i]
  {
  }

  /** The state of one mounted element. */
  class ScrambleState {
    /** The `text` prop. */
    const text: string
    /** `displayText`. */
    var display: string
    /** `isHovered`. */
    var hovered: bool
    /** `iterations`, counted in thirds: the cursor is iterations / 3. */
    var iterations: nat
    /** Whether the interval is still scheduled. */
    var ticking: bool

    ghost predicate Valid()
      reads this
    {
      |display| == |text|
      && (!hovered ==> display == text && !ticking)
      && (ticking ==> hovered && iterations <= 3 * |text|)
      && (hovered && iterations == 0 ==> display == text)
      && (hovered && iterations > 0 ==> Shows(display, text, iterations - 1))
      && (hovered && !ticking ==> display == text)
    }

    /** Mounting: the display starts as the text and nothing is hovered. */
    constructor (text: string)
      ensures Valid()
      ensures this.text == text && display == text && !hovered && !ticking
    {
      this.text := text;
      display := text;
      hovered := false;
      iterations := 0;
      ticking := false;
    }

    /** `onMouseEnter`: when hovering starts, the effect restarts the cursor at
        zero and schedules the interval. Entering while already hovered does not
        change `isHovered`, so nothing reruns. */
    method MouseEnter()
      requires Valid()
      modifies this
      ensures Valid() && hovered && display == old(display)
      ensures !old(hovered) ==> iterations == 0 && ticking
      ensures old(hovered) ==> iterations == old(iterations) && ticking == old(ticking)
    {
      if !hovered {
        hovered := true;
        iterations := 0;
        ticking := true;
      }
    }

    /** `onMouseLeave`: the effect's cleanup clears the interval and the rerun
        shows the text again. */
    method MouseLeave()
      requires Valid()
      modifies this
      ensures Valid() && !hovered && !ticking && display == text
      ensures iterations == old(iterations)
    {
      hovered := false;
      ticking := false;
      display := text;
    }

    /** One firing of the interval: rewrite the display with the cursor at
        iterations / 3, stop once the cursor has reached the text length, then
        advance the cursor by a third. A cleared interval never fires. */
    method Tick(picks: seq<SymbolIndex>)
      requires Valid() && |picks| == |text|
      modifies this
      ensures Valid() && hovered == old(hovered)
      ensures old(ticking) ==>
        display == Scramble(text, old(display), old(iterations), picks)
        && iterations == old(iterations) + 1
        && ticking == (old(iterations) < 3 * |text|)
      ensures !old(ticking) ==>
        display == old(display) && iterations == old(iterations) && !ticking
    {
      if ticking {
        display := Scramble(text, display, iterations, picks);
        if iterations >= 3 * |text| {
          ScrambleAtEnd(text, old(display), picks);
          ticking := false;
        }
        iterations := iterations + 1;
      }
    }

    /** A hover that lasts for `|frames|` firings of the interval, `frames[j]`
        holding the symbols drawn at firing `j`. A hover long enough for
        3 * |text| + 1 firings ends with the text shown and the interval cleared. */
    method Hover(frames: seq<seq<SymbolIndex>>)
      requires Valid() && !hovered
      requires forall j :: 0 <= j < |frames| ==> |frames[j]| == |text|
      modifies this
      ensures Valid() && hovered
      ensures |frames| > 3 * |text| ==> !ticking && display == text
      ensures |frames| <= 3 * |text| ==> ticking && iterations == |frames|
    {
      MouseEnter();
      var j := 0;
      while j < |frames| && ticking
        invariant Valid() && hovered
        invariant 0 <= j <= |frames|
        invariant iterations == j
        invariant !ticking ==> j == 3 * |text| + 1
        invariant ticking ==> j <= 3 * |text|
      {
        Tick(frames[j]);
        j := j + 1;
      }
    }
  }
}
