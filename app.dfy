/** The scratch-card component: its canvas buffer, its three state fields and
    the handlers that the canvas's mouse and touch events and the reset button
    call. Each handler runs as one atomic update of the object. */
module App {
  import opened Coverage
  import opened Coordinates
  import opened Reveal

  /** The scan loop of calculateScratchPercentage: steps through the buffer
      four bytes at a time and counts alpha bytes below the cut-point. */
  method CountTransparent(pixels: array<Byte>) returns (transparentPixels: nat)
    ensures transparentPixels == TransparentCount(pixels[..])
    ensures transparentPixels <= pixels.Length / 4
  {
    transparentPixels := 0;
    var i := 0;
    ghost var p := 0;
    while i < pixels.Length
      invariant i == 4 * p && p <= Steps(pixels.Length)
      invariant transparentPixels == CountFirst(pixels[..], p)
    {
      if i + 3 < pixels.Length && pixels[i + 3] < AlphaCutoff {
        transparentPixels := transparentPixels + 1;
      }
      i, p := i + 4, p + 1;
    }
    CountBound(pixels[..]);
  }

  class ScratchCard {
    /** The canvas's RGBA bytes, row by row. */
    var pixels: array<Byte>
    var width: nat
    var height: nat
    /** Whether the canvas yields a 2D context; every drawing step needs one. */
    const hasContext: bool

    var isRevealed: bool
    var scratchPercentage: real
    var isDrawing: bool
    /** Delayed clears scheduled by a reveal and not yet run. */
    var pendingClears: nat
    ghost var revealsThisSession: nat

    ghost predicate Valid()
      reads this
    {
      pixels.Length == 4 * (width * height) &&
      SessionInvariant(State()) &&
      (pendingClears > 0 ==> hasContext)
    }

    ghost function State(): CardState
      reads this
    {
      CardState(isRevealed, scratchPercentage, isDrawing, pendingClears, revealsThisSession)
    }

    /** The displayed percentage is the one a scan of the buffer would report now. */
    ghost predicate Synced()
      reads this, pixels
    {
      width * height > 0 ==>
        scratchPercentage == Percentage(TransparentCount(pixels[..]), width * height)
    }

    /** Mount: the canvas is sized to its container and, when a context is
        available, painted with the opaque cover. */
    constructor (w: nat, h: nat, context: bool)
      ensures Valid() && fresh(pixels)
      ensures width == w && height == h && hasContext == context
      ensures State() == Initial
      ensures hasContext ==> pixels[..] == Repainted(Cleared(4 * (w * h))) && Synced()
    {
      pixels := new Byte[4 * (w * h)](_ => 0);
      width, height := w, h;
      hasContext := context;
      isRevealed, scratchPercentage, isDrawing := false, 0.0, false;
      pendingClears, revealsThisSession := 0, 0;
      new;
      assert pixels[..] == Cleared(4 * (w * h));
      if context {
        Paint();
        RepaintedCountsZero(Cleared(4 * (w * h)));
      }
    }

    /** Opaque fill of the whole canvas. */
    method Paint()
      modifies pixels
      ensures pixels[..] == Repainted(old(pixels[..]))
    {
      forall i | 0 <= i < pixels.Length && i % 4 == 3 {
        pixels[i] := Opaque;
      }
    }

    /** The brush fill with `destination-out` at (x, y). */
    method Erase(x: real, y: real)
      requires Valid()
      modifies pixels
      ensures pixels[..] == Erased(old(pixels[..]), width, x, y)
    {
      if width > 0 {
        forall i | 0 <= i < pixels.Length && i % 4 == 3 {
          pixels[i] := DestinationOut(pixels[i], BrushAlpha((i / 4) % width, (i / 4) / width, x, y));
        }
      }
    }

    /** calculateScratchPercentage: count, store the percentage, and on the
        first crossing of the threshold reveal and schedule the fade and clear. */
    method CalculateScratchPercentage()
      requires Valid()
      modifies this
      ensures Valid()
      ensures pixels == old(pixels) && width == old(width) && height == old(height)
      ensures State() ==
        if hasContext then AfterScan(old(State()), TransparentCount(pixels[..]), width, height)
        else old(State())
      ensures hasContext ==> Synced()
    {
      if !hasContext {
        return;
      }
      var area := width * height;
      if area == 0 {
        return;
      }
      var transparentPixels := CountTransparent(pixels);
      var percentage := Percentage(transparentPixels, area);
      scratchPercentage := percentage;
      if percentage > RevealThreshold as real && !isRevealed {
        isRevealed := true;
        pendingClears := pendingClears + 1;
        revealsThisSession := revealsThisSession + 1;
      }
    }

    /** scratch: erase a disk at (x, y) and rescan; nothing without a context. */
    method Scratch(x: real, y: real)
      requires Valid()
      modifies this, pixels
      ensures Valid()
      ensures pixels == old(pixels) && width == old(width) && height == old(height)
      ensures !hasContext ==> pixels[..] == old(pixels[..]) && State() == old(State())
      ensures hasContext ==>
        && pixels[..] == Erased(old(pixels[..]), width, x, y)
        && State() == AfterScan(old(State()), TransparentCount(pixels[..]), width, height)
        && Synced()
      ensures old(Synced()) ==> scratchPercentage >= old(scratchPercentage)
    {
      if !hasContext {
        return;
      }
      Erase(x, y);
      CalculateScratchPercentage();
      if width * height > 0 {
        EraseNeverLowersCount(old(pixels[..]), width, x, y);
        PercentageMonotone(TransparentCount(old(pixels[..])), TransparentCount(pixels[..]), width * height);
      }
    }

    /** handleStart: start drawing, then scratch at the event's position,
        whether or not the card is already revealed. The handler is attached
        to the canvas element, so the element exists and `rect` is its
        bounding rectangle. */
    method HandleStart(e: PointerEvent, rect: Rect)
      requires Valid()
      modifies this, pixels
      ensures Valid()
      ensures pixels == old(pixels) && width == old(width) && height == old(height)
      ensures isDrawing
      ensures var c := GetCoordinates(e, Some(rect));
        var drawing := old(State()).(isDrawing := true);
        if c.Ok? && hasContext then
          && pixels[..] == Erased(old(pixels[..]), width, c.point.x, c.point.y)
          && State() == AfterScan(drawing, TransparentCount(pixels[..]), width, height)
          && Synced()
        else
          pixels[..] == old(pixels[..]) && State() == drawing
      ensures old(Synced()) ==> scratchPercentage >= old(scratchPercentage)
    {
      isDrawing := true;
      var c := GetCoordinates(e, Some(rect));
      if c.Ok? {
        Scratch(c.point.x, c.point.y);
      }
    }

    /** handleMove: ignored unless drawing and not yet revealed; otherwise one
        scratch at the event's position. Like handleStart it runs only on the
        canvas element, whose bounding rectangle is `rect`. */
    method HandleMove(e: PointerEvent, rect: Rect)
      requires Valid()
      modifies this, pixels
      ensures Valid()
      ensures pixels == old(pixels) && width == old(width) && height == old(height)
      ensures var c := GetCoordinates(e, Some(rect));
        if old(isDrawing) && !old(isRevealed) && c.Ok? && hasContext then
          && pixels[..] == Erased(old(pixels[..]), width, c.point.x, c.point.y)
          && State() == AfterScan(old(State()), TransparentCount(pixels[..]), width, height)
          && Synced()
        else
          pixels[..] == old(pixels[..]) && State() == old(State())
      ensures old(Synced()) ==> scratchPercentage >= old(scratchPercentage)
    {
      if !isDrawing || isRevealed {
        return;
      }
      var c := GetCoordinates(e, Some(rect));
      if c.Ok? {
        Scratch(c.point.x, c.point.y);
      }
    }

    /** handleEnd (mouse up, mouse leave, touch end): stop drawing. */
    method HandleEnd()
      requires Valid()
      modifies this
      ensures Valid()
      ensures pixels == old(pixels) && width == old(width) && height == old(height)
      ensures State() == old(State()).(isDrawing := false)
    {
      isDrawing := false;
    }

    /** reset: un-reveal, zero the percentage and repaint the cover; the drawing
        flag and any clear already scheduled are left as they are. Nothing at
        all happens without a context. */
    method Reset()
      requires Valid()
      modifies this, pixels
      ensures Valid()
      ensures pixels == old(pixels) && width == old(width) && height == old(height)
      ensures !hasContext ==> pixels[..] == old(pixels[..]) && State() == old(State())
      ensures hasContext ==>
        && pixels[..] == Repainted(old(pixels[..]))
        && State() == old(State()).(isRevealed := false, scratchPercentage := 0.0, revealsThisSession := 0)
        && TransparentCount(pixels[..]) == 0
        && Synced()
    {
      if !hasContext {
        return;
      }
      isRevealed := false;
      scratchPercentage := 0.0;
      revealsThisSession := 0;
      Paint();
      RepaintedCountsZero(old(pixels[..]));
    }

    /** Reset that also cancels the clear scheduled by an earlier reveal, so the
        repainted cover cannot be wiped by it. */
    method ResetCancellingClear()
      requires Valid()
      modifies this, pixels
      ensures Valid()
      ensures pixels == old(pixels) && width == old(width) && height == old(height)
      ensures !hasContext ==> pixels[..] == old(pixels[..]) && State() == old(State())
      ensures hasContext ==>
        && pixels[..] == Repainted(old(pixels[..]))
        && State() == old(State()).(isRevealed := false, scratchPercentage := 0.0,
                                    pendingClears := 0, revealsThisSession := 0)
        && TransparentCount(pixels[..]) == 0
        && Synced()
      ensures pendingClears > 0 ==> isRevealed
    {
      if !hasContext {
        return;
      }
      pendingClears := 0;
      Reset();
    }

    /** The delayed callback scheduled by a reveal: clear the whole canvas. */
    method ClearTimerFires()
      requires Valid() && pendingClears > 0
      modifies this, pixels
      ensures Valid()
      ensures pixels == old(pixels) && width == old(width) && height == old(height)
      ensures pixels[..] == Cleared(pixels.Length)
      ensures TransparentCount(pixels[..]) == width * height
      ensures State() == old(State()).(pendingClears := old(pendingClears) - 1)
    {
      forall i | 0 <= i < pixels.Length {
        pixels[i] := 0;
      }
      assert pixels[..] == Cleared(pixels.Length);
      ClearedCountsAll(pixels.Length);
      pendingClears := pendingClears - 1;
    }

    /** The window resize listener: the canvas takes the container's new size,
        which empties it, and the cover is painted again. The state fields are
        not touched, so the displayed percentage may no longer match the
        buffer. The listener exists only when mount found a context. */
    method Resize(w: nat, h: nat)
      requires Valid()
      modifies this
      ensures Valid()
      ensures State() == old(State())
      ensures !hasContext ==> pixels == old(pixels) && width == old(width) && height == old(height)
      ensures hasContext ==>
        && fresh(pixels) && width == w && height == h
        && pixels[..] == Repainted(Cleared(4 * (w * h)))
        && TransparentCount(pixels[..]) == 0
    {
      if !hasContext {
        return;
      }
      pixels := new Byte[4 * (w * h)](_ => 0);
      width, height := w, h;
      assert pixels[..] == Cleared(4 * (w * h));
      Paint();
      RepaintedCountsZero(Cleared(4 * (w * h)));
    }
  }

  /** Reset during the fade: on a 1 x 1 card the first press leaves the
      pixel at alpha 178, still covered; a second press at the same spot takes
      it to 124 and reveals the card. A reset before the delayed clear runs,
      and the clear then wipes the freshly painted cover while the card
      reports itself covered at 0%. */
  method ResetDuringFadeWipesCover() returns (card: ScratchCard)
    ensures card.Valid() && card.hasContext
    ensures !card.isRevealed && card.scratchPercentage == 0.0
    ensures TransparentCount(card.pixels[..]) == card.width * card.height == 1
  {
    card := new ScratchCard(1, 1, true);
    var press := MouseEvent(0.5, 0.5);
    var rect := Rect(0.0, 0.0);
    TwoStrokesToClear();
    card.HandleStart(press, rect);
    assert InDisk(0, 0, 0.5, 0.5);
    assert Alpha(card.pixels[..], 0) == 178;
    assert CountFirst(card.pixels[..], 1) == 0;
    assert !card.isRevealed;
    card.HandleStart(press, rect);
    assert Alpha(card.pixels[..], 0) == 124;
    assert CountFirst(card.pixels[..], 1) == 1;
    assert card.isRevealed && card.pendingClears == 1;
    card.Reset();
    card.ClearTimerFires();
  }

  /** With the corrected reset the same two presses leave no clear pending,
      so the repainted cover stays. */
  method CancellingResetKeepsCover() returns (card: ScratchCard)
    ensures card.Valid() && card.hasContext
    ensures !card.isRevealed && card.scratchPercentage == 0.0 && card.pendingClears == 0
    ensures TransparentCount(card.pixels[..]) == 0 && card.Synced()
  {
    card := new ScratchCard(1, 1, true);
    var press := MouseEvent(0.5, 0.5);
    var rect := Rect(0.0, 0.0);
    TwoStrokesToClear();
    card.HandleStart(press, rect);
    assert InDisk(0, 0, 0.5, 0.5);
    assert CountFirst(card.pixels[..], 1) == 0;
    card.HandleStart(press, rect);
    assert CountFirst(card.pixels[..], 1) == 1;
    assert card.isRevealed && card.pendingClears == 1;
    card.ResetCancellingClear();
  }
}
