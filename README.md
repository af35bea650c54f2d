# Scratch card: verified model of the coverage scan and the reveal state machine

The component is a React "scratch card". A canvas covers an image with an opaque golden layer. Each mouse or touch stroke fills a disk of radius 5 with `destination-out`, which lowers the alpha of that part of the layer to 70% of what it was. The brush never sets a fill style of its own and inherits the label's `rgba(0,0,0,0.3)`, so a pixel of the cover needs two strokes before it counts. After every erase the component scans the canvas's RGBA bytes and counts the pixels whose alpha is below 128. It stores that count as a percentage. The first time the percentage exceeds 70 while the card is not revealed, the card becomes revealed. The canvas then fades out, and a clear of the whole canvas is scheduled for 1000 ms later. A reset button repaints the cover and puts the state back to "not revealed, 0%".

The model has four modules:

- `Coordinates` (pure) maps a mouse or touch event to canvas-local coordinates (`getCoordinates`).
- `Coverage` (pure) describes the byte buffer. It defines the transparent count, the percentage, and the three ways the buffer is rewritten: the `destination-out` brush erase, the opaque repaint and the clear. Its lemmas cover count bounds, monotonicity under erasing, and the count after a repaint or a clear.
- `Reveal` (pure) gives the state transition of `calculateScratchPercentage` as `AfterScan`. Its lemmas state the reveal rule and that the fade-and-clear fires at most once per session.
- `App` (imperative) has the class `ScratchCard`. It holds the pixel buffer as an `array<Byte>` of `4 * width * height` bytes and the fields `isRevealed`, `scratchPercentage` and `isDrawing`. Its methods are the handlers `HandleStart`, `HandleMove`, `HandleEnd` and `Reset`, the erase-and-rescan `Scratch`, the scan `CalculateScratchPercentage` with its counting loop `CountTransparent`, the delayed clear and the resize listener. Each method's `ensures` gives the whole new buffer and state in terms of the `Coverage` and `Reveal` functions. The methods also prove the class invariant: a reveal is scheduled at most once between resets.

Each handler is one atomic update of the object. React's batched state updates and stale closures are not modelled.

Behaviours of the code worth noting:

- The reveal threshold is 70 (src/App.tsx:20), although the comment on that line says 85%.
- `scratch` sets the composite operation and draws the arc (src/App.tsx:90-93) but never sets `fillStyle`. The fill style left on the context is the label's `rgba(0,0,0,0.3)`, set at mount (src/App.tsx:60) and again by every reset (src/App.tsx:170). The brush therefore removes only 30% of the alpha per stroke: one stroke leaves an opaque pixel at 178, still counted as covered, and a second brings it to 124.
- `handleStart` does not check `isRevealed` (src/App.tsx:127-131). A press after the reveal still erases and rescans, so the percentage can still change. Only `handleMove` ignores events once the card is revealed (src/App.tsx:134).
- `getCoordinates` reads the first touch point of a touch event without checking that one exists (src/App.tsx:76-77). On an empty touch list that read throws, and the model returns `NoActiveTouch`. In `handleStart`, `isDrawing` has already been set by then (src/App.tsx:128), and no erase happens.
- A window resize repaints the canvas but does not touch `scratchPercentage` or `isRevealed` (src/App.tsx:31-38). The clear scheduled by the reveal empties the canvas without rescanning (src/App.tsx:121-123). After either one, the stored percentage no longer matches the buffer. The model proves the percentage non-decreasing across a scratch only while it matches the buffer (`Synced`).
- On a canvas of zero area, `getImageData` (src/App.tsx:103) throws before anything is set, so the scan changes no state.
- The handlers are attached to the canvas element (src/App.tsx:213-223), so the element exists whenever they run. `HandleStart` and `HandleMove` therefore take its bounding rectangle directly. The no-canvas branch of `getCoordinates` (src/App.tsx:73) is kept in `GetCoordinates` itself.

## Model

| member | source | states |
|---|---|---|
| Coordinates.GetCoordinates | src/App.tsx:71-83 | with no canvas the result is (0, 0); otherwise it fails exactly when a touch event has no touch point, and adding the canvas's top-left corner back gives the event's client position (its first touch point) |
| Coordinates.TranslationInvariant | src/App.tsx:79-82 | shifting the pointer and the canvas by the same offset leaves the local point unchanged |
| Coordinates.FirstTouchOnly | src/App.tsx:76-77 | touch points after the first are ignored, and a touch maps like a mouse event at the same client position |
| Coverage.CountIsTransparentPixels | src/App.tsx:103-111 | the step-by-4 scan count equals the size of the set of pixels whose alpha byte (offset 3) is below 128 |
| Coverage.CountBound | src/App.tsx:107-111 | the count is at most the number of whole pixels, length / 4 |
| Coverage.CountMonotone | src/App.tsx:107-111 | if no alpha byte rises, the count does not fall |
| Coverage.PercentageAboveIff | src/App.tsx:113-116 | `count / area * 100 > t` holds exactly when `count * 100 > t * area` on integers |
| Coverage.PercentageInRange | src/App.tsx:113 | with count at most the area, the percentage lies in [0, 100] |
| Coverage.PercentageMonotone | src/App.tsx:113 | a larger count never gives a smaller percentage |
| Coverage.BufferPercentageInRange | src/App.tsx:103-113 | the percentage of a `4 * width * height` byte buffer of positive area lies in [0, 100] |
| Coverage.DestinationOut | src/App.tsx:90-93 | `destination-out` never raises alpha, clears it under an opaque source and keeps it under a transparent one |
| Coverage.EraseEffect | src/App.tsx:90-93 | the brush erase (`Erased`) sets the alpha of every pixel whose centre is within radius 5 to the `destination-out` of that alpha with the brush fill alpha 77 (30%), that is, to 70% of it; it keeps every other alpha, raises none, and leaves the colour bytes alone |
| Coverage.TwoStrokesToClear | src/App.tsx:90-93 | with the 30% fill inherited from the label (src/App.tsx:60), one stroke leaves an opaque pixel at alpha 178, not below 128, and a second stroke takes it to 124, below 128 |
| Coverage.EraseNeverLowersCount | src/App.tsx:85-95 | after an erase the transparent count is at least what it was before |
| Coverage.Repainted | src/App.tsx:160-162 | the opaque `source-over` fill sets every alpha to 255 |
| Coverage.RepaintedCountsZero | src/App.tsx:160-167 | a scan after the repaint counts 0 pixels |
| Coverage.Cleared | src/App.tsx:121-123 | `clearRect` makes every alpha 0 |
| Coverage.ClearedCountsAll | src/App.tsx:121-123 | a scan after the clear counts every whole pixel |
| Reveal.RevealRule | src/App.tsx:113-124 | the scan reveals exactly when the card was unrevealed and `count * 100 > 70 * width * height`; a reveal schedules exactly one clear and happens only above 70%; a scan never un-reveals and never touches `isDrawing` |
| Reveal.ScanAfterRevealIsQuiet | src/App.tsx:116-123 | once revealed, a scan changes only the percentage |
| Reveal.ScanPercentageInRange | src/App.tsx:113-114 | the stored percentage lies in [0, 100] for a buffer of `4 * width * height` bytes |
| Reveal.ScanKeepsSessionInvariant | src/App.tsx:116-123 | after any scan, the number of reveals since the last reset is 1 when revealed and 0 otherwise |
| Reveal.RevealFiresAtMostOnce | src/App.tsx:116-123 | over any run of scans without a reset, at most one clear is scheduled, none if the card was already revealed, and a revealed card stays revealed |
| App.CountTransparent | src/App.tsx:103-111 | the counting loop returns the transparent count of the buffer, at most length / 4 |
| App.ScratchCard.constructor | src/App.tsx:23-65 | mount: the buffer has `4 * w * h` bytes, all opaque when a context exists; the state is not revealed, 0%, not drawing, and matches the buffer |
| App.ScratchCard.Paint | src/App.tsx:49-50 | the cover fill makes the buffer `Repainted` of what it was |
| App.ScratchCard.Erase | src/App.tsx:90-93 | the buffer becomes `Erased` of what it was at (x, y): alpha inside the radius-5 disk falls to 70%, everything else is kept |
| App.ScratchCard.CalculateScratchPercentage | src/App.tsx:98-125 | with a context the state becomes `AfterScan` of the old state and the buffer's count, and the percentage then matches the buffer; without one nothing changes; the buffer is untouched |
| App.ScratchCard.Scratch | src/App.tsx:85-96 | with a context: one erase, then one scan; without one: nothing changes; a percentage that matched the buffer never goes down |
| App.ScratchCard.HandleStart | src/App.tsx:127-131 | sets `isDrawing`, then erases and rescans at the event's position even when already revealed; no erase when the position cannot be read or there is no context |
| App.ScratchCard.HandleMove | src/App.tsx:133-137 | leaves buffer and state unchanged unless drawing and not revealed; otherwise exactly one erase and one scan; a matching percentage never goes down |
| App.ScratchCard.HandleEnd | src/App.tsx:139-141 | clears `isDrawing` and changes nothing else |
| App.ScratchCard.Reset | src/App.tsx:143-173 | with a context: un-reveals, sets the percentage to 0, repaints so the count is 0, keeps `isDrawing` and any pending clear; without one: a complete no-op |
| App.ScratchCard.ResetCancellingClear | src/App.tsx:143-150 | as `Reset`, and no clear is left pending, so none can wipe the new cover |
| App.ScratchCard.ClearTimerFires | src/App.tsx:121-123 | the delayed callback empties the buffer (count = width * height) and changes no state field |
| App.ScratchCard.Resize | src/App.tsx:31-38 | the canvas takes the new size and is repainted (count 0); the state fields, including the percentage, are not touched |
| App.ResetDuringFadeWipesCover | src/App.tsx:116-123 | on a 1 x 1 card: a first press (alpha 178, no reveal), a second press at the same spot (alpha 124, reveal), reset, then the pending clear fires; the card reports not revealed at 0% while every pixel is transparent |
| App.CancellingResetKeepsCover | src/App.tsx:143-150 | the same two presses and the corrected reset leave the cover opaque, at 0%, with no clear pending |

The specification functions have no row of their own. Each is described by the rows of the members that state its properties:

- `Coverage.TransparentCount`: `CountIsTransparentPixels`, `CountBound` and `CountMonotone`.
- `Coverage.Percentage`: `PercentageAboveIff`, `PercentageInRange` and `PercentageMonotone`.
- `Coverage.Erased`: `EraseEffect` and `EraseNeverLowersCount`.
- `Reveal.AfterScan`: `RevealRule`, `ScanAfterRevealIsQuiet`, `ScanPercentageInRange`, `ScanKeepsSessionInvariant` and `RevealFiresAtMostOnce`.
- `Coordinates.ClientPoint`: `GetCoordinates` and `FirstTouchOnly`.

## Left out

- Canvas rasterisation: the erase treats a pixel as inside the brush disk when its centre is within radius 5. Anti-aliased edge pixels, which the browser covers only partly, are not modelled. `DestinationOut` states the compositing rule for partial coverage too. The brush alpha 0.3 * 255 = 76.5 is taken as 77 and the compositor's result is rounded down. The browser's exact rounding is not modelled. With 76 or 77, and with rounding up or down, one stroke keeps an opaque pixel at 128 or above and two strokes take it below 128.
- Colours: the golden gradient, the 1000 random noise squares and the label text are not modelled. The cover fill only sets every alpha to 255, which is what the scan observes. Drawing with `source-over` onto an opaque layer keeps it opaque. The erase leaves a pixel's colour bytes as they were. A canvas that stores premultiplied colour reads them back scaled by the new alpha. The scan reads only alpha, so no contract depends on the colour bytes.
- Floating point: the percentage is computed on exact reals. IEEE rounding of `count / area * 100` right at the 70% boundary is not modelled.
- Canvas size truncation: giving the canvas the container's fractional size truncates it. The model takes whole `width` and `height` as given.
- On mount without a 2D context the canvas keeps the browser's default size. The model uses the given size with an all-transparent buffer.
- CSS opacity and transition of the fade, the 1000 ms timing, the image loading spinner and the page layout are styling only. The fade is not a field. The scheduled clear is modelled as a pending count, and `ClearTimerFires` runs it.
- The `TypeError` from reading the first touch of an empty touch list is modelled as the handler stopping. The assumption is that the `isDrawing` update queued before the throw still applies.
- Resize listener registration and removal (src/App.tsx:66-68) are event plumbing. `Resize` models only what the listener does.
- React closure staleness and state batching: each handler is an atomic update on one object.

## Findings

| source | as written | input that shows it | evidently intended | confidence | as-written member | corrected member |
|---|---|---|---|---|---|---|
| src/App.tsx:121-123 | the reveal schedules `clearRect` after 1000 ms, and `reset` (src/App.tsx:143-150) never cancels it | reveal the card (two presses at the same spot of a 1 x 1 card), press reset within 1000 ms: the pending clear wipes the freshly painted cover while the card reports not revealed at 0% | reset cancels the pending clear, so the repainted cover stays until scratched | medium, not executed | App.ResetDuringFadeWipesCover | App.ScratchCard.ResetCancellingClear |
