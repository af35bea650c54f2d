/** The reveal rule that ends every coverage scan, as a transition on the
    component's state. */
module Reveal {
  import opened Coverage

  /** Coverage percent strictly above which the card is revealed. */
  const RevealThreshold: nat := 70

  /** The component state the handlers read and write.
      `pendingClears` counts delayed `clearRect` callbacks scheduled and not yet
      run; `revealsThisSession` counts reveals since mount or the last reset. */
  datatype CardState = CardState(
    isRevealed: bool,
    scratchPercentage: real,
    isDrawing: bool,
    pendingClears: nat,
    revealsThisSession: nat)

  const Initial := CardState(false, 0.0, false, 0, 0)

  /** Only the reveal itself schedules the fade and the clear, so the session
      count of reveals is 1 exactly while the card is revealed. */
  predicate SessionInvariant(s: CardState)
  {
    s.revealsThisSession == if s.isRevealed then 1 else 0
  }

  /** State after calculateScratchPercentage has found `count` transparent
      pixels on a `width` x `height` canvas. On a canvas of zero area the
      pixel read throws before anything is set. */
  function AfterScan(s: CardState, count: nat, width: nat, height: nat): CardState
  {
    if width * height == 0 then s
    else
      var percentage := Percentage(count, width * height);
      var fires := percentage > RevealThreshold as real && !s.isRevealed;
      s.(scratchPercentage := percentage,
         isRevealed := s.isRevealed || fires,
         pendingClears := s.pendingClears + (if fires then 1 else 0),
         revealsThisSession := s.revealsThisSession + (if fires then 1 else 0))
  }

  /** The reveal fires when, and only when, the card was not revealed and more
      than 70% of the pixels are transparent; firing schedules one clear, and a
      scan never un-reveals or touches the drawing flag. */
  lemma RevealRule(s: CardState, count: nat, width: nat, height: nat)
    ensures var t := AfterScan(s, count, width, height);
      && (t.isRevealed <==>
            s.isRevealed || (width * height > 0 && count * 100 > RevealThreshold * (width * height)))
      && t.pendingClears == s.pendingClears + (if t.isRevealed && !s.isRevealed then 1 else 0)
      && (t.isRevealed && !s.isRevealed ==> t.scratchPercentage > RevealThreshold as real)
      && t.isDrawing == s.isDrawing
  {
  }

  /** A scan after the reveal changes nothing but the percentage. */
  lemma ScanAfterRevealIsQuiet(s: CardState, count: nat, width: nat, height: nat)
    requires s.isRevealed
    ensures AfterScan(s, count, width, height) ==
      s.(scratchPercentage := AfterScan(s, count, width, height).scratchPercentage)
  {
  }

  /** A scan of a `4 * width * height` buffer reports a percentage in [0, 100]. */
  lemma ScanPercentageInRange(s: CardState, px: seq<Byte>, width: nat, height: nat)
    requires |px| == 4 * (width * height) && width * height > 0
    ensures 0.0 <= AfterScan(s, TransparentCount(px), width, height).scratchPercentage <= 100.0
  {
    BufferPercentageInRange(px, width, height);
  }

  lemma ScanKeepsSessionInvariant(s: CardState, count: nat, width: nat, height: nat)
    requires SessionInvariant(s)
    ensures SessionInvariant(AfterScan(s, count, width, height))
  {
  }

  /** One scan as observed: the transparent count and the canvas size. */
  datatype Scan = Scan(count: nat, width: nat, height: nat)

  /** The state after a run of scans with no reset in between. */
  function ScanAll(s: CardState, scans: seq<Scan>): CardState
  {
    if scans == [] then s
    else
      var last := scans[|scans| - 1];
      AfterScan(ScanAll(s, scans[..|scans| - 1]), last.count, last.width, last.height)
  }

  /** However many scans run between two resets, the fade-and-clear is
      scheduled at most once, and not at all if the card was already revealed. */
  lemma {:induction false} RevealFiresAtMostOnce(s: CardState, scans: seq<Scan>)
    ensures var t := ScanAll(s, scans);
      && t.pendingClears == s.pendingClears + (if t.isRevealed && !s.isRevealed then 1 else 0)
      && (s.isRevealed ==> t.isRevealed)
      && t.isDrawing == s.isDrawing
  {
    if scans != [] {
      var last := scans[|scans| - 1];
      RevealFiresAtMostOnce(s, scans[..|scans| - 1]);
      RevealRule(ScanAll(s, scans[..|scans| - 1]), last.count, last.width, last.height);
    }
  }
}
