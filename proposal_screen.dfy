/**
 * The proposal card: what it shows for a given decline count and Yes-button
 * scale. Everything here is a pure function of the two props the card
 * receives from App (`noCount`, `yesScale`).
 */
module ProposalScreen {

  /** Number of declines at which the No button disappears and the emoji changes. */
  const NoButtonLimit: int := 4

  /** The Yes button starts its spring animation this much below its target scale. */
  const InitialScaleOffset: real := 0.4

  /** The glow behind the Yes button is shown once its scale exceeds this. */
  const GlowThreshold: real := 2.0

  const FirstSubtext := "CHOOSE YOUR DESTINY"
  const SecondSubtext := "Wait, let's try that again..."
  const ThirdSubtext := "Are you really sure?"
  const FourthSubtext := "It's getting a bit crowded in here..."
  const TakeoverSubtext := "The Yes button is taking over!"
  /** Returned only when no earlier case matched; no natural count gets here. */
  const FallbackSubtext := "The choice is becoming clearer!"

  /** The two buttons the card can render. */
  datatype Button = NoButton | YesButton

  /** The emoji in the circle above the question. */
  datatype Emoji = TeddyBear | HoldingBackTears

  /** The line under the question, chosen by an if-chain on the decline count. */
  function Subtext(noCount: int): string
  {
    if noCount == 0 then FirstSubtext
    else if noCount == 1 then SecondSubtext
    else if noCount == 2 then ThirdSubtext
    else if noCount == 3 then FourthSubtext
    else if noCount >= 4 then TakeoverSubtext
    else FallbackSubtext
  }

  function Min(a: int, b: int): int
  {
    if a <= b then a else b
  }

  /** The fallback line is reached exactly for negative counts, so never for a natural one. */
  lemma SubtextFallbackOnlyBelowZero(noCount: int)
    ensures Subtext(noCount) == FallbackSubtext <==> noCount < 0
  {
  }

  /**
   * Each of the counts 0, 1, 2, 3 has its own line, and every count from 4 on
   * shares the take-over line: two natural counts get the same subtext exactly
   * when they agree once capped at 4.
   */
  lemma SubtextDistinguishesCappedCount(m: nat, n: nat)
    ensures Subtext(m) == Subtext(n) <==> Min(m, NoButtonLimit) == Min(n, NoButtonLimit)
  {
  }

  /** The No button is rendered only while fewer than four declines happened. */
  predicate NoButtonVisible(noCount: int)
  {
    noCount < NoButtonLimit
  }

  /** Whether the card renders button `b`: Yes always, No while it is visible. */
  predicate Offers(noCount: int, b: Button)
  {
    match b
    case YesButton => true
    case NoButton => NoButtonVisible(noCount)
  }

  /** The teddy bear is shown under exactly the condition that shows the No button. */
  function ShownEmoji(noCount: int): (e: Emoji)
    ensures e == TeddyBear <==> NoButtonVisible(noCount)
    ensures e == TeddyBear <==> Offers(noCount, NoButton)
  {
    if noCount < 4 then TeddyBear else HoldingBackTears
  }

  /**
   * The scale the Yes button's spring animation starts from: its target scale
   * less 0.4, but never below 1. It is the larger of the two, so it is at least
   * 1, at least yesScale - 0.4, one of those two, and no larger than a target
   * that is itself at least 1.
   */
  function InitialYesScale(yesScale: real): (r: real)
    ensures r >= 1.0 && r >= yesScale - InitialScaleOffset
    ensures r == 1.0 || r == yesScale - InitialScaleOffset
    ensures yesScale >= 1.0 ==> r <= yesScale
  {
    if 1.0 >= yesScale - 0.4 then 1.0 else yesScale - 0.4
  }

  /** The persistent glow is rendered only while the Yes button is more than twice its size. */
  predicate GlowVisible(yesScale: real)
  {
    yesScale > GlowThreshold
  }
}
