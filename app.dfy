/**
 * The top-level component: three pieces of state (`accepted`, `noCount`,
 * `yesScale`), the two click handlers that update them, and the render
 * decision that shows the proposal card while not accepted and the success
 * screen afterwards. Only the proposal card has buttons, and it renders the
 * No button only while fewer than four declines happened, so a click reaches
 * a handler only through that gate.
 */
module App {
  import opened ProposalScreen

  /** How much the Yes button grows per decline. */
  const ScaleStep: real := 0.4

  /** Sound cues handed to the audio player (the player itself is not modelled). */
  datatype Cue = Pop | Ding | Success

  /** A snapshot of the component's three state fields. */
  datatype State = State(accepted: bool, noCount: nat, yesScale: real)

  /** The screen App renders for a state. */
  datatype Screen = Proposal | Celebration

  /** The state at mount. */
  function Initial(): State
  {
    State(false, 0, 1.0)
  }

  /** The Yes button's scale after `n` declines: 1 grown by 0.4 per decline. */
  function ScaleFor(n: nat): (r: real)
    ensures r >= 1.0
    ensures n == 0 <==> r == 1.0
  {
    1.0 + ScaleStep * (n as real)
  }

  /** Successive declines make the Yes button strictly larger. */
  lemma ScaleStrictlyIncreasing(m: nat, n: nat)
    requires m < n
    ensures ScaleFor(m) < ScaleFor(n)
  {
  }

  /** The state update of `handleNoClick`: one more decline, a 0.4 larger Yes button. */
  function Decline(s: State): (t: State)
    ensures t.accepted == s.accepted
    ensures t.noCount == s.noCount + 1
    ensures t.yesScale > s.yesScale
  {
    s.(noCount := s.noCount + 1, yesScale := s.yesScale + ScaleStep)
  }

  /** The state update of `handleYesClick`: accepted, nothing else touched. */
  function Accept(s: State): (t: State)
    ensures t.accepted
    ensures t.noCount == s.noCount && t.yesScale == s.yesScale
  {
    s.(accepted := true)
  }

  /** Accepting twice is accepting once. */
  lemma AcceptIdempotent(s: State)
    ensures Accept(Accept(s)) == Accept(s)
  {
  }

  /** The scale invariant the handlers keep: yesScale is the scale for noCount. */
  predicate ScaleMatches(s: State)
  {
    s.yesScale == ScaleFor(s.noCount)
  }

  /** Both handlers keep the scale invariant, and neither can establish it from a state without it. */
  lemma HandlersKeepScaleInvariant(s: State)
    ensures ScaleMatches(Decline(s)) <==> ScaleMatches(s)
    ensures ScaleMatches(Accept(s)) <==> ScaleMatches(s)
  {
  }

  /** Which screen App renders: the proposal card until accepted, the success screen afterwards. */
  function ScreenOf(s: State): Screen
  {
    if !s.accepted then Proposal else Celebration
  }

  /** A click on `b` reaches its handler only if the proposal card is rendered and renders `b`. */
  predicate Delivered(s: State, b: Button)
  {
    ScreenOf(s) == Proposal && Offers(s.noCount, b)
  }

  /** One click, through the render gate: a click on a button that is not rendered changes nothing. */
  function Step(s: State, b: Button): State
  {
    if !Delivered(s, b) then s
    else match b
      case NoButton => Decline(s)
      case YesButton => Accept(s)
  }

  /**
   * The cues one click plays: `pop` for a decline, `ding` for the acceptance
   * followed by the arpeggio the success screen plays when it mounts.
   */
  function Cues(s: State, b: Button): (cs: seq<Cue>)
    ensures Success in cs <==> !s.accepted && Step(s, b).accepted
    ensures cs == [] <==> Step(s, b) == s
  {
    if !Delivered(s, b) then []
    else match b
      case NoButton => [Pop]
      case YesButton => [Ding, Success]
  }

  /** On the success screen no button of the proposal card is rendered: a click reaches no handler, changes nothing and plays nothing. */
  lemma CelebrationIgnoresClicks(s: State, b: Button)
    requires s.accepted
    ensures ScreenOf(s) == Celebration
    ensures !Delivered(s, b) && Step(s, b) == s && Cues(s, b) == []
  {
  }

  /** While the card is rendered, Yes always reaches its handler and No does so exactly while fewer than four declines happened. */
  lemma ProposalDeliversOfferedClicks(s: State)
    requires !s.accepted
    ensures Delivered(s, YesButton) && Step(s, YesButton) == Accept(s)
    ensures Delivered(s, NoButton) <==> s.noCount < 4
    ensures s.noCount < 4 ==> Step(s, NoButton) == Decline(s)
    ensures s.noCount >= 4 ==> Step(s, NoButton) == s
  {
  }

  /** The state after a sequence of clicks. */
  function Run(s: State, clicks: seq<Button>): State
    decreases |clicks|
  {
    if clicks == [] then s else Run(Step(s, clicks[0]), clicks[1..])
  }

  /** All cues played during a sequence of clicks, in order. */
  function Trace(s: State, clicks: seq<Button>): seq<Cue>
    decreases |clicks|
  {
    if clicks == [] then [] else Cues(s, clicks[0]) + Trace(Step(s, clicks[0]), clicks[1..])
  }

  /** The states App can be in: the scale invariant holds and at most four declines happened. */
  predicate Reachable(s: State)
  {
    ScaleMatches(s) && s.noCount <= NoButtonLimit
  }

  lemma InitialReachable()
    ensures Reachable(Initial())
    ensures !Initial().accepted && Initial().noCount == 0 && Initial().yesScale == 1.0
  {
  }

  /** One gated click keeps a reachable state reachable. */
  lemma StepKeepsReachable(s: State, b: Button)
    requires Reachable(s)
    ensures Reachable(Step(s, b))
  {
  }

  /** Any click sequence keeps a reachable state reachable; in particular noCount never exceeds 4. */
  lemma {:induction false} RunKeepsReachable(s: State, clicks: seq<Button>)
    requires Reachable(s)
    ensures Reachable(Run(s, clicks))
    decreases |clicks|
  {
    if clicks != [] {
      StepKeepsReachable(s, clicks[0]);
      RunKeepsReachable(Step(s, clicks[0]), clicks[1..]);
    }
  }

  /** Every click sequence from mount ends in a reachable state. */
  lemma RunFromInitialReachable(clicks: seq<Button>)
    ensures Reachable(Run(Initial(), clicks))
    ensures Run(Initial(), clicks).noCount <= 4
  {
    RunKeepsReachable(Initial(), clicks);
  }

  /** Once accepted, the state is frozen: no later click changes anything, and no cue plays. */
  lemma {:induction false} AcceptedIsAbsorbing(s: State, clicks: seq<Button>)
    requires s.accepted
    ensures Run(s, clicks) == s
    ensures Trace(s, clicks) == []
    decreases |clicks|
  {
    if clicks != [] {
      AcceptedIsAbsorbing(Step(s, clicks[0]), clicks[1..]);
    }
  }

  /** Along any click sequence noCount and yesScale never decrease, and accepted never reverts. */
  lemma {:induction false} RunMonotone(s: State, clicks: seq<Button>)
    ensures s.noCount <= Run(s, clicks).noCount
    ensures s.yesScale <= Run(s, clicks).yesScale
    ensures s.accepted ==> Run(s, clicks).accepted
    decreases |clicks|
  {
    if clicks != [] {
      RunMonotone(Step(s, clicks[0]), clicks[1..]);
    }
  }

  /** Two click sequences in a row act like their concatenation. */
  lemma {:induction false} RunAppend(s: State, a: seq<Button>, b: seq<Button>)
    ensures Run(s, a + b) == Run(Run(s, a), b)
    ensures Trace(s, a + b) == Trace(s, a) + Trace(Run(s, a), b)
    decreases |a|
  {
    if a != [] {
      assert (a + b)[0] == a[0];
      assert (a + b)[1..] == a[1..] + b;
      RunAppend(Step(s, a[0]), a[1..], b);
    } else {
      assert a + b == b;
    }
  }

  /** `n` clicks on No. */
  function Declines(n: nat): (clicks: seq<Button>)
    ensures |clicks| == n
    ensures forall i :: 0 <= i < n ==> clicks[i] == NoButton
  {
    if n == 0 then [] else Declines(n - 1) + [NoButton]
  }

  /** From mount, `n <= 4` clicks on No give `n` declines and the matching scale. */
  lemma {:induction false} DeclinesFromInitial(n: nat)
    requires n <= NoButtonLimit
    ensures Run(Initial(), Declines(n)) == State(false, n, ScaleFor(n))
  {
    if n > 0 {
      DeclinesFromInitial(n - 1);
      RunAppend(Initial(), Declines(n - 1), [NoButton]);
    }
  }

  /** Conversely, every reachable state is reached from mount: `noCount` declines, then Yes if accepted. */
  lemma ReachableStatesAreReached(s: State)
    requires Reachable(s)
    ensures Run(Initial(), Declines(s.noCount) + (if s.accepted then [YesButton] else [])) == s
  {
    DeclinesFromInitial(s.noCount);
    RunAppend(Initial(), Declines(s.noCount), if s.accepted then [YesButton] else []);
  }

  /** The success arpeggio plays at most once per session, and exactly when the session ends accepted. */
  lemma {:induction false} SuccessPlayedOnce(s: State, clicks: seq<Button>)
    ensures multiset(Trace(s, clicks))[Success] ==
      (if !s.accepted && Run(s, clicks).accepted then 1 else 0)
    decreases |clicks|
  {
    if clicks != [] {
      var t := Step(s, clicks[0]);
      SuccessPlayedOnce(t, clicks[1..]);
      RunMonotone(t, clicks[1..]);
      assert multiset(Trace(s, clicks)) == multiset(Cues(s, clicks[0])) + multiset(Trace(t, clicks[1..]));
    }
  }

  /** The Yes button's starting scale is the previous decline's scale, or 1 before any decline. */
  lemma InitialScaleIsPreviousScale(n: nat)
    ensures n >= 1 ==> InitialYesScale(ScaleFor(n)) == ScaleFor(n - 1)
    ensures n == 0 ==> InitialYesScale(ScaleFor(n)) == 1.0
  {
  }

  /** With the scale App passes down, the glow appears exactly from the third decline on. */
  lemma GlowFromThirdDecline(n: nat)
    ensures GlowVisible(ScaleFor(n)) <==> n >= 3
  {
  }

  /** Three declines, then Yes twice: accepted with three declines and scale 2.2; the second Yes does nothing. */
  lemma ThreeDeclinesThenAccept()
    ensures Run(Initial(), [NoButton, NoButton, NoButton, YesButton]) == State(true, 3, 2.2)
    ensures Run(Initial(), [NoButton, NoButton, NoButton, YesButton, YesButton]) == State(true, 3, 2.2)
  {
  }

  /** App's state hooks, updated in place by the handlers. */
  class AppState {
    var accepted: bool
    var noCount: nat
    var yesScale: real

    function Snapshot(): State
      reads this
    {
      State(accepted, noCount, yesScale)
    }

    constructor ()
      ensures Snapshot() == Initial()
      ensures Reachable(Snapshot())
    {
      accepted := false;
      noCount := 0;
      yesScale := 1.0;
    }

    /** `handleNoClick`: plays `pop`, counts the decline and grows the Yes button. */
    method HandleNoClick() returns (cue: Cue)
      modifies this
      ensures Snapshot() == Decline(old(Snapshot()))
      ensures accepted == old(accepted) && noCount == old(noCount) + 1
      ensures yesScale == old(yesScale) + ScaleStep
      ensures ScaleMatches(Snapshot()) <==> old(ScaleMatches(Snapshot()))
      ensures cue == Pop
    {
      cue := Pop;
      noCount := noCount + 1;
      yesScale := yesScale + 0.4;
    }

    /** `handleYesClick`: plays `ding` and sets accepted; the decline count and scale are untouched. */
    method HandleYesClick() returns (cue: Cue)
      modifies this
      ensures Snapshot() == Accept(old(Snapshot()))
      ensures accepted && noCount == old(noCount) && yesScale == old(yesScale)
      ensures cue == Ding
    {
      cue := Ding;
      accepted := true;
    }

    /** A click on button `b` of whatever App currently renders. */
    method Click(b: Button) returns (cues: seq<Cue>)
      modifies this
      ensures Snapshot() == Step(old(Snapshot()), b)
      ensures cues == Cues(old(Snapshot()), b)
      ensures old(Reachable(Snapshot())) ==> Reachable(Snapshot())
    {
      cues := [];
      if !accepted {
        match b
        case NoButton =>
          if noCount < 4 {
            var cue := HandleNoClick();
            cues := [cue];
          }
        case YesButton =>
          var cue := HandleYesClick();
          cues := [cue, Success];
      }
      ghost var was := old(Snapshot());
      if Reachable(was) {
        StepKeepsReachable(was, b);
      }
    }
  }
}
