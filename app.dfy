/** The page shell (src/components/SurpriseCardApp.tsx): a phase that runs boot, then trivia,
    then reveal, and a global mute flag.

    The two completion handlers set the phase unconditionally.  The order comes only from the
    wiring: each handler is passed to the one child that is mounted in its phase.  The pure
    part below states that wiring as "a completion is accepted only from the mounted child";
    the class App holds the two state variables and its handlers are exactly the source's. */
module SurpriseCard {

  datatype Phase = Boot | Trivia | Reveal

  /** The three children the shell can mount. */
  datatype Child = BootSequence | TriviaGate | BirthdayCard

  /** The position of a phase in the intended order boot < trivia < reveal. */
  function Rank(p: Phase): (r: nat)
    ensures r <= 2
    ensures p == Boot <==> r == 0
    ensures p == Reveal <==> r == 2
  {
    match p
    case Boot => 0
    case Trivia => 1
    case Reveal => 2
  }

  /** Child c is mounted in phase p (lines 37, 45 and 53). */
  predicate Mounted(p: Phase, c: Child) {
    (p == Boot && c == BootSequence)
    || (p == Trivia && c == TriviaGate)
    || (p == Reveal && c == BirthdayCard)
  }

  /** The child shown in each phase. */
  function ChildFor(p: Phase): (c: Child)
    ensures Mounted(p, c)
  {
    match p
    case Boot => BootSequence
    case Trivia => TriviaGate
    case Reveal => BirthdayCard
  }

  /** Exactly one child is mounted in every phase, and different phases mount different
      children. */
  lemma ExactlyOneChild(p: Phase, c: Child)
    ensures Mounted(p, c) <==> c == ChildFor(p)
    ensures forall q :: Mounted(q, c) && Mounted(p, c) ==> p == q
  {
  }

  /** The mute button is rendered in the two terminal phases and not in the reveal. */
  predicate MuteButtonShown(p: Phase) {
    p != Reveal
  }

  datatype Shell = Shell(phase: Phase, muted: bool)

  /** The state on mount: phase boot, sound on. */
  function Initial(): (s: Shell)
    ensures s.phase == Boot && !s.muted
  {
    Shell(Boot, false)
  }

  /** handleBootComplete: the phase becomes trivia, from whatever it was. */
  function BootComplete(s: Shell): (r: Shell)
    ensures r.phase == Trivia && r.muted == s.muted
  {
    s.(phase := Trivia)
  }

  /** handleTriviaComplete: the phase becomes reveal, from whatever it was. */
  function TriviaComplete(s: Shell): (r: Shell)
    ensures r.phase == Reveal && r.muted == s.muted
  {
    s.(phase := Reveal)
  }

  /** toggleMute. */
  function ToggleMute(s: Shell): (r: Shell)
    ensures r.phase == s.phase && r.muted == !s.muted
  {
    s.(muted := !s.muted)
  }

  /** What reaches the shell: a child calling the onComplete it was given, or a click on the
      mute button. */
  datatype Event = Completed(from: Child) | MuteClicked

  /** An event takes effect only when its source is on screen.  The birthday card is given
      no onComplete, so its events change nothing. */
  function Deliver(s: Shell, e: Event): (r: Shell)
    ensures r.phase != s.phase ==> e.Completed? && Mounted(s.phase, e.from)
    ensures r.muted != s.muted ==> e == MuteClicked && MuteButtonShown(s.phase)
  {
    match e
    case Completed(c) =>
      if !Mounted(s.phase, c) then s
      else if c == BootSequence then BootComplete(s)
      else if c == TriviaGate then TriviaComplete(s)
      else s
    case MuteClicked =>
      if MuteButtonShown(s.phase) then ToggleMute(s) else s
  }

  /** The events delivered in order.  Along any run the phase never goes back:
      boot <= trivia <= reveal. */
  function Run(s: Shell, events: seq<Event>): (r: Shell)
    ensures Rank(s.phase) <= Rank(r.phase)
    decreases |events|
  {
    if events == [] then s
    else
      DeliverForward(s, events[0]);
      Run(Deliver(s, events[0]), events[1..])
  }

  /** Each event moves the phase at most one place forward, never back. */
  lemma DeliverForward(s: Shell, e: Event)
    ensures Rank(s.phase) <= Rank(Deliver(s, e).phase) <= Rank(s.phase) + 1
    ensures e.MuteClicked? ==> Deliver(s, e).phase == s.phase
  {
  }

  /** Once in the reveal, nothing changes any more: the mute button is gone and the birthday
      card signals nothing. */
  lemma {:induction false} RevealIsTerminal(s: Shell, events: seq<Event>)
    requires s.phase == Reveal
    ensures Run(s, events) == s
    decreases |events|
  {
    if events != [] {
      assert Deliver(s, events[0]) == s;
      RevealIsTerminal(s, events[1..]);
    }
  }

  /** The trivia cannot be skipped: a boot-phase shell reaches the reveal only through the
      trivia phase, since a single event moves at most one phase. */
  lemma NoSkip(s: Shell, e: Event)
    requires s.phase == Boot
    ensures Deliver(s, e).phase != Reveal
  {
    DeliverForward(s, e);
  }

  /** The boot sequence finishing, then the trivia finishing, leads to the reveal. */
  lemma HappyPath()
    ensures Run(Initial(), [Completed(BootSequence)]).phase == Trivia
    ensures Run(Initial(), [Completed(BootSequence), Completed(TriviaGate)]).phase == Reveal
  {
    var es := [Completed(BootSequence), Completed(TriviaGate)];
    assert es[1..][1..] == [];
  }

  /** A completion from a child that is not mounted is ignored. */
  lemma StrayCompletionIgnored(s: Shell, c: Child)
    requires !Mounted(s.phase, c)
    ensures Deliver(s, Completed(c)) == s
  {
  }

  /** Toggling mute negates the flag and keeps the phase; toggling twice changes nothing. */
  lemma MuteInvolution(s: Shell)
    ensures ToggleMute(s).phase == s.phase && ToggleMute(s).muted != s.muted
    ensures ToggleMute(ToggleMute(s)) == s
  {
  }

  /** The mute flag only changes on a click the shell can receive. */
  lemma MuteOnlyByButton(s: Shell, e: Event)
    ensures Deliver(s, e).muted != s.muted <==> e == MuteClicked && MuteButtonShown(s.phase)
  {
  }

  /** The component, with its two state variables. */
  class App {
    var currentPhase: Phase
    var isMuted: bool

    ghost function State(): Shell
      reads this
    {
      Shell(currentPhase, isMuted)
    }

    constructor ()
      ensures State() == Initial()
    {
      currentPhase := Boot;
      isMuted := false;
    }

    method HandleBootComplete()
      modifies this
      ensures State() == BootComplete(old(State()))
    {
      currentPhase := Trivia;
    }

    method HandleTriviaComplete()
      modifies this
      ensures State() == TriviaComplete(old(State()))
    {
      currentPhase := Reveal;
    }

    method ToggleMuteClick()
      modifies this
      ensures State() == ToggleMute(old(State()))
    {
      isMuted := !isMuted;
    }

    /** The child the render selects. */
    method RenderedChild() returns (c: Child)
      ensures Mounted(currentPhase, c)
    {
      if currentPhase == Boot {
        c := BootSequence;
      } else if currentPhase == Trivia {
        c := TriviaGate;
      } else {
        c := BirthdayCard;
      }
    }

    /** Whether the mute button is rendered (line 27). */
    method ShowsMuteButton() returns (shown: bool)
      ensures shown <==> currentPhase != Reveal
    {
      shown := currentPhase != Reveal;
    }

    /** Hands an event to the handler it is wired to, if its source is on screen. */
    method Dispatch(e: Event)
      modifies this
      ensures State() == Deliver(old(State()), e)
    {
      match e {
        case Completed(c) =>
          var mounted := RenderedChild();
          if c == mounted {
            if c == BootSequence {
              HandleBootComplete();
            } else if c == TriviaGate {
              HandleTriviaComplete();
            }
          }
        case MuteClicked =>
          var shown := ShowsMuteButton();
          if shown {
            ToggleMuteClick();
          }
      }
    }
  }
}
