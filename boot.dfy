/** The boot screen (src/components/BootSequence.tsx): five scripted messages appear one per
    timer, then a 20-block progress bar fills over four seconds.

    BootSequencer holds the component's state.  A timer firing is a call of MessageTick; the
    animation frames of the progress bar are the elapsed times, in milliseconds, at which the
    browser calls back, so that the frame loop is a loop over that sequence.  The readouts
    under the bar are pure functions of the integer progress. */
module Boot {

  /** One entry of the script: the line, how long to wait before showing it, and the status
      printed after it (empty for none). */
  datatype BootMessage = BootMessage(text: string, delay: nat, status: string)

  /** What is kept of a message once it is on screen. */
  datatype Line = Line(text: string, status: string)

  const BootMessages: seq<BootMessage> := [
    BootMessage("> Verificando integridad de la memoria...", 500, "OK"),
    BootMessage("> Accediendo a memorias del sistema...", 800, "OK"),
    BootMessage("> Desencriptando datos emocionales...", 1200, "PROCESANDO"),
    BootMessage("> Localizando shared_photos.zip...", 600, ""),
    BootMessage("> Montando sentimental_drive_01...", 900, "")
  ]

  /** The pause before the progress bar starts once the script is exhausted (line 33). */
  const ProgressStartDelay: nat := 500

  /** The length of the progress animation in milliseconds (line 52). */
  const Duration: nat := 4000

  /** The number of blocks in the bar (line 158). */
  const BlockCount: nat := 20

  function Shown(m: BootMessage): (l: Line)
    ensures l.text == m.text && l.status == m.status
  {
    Line(m.text, m.status)
  }

  /** The lines on screen after the given messages have appeared. */
  function Lines(ms: seq<BootMessage>): (r: seq<Line>)
    ensures |r| == |ms|
    ensures forall i :: 0 <= i < |ms| ==> r[i] == Shown(ms[i])
  {
    seq(|ms|, i requires 0 <= i < |ms| => Shown(ms[i]))
  }

  /** Showing one more message appends exactly its line. */
  lemma LinesGrow(ms: seq<BootMessage>, k: nat)
    requires k < |ms|
    ensures Lines(ms[..k + 1]) == Lines(ms[..k]) + [Shown(ms[k])]
  {
    var a := Lines(ms[..k + 1]);
    var b := Lines(ms[..k]) + [Shown(ms[k])];
    assert |a| == |b|;
    forall i | 0 <= i < |a|
      ensures a[i] == b[i]
    {
      if i < k {
        assert ms[..k + 1][i] == ms[..k][i];
      }
    }
  }

  class BootSequencer {
    const messages: seq<BootMessage>
    var currentMessageIndex: nat
    var displayedMessages: seq<Line>
    var progress: int

    /** The lines on screen are always the first currentMessageIndex messages of the
        script, in order. */
    ghost predicate Valid()
      reads this
    {
      currentMessageIndex <= |messages|
      && displayedMessages == Lines(messages[..currentMessageIndex])
    }

    constructor ()
      ensures Valid()
      ensures messages == BootMessages && currentMessageIndex == 0 && displayedMessages == []
      ensures progress == 0
    {
      messages := BootMessages;
      currentMessageIndex := 0;
      displayedMessages := [];
      progress := 0;
    }

    /** What the message effect schedules for the current index: the next message after its
        delay, or, once the script is exhausted, the progress bar after 500 ms. */
    method NextTimer() returns (delay: nat, startsProgress: bool)
      ensures startsProgress <==> currentMessageIndex >= |messages|
      ensures !startsProgress ==> delay == messages[currentMessageIndex].delay
      ensures startsProgress ==> delay == ProgressStartDelay
    {
      if currentMessageIndex >= |messages| {
        delay, startsProgress := ProgressStartDelay, true;
      } else {
        delay, startsProgress := messages[currentMessageIndex].delay, false;
      }
    }

    /** The message timer fires: the scheduled message is appended and the index moves on.
        Once the script is exhausted no timer is scheduled, so a tick then changes nothing. */
    method MessageTick()
      requires Valid()
      modifies this
      ensures Valid()
      ensures old(currentMessageIndex) < |messages| ==>
        currentMessageIndex == old(currentMessageIndex) + 1
        && displayedMessages == old(displayedMessages) + [Shown(messages[old(currentMessageIndex)])]
      ensures old(currentMessageIndex) >= |messages| ==>
        currentMessageIndex == old(currentMessageIndex) && displayedMessages == old(displayedMessages)
      ensures progress == old(progress)
    {
      if currentMessageIndex < |messages| {
        var message := messages[currentMessageIndex];
        LinesGrow(messages, currentMessageIndex);
        displayedMessages := displayedMessages + [Shown(message)];
        currentMessageIndex := currentMessageIndex + 1;
      }
    }

    /** The progress section is rendered once every message is on screen (line 149). */
    method ProgressBarShown() returns (shown: bool)
      requires Valid()
      ensures shown <==> displayedMessages == Lines(messages)
    {
      shown := currentMessageIndex >= |messages|;
      assert messages[..|messages|] == messages;
      if !shown {
        assert |displayedMessages| < |messages|;
      }
    }

    /** The frame loop of animateProgressBar over the elapsed times of successive frames.
        Every frame shows ProgressAt of its elapsed time; the loop asks for another frame
        while the elapsed time is under the duration, and otherwise schedules the
        "awaiting input" prompt. */
    method AnimateProgressBar(frames: seq<nat>) returns (shown: seq<int>, awaitingScheduled: bool)
      modifies this
      ensures |shown| <= |frames|
      ensures forall k :: 0 <= k < |shown| ==> shown[k] == ProgressAt(frames[k])
      ensures forall k :: 0 <= k < |shown| ==> 0 <= shown[k] <= 100
      ensures forall k :: 0 <= k < |shown| - 1 ==> frames[k] < Duration
      ensures awaitingScheduled <==> exists k :: 0 <= k < |frames| && frames[k] >= Duration
      ensures awaitingScheduled ==> 0 < |shown| && frames[|shown| - 1] >= Duration
      ensures !awaitingScheduled ==> |shown| == |frames|
      ensures progress == if shown == [] then old(progress) else shown[|shown| - 1]
      ensures currentMessageIndex == old(currentMessageIndex)
      ensures displayedMessages == old(displayedMessages)
    {
      shown := [];
      awaitingScheduled := false;
      var i := 0;
      while i < |frames| && !awaitingScheduled
        invariant 0 <= i <= |frames| && |shown| == i
        invariant forall k :: 0 <= k < i ==> shown[k] == ProgressAt(frames[k])
        invariant forall k :: 0 <= k < i - 1 ==> frames[k] < Duration
        invariant awaitingScheduled <==> 0 < i && frames[i - 1] >= Duration
        invariant !awaitingScheduled ==> forall k :: 0 <= k < i ==> frames[k] < Duration
        invariant progress == if shown == [] then old(progress) else shown[i - 1]
        invariant currentMessageIndex == old(currentMessageIndex)
        invariant displayedMessages == old(displayedMessages)
        decreases |frames| - i
      {
        var elapsed := frames[i];
        var current := ProgressAt(elapsed);
        progress := current;
        shown := shown + [current];
        if elapsed >= Duration {
          awaitingScheduled := true;
        }
        i := i + 1;
      }
    }
  }

  // -------------------------------------------------------------------------------------
  // The progress value and the readouts derived from it

  /** Math.round(Math.min(100, elapsed / duration * 100)), on exact rationals: elapsed/40 is
      clamped to 100 and rounded half up. */
  function ProgressAt(elapsed: nat): (r: int)
    ensures 0 <= r <= 100
    ensures elapsed >= Duration ==> r == 100
    ensures elapsed < Duration ==> 40 * r - 20 <= elapsed < 40 * r + 20
  {
    if elapsed >= Duration then 100 else (elapsed + 20) / 40
  }

  /** The shown progress never falls as time goes on, and reads 100 from 3980 ms on, that is
      before the loop stops. */
  lemma ProgressMonotone(a: nat, b: nat)
    requires a <= b
    ensures ProgressAt(a) <= ProgressAt(b)
    ensures ProgressAt(b) == 100 <==> b >= 3980
  {
  }

  /** getBlocksCount: how many of the 20 blocks are lit. */
  function BlocksCount(progress: int): (r: int)
    ensures 5 * r <= progress < 5 * r + 5
    ensures 0 <= progress <= 100 ==> 0 <= r <= BlockCount
  {
    progress / 5
  }

  /** Block i is lit (line 163). */
  predicate Lit(progress: int, i: nat) {
    i < BlocksCount(progress)
  }

  /** The bar, block by block. */
  function LitRow(progress: int): (row: seq<bool>)
    ensures |row| == BlockCount
    ensures forall i :: 0 <= i < BlockCount ==> row[i] == Lit(progress, i)
  {
    seq(BlockCount, i requires 0 <= i < BlockCount => Lit(progress, i))
  }

  function Repeat(b: bool, n: nat): (r: seq<bool>)
    ensures |r| == n && forall i :: 0 <= i < n ==> r[i] == b
  {
    seq(n, _ => b)
  }

  /** The lit blocks are a prefix of the bar: BlocksCount(progress) lit, then the rest dark. */
  lemma LitBlocksArePrefix(progress: int)
    requires 0 <= progress <= 100
    ensures var k := BlocksCount(progress);
      LitRow(progress) == Repeat(true, k) + Repeat(false, BlockCount - k)
  {
    var k := BlocksCount(progress);
    var a := LitRow(progress);
    var b := Repeat(true, k) + Repeat(false, BlockCount - k);
    forall i | 0 <= i < BlockCount
      ensures a[i] == b[i]
    {
      if i < k {
        assert b[i] == Repeat(true, k)[i];
      } else {
        assert b[i] == Repeat(false, BlockCount - k)[i - k];
      }
    }
  }

  /** More progress never turns a block off. */
  lemma LitMonotone(p: int, q: int, i: nat)
    requires p <= q && Lit(p, i)
    ensures Lit(q, i)
  {
  }

  /** The seconds estimate, Math.max(0, Math.ceil((100 - progress) / 25)); the ceiling of an
      integer quotient is written with floor division on the negated numerator. */
  function EstSeconds(progress: int): (r: int)
    ensures r >= 0
    ensures r == 0 <==> progress >= 100
    ensures r > 0 ==> 25 * (r - 1) < 100 - progress <= 25 * r
  {
    var est := -((progress - 100) / 25);
    if est < 0 then 0 else est
  }

  /** On the bar's range the estimate is between 0 and 4 seconds, and 0 only when full. */
  lemma EstimateRange(progress: int)
    requires 0 <= progress <= 100
    ensures 0 <= EstSeconds(progress) <= 4
    ensures EstSeconds(progress) == 0 <==> progress == 100
  {
  }

  /** The estimate never grows as the bar fills. */
  lemma EstimateMonotone(p: int, q: int)
    requires p <= q
    ensures EstSeconds(q) <= EstSeconds(p)
  {
  }
}
