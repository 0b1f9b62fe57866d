/** The trivia gate (src/components/Trivia.tsx): three fixed questions, answered in order,
    with unlimited retries, that signal completion once the last one is answered.

    The component's state is the value Gate.  Every event the page can deliver is a total
    function on Gate; an event arriving while its control is disabled or not shown changes
    nothing.  The four setTimeout continuations of checkAnswer become one pending Timer that
    the event TimerFired runs.  TriviaScreen at the end holds the same state in mutable
    fields, and each of its handlers is specified by the matching function. */
module Trivia {
  import Answer

  datatype Question = Question(id: nat, question: string, hint: string, answer: string, placeholder: string)

  /** The question table, in the order they are asked. */
  const Questions: seq<Question> := [
    Question(1, "¿DÓNDE FUE NUESTRA PRIMERA CITA?",
             "Pista: Creo que no hace falta decir mucho más je.",
             "desire", "ESCRIBE LA UBICACIÓN..."),
    Question(2, "¿CUÁL ES EL PLATO QUE MÁS VECES COMIMOS JUNTOS?",
             "Pista: La pedimos en nuestra primera cita.",
             "pizza", "ESCRIBE LA COMIDA..."),
    Question(3, "¿CUÁL FUE LA PRIMERA CANCIÓN DE EL CUARTETO DE NOS QUE ESCUCHASTE?",
             "Pista: Es para autodedicarse...",
             "habla tu espejo", "ESCRIBE LA CANCIÓN...")
  ]


  datatype Status = Waiting | Correct | Incorrect

  /** The continuation that is scheduled, if any.  AdvanceTimer keeps the question index its
      closure captured, which is what the continuation compares against the last index. */
  datatype Timer =
    | NoTimer
    | AdvanceTimer(captured: nat)   // 800 ms after a correct answer
    | RevealTimer                   // 2000 ms after access is granted
    | CompleteTimer                 // 1000 ms after the destroy animation starts
    | ResetTimer                    // 1500 ms after an incorrect answer

  datatype Gate = Gate(
    quiz: seq<Question>,  // the question table the component reads
    question: nat,        // currentQuestion
    input: string,        // userInput
    status: Status,
    showHint: bool,
    typing: bool,         // isTyping: the question is still being typed out
    accessGranted: bool,  // showAccessGranted
    destroying: bool,     // isDestroying
    timer: Timer,
    completions: nat)     // how many times onComplete has been called

  /** The state after mounting over a non-empty question table: the typing effect has
      started on question 0. */
  function Initial(quiz: seq<Question>): (g: Gate)
    requires quiz != []
    ensures Consistent(g) && g.question == 0 && g.status == Waiting && g.input == ""
    ensures g.completions == 0 && !g.accessGranted
  {
    Gate(quiz, 0, "", Waiting, false, true, false, false, NoTimer, 0)
  }

  /** The index of the last question. */
  function Last(g: Gate): (i: int) {
    |g.quiz| - 1
  }

  /** The states the gate can reach. */
  predicate Consistent(g: Gate) {
    && g.question < |g.quiz|
    && (g.status != Waiting ==> !g.typing)
    && (g.status == Waiting ==> g.timer == NoTimer && !g.accessGranted)
    && (g.status == Incorrect <==> g.timer == ResetTimer)
    && (g.status == Incorrect ==> !g.accessGranted)
    && (g.status == Correct && !g.accessGranted <==> g.timer.AdvanceTimer?)
    && (g.timer.AdvanceTimer? ==> g.timer.captured == g.question)
    && (g.accessGranted ==> g.question == Last(g) && g.status == Correct)
    && (g.timer == RevealTimer ==> g.accessGranted && !g.destroying && g.completions == 0)
    && (g.timer == CompleteTimer ==> g.accessGranted && g.destroying && g.completions == 0)
    && (g.accessGranted && g.timer == NoTimer ==> g.destroying && g.completions == 1)
    && (g.destroying ==> g.accessGranted)
    && (!g.accessGranted ==> !g.destroying && g.completions == 0)
    && g.completions <= 1
  }

  /** The text box accepts keystrokes (line 312): it is shown, the question has been typed
      out and no judgement is on screen. */
  predicate InputEnabled(g: Gate) {
    !g.accessGranted && !g.typing && g.status == Waiting
  }

  /** Enter in the text box and the VERIFICAR button both reach checkAnswer exactly when the
      input is enabled and its trimmed text is not empty (lines 222, 312, 337). */
  predicate CanSubmit(g: Gate) {
    InputEnabled(g) && Answer.Trim(g.input) != []
  }

  /** An answer test: is the typed input right for the expected answer?  The page uses
      Answer.Accepts; the transitions below are stated for any test. */
  type Judge = (string, string) -> bool

  /** checkAnswer's test on the current question. */
  predicate IsRight(judge: Judge, g: Gate)
    requires g.question < |g.quiz|
  {
    judge(g.input, g.quiz[g.question].answer)
  }

  // ---------------------------------------------------------------------------------------
  // Events

  /** handleInputChange. */
  function TypeText(g: Gate, text: string): (r: Gate)
    ensures r.input == (if InputEnabled(g) then text else g.input)
    ensures r.(input := g.input) == g
  {
    if InputEnabled(g) then g.(input := text) else g
  }

  /** Typed.js reports that the question is typed out. */
  function TypingDone(g: Gate): (r: Gate)
    ensures !r.typing && r.(typing := g.typing) == g
  {
    g.(typing := false)
  }

  /** The hint button, shown until access is granted. */
  function ToggleHint(g: Gate): (r: Gate)
    ensures r.showHint != g.showHint <==> !g.accessGranted
    ensures r.(showHint := g.showHint) == g
  {
    if g.accessGranted then g else g.(showHint := !g.showHint)
  }

  /** checkAnswer: judge the input and schedule the matching continuation. */
  function CheckAnswer(judge: Judge, g: Gate): (r: Gate)
    requires g.question < |g.quiz|
    ensures r.status == Correct <==> IsRight(judge, g)
    ensures r.status != Waiting && r.timer != NoTimer
    ensures r.(status := g.status, timer := g.timer) == g
  {
    if IsRight(judge, g) then g.(status := Correct, timer := AdvanceTimer(g.question))
    else g.(status := Incorrect, timer := ResetTimer)
  }

  /** Enter or VERIFICAR: checkAnswer when the control lets it through. */
  function Submit(judge: Judge, g: Gate): (r: Gate)
    requires g.question < |g.quiz|
    ensures !CanSubmit(g) ==> r == g
    ensures CanSubmit(g) ==> r.status != Waiting && r.question == g.question && r.input == g.input
  {
    if CanSubmit(g) then CheckAnswer(judge, g) else g
  }

  /** The pending continuation runs. */
  function Tick(g: Gate): (r: Gate)
    ensures g.timer == NoTimer ==> r == g
    ensures r.question == g.question || (g.timer.AdvanceTimer? && r.question == g.question + 1)
    ensures r.completions == g.completions + (if g.timer == CompleteTimer then 1 else 0)
    ensures r.quiz == g.quiz
  {
    match g.timer
    case NoTimer => g
    case AdvanceTimer(captured) =>
      if captured < Last(g) then
        // the next question is shown, and the typing effect restarts on it
        g.(question := g.question + 1, input := "", showHint := false, status := Waiting,
           typing := true, timer := NoTimer)
      else
        g.(accessGranted := true, timer := RevealTimer)
    case RevealTimer => g.(destroying := true, timer := CompleteTimer)
    case CompleteTimer => g.(completions := g.completions + 1, timer := NoTimer)
    case ResetTimer => g.(status := Waiting, input := "", timer := NoTimer)
  }

  datatype Event = Typed(text: string) | TypingFinished | HintClicked | Submitted | TimerFired

  function Step(judge: Judge, g: Gate, e: Event): (r: Gate)
    requires Consistent(g)
    ensures r.quiz == g.quiz
    ensures e.Typed? || e == TypingFinished || e == HintClicked ==> r.status == g.status
    ensures e != TimerFired ==> r.question == g.question && r.completions == g.completions
  {
    match e
    case Typed(text) => TypeText(g, text)
    case TypingFinished => TypingDone(g)
    case HintClicked => ToggleHint(g)
    case Submitted => Submit(judge, g)
    case TimerFired => Tick(g)
  }

  function Run(judge: Judge, g: Gate, events: seq<Event>): (r: Gate)
    requires Consistent(g)
    ensures Consistent(r)
    decreases |events|
  {
    if events == [] then g
    else
      StepPreservesConsistent(judge, g, events[0]);
      Run(judge, Step(judge, g, events[0]), events[1..])
  }

  // ---------------------------------------------------------------------------------------
  // Properties

  lemma StepPreservesConsistent(judge: Judge, g: Gate, e: Event)
    requires Consistent(g)
    ensures Consistent(Step(judge, g, e))
  {
  }

  /** checkAnswer on an enabled, non-blank input keeps the gate consistent. */
  lemma CheckAnswerConsistent(judge: Judge, g: Gate)
    requires Consistent(g) && CanSubmit(g)
    ensures Consistent(CheckAnswer(judge, g))
  {
  }

  /** The question index moves only when an advance continuation runs, and then by exactly
      one; so it never leaves [0, |quiz|). */
  lemma StepQuestion(judge: Judge, g: Gate, e: Event)
    requires Consistent(g)
    ensures Step(judge, g, e).quiz == g.quiz
    ensures Step(judge, g, e).question == g.question
         || (e == TimerFired && g.timer.AdvanceTimer? && g.question < Last(g)
             && Step(judge, g, e).question == g.question + 1)
  {
  }

  /** The question index never decreases along any run. */
  lemma {:induction false} RunQuestionMonotone(judge: Judge, g: Gate, events: seq<Event>)
    requires Consistent(g)
    ensures Run(judge, g, events).quiz == g.quiz
    ensures g.question <= Run(judge, g, events).question < |g.quiz|
    decreases |events|
  {
    if events != [] {
      StepQuestion(judge, g, events[0]);
      RunQuestionMonotone(judge, Step(judge, g, events[0]), events[1..]);
    }
  }

  /** Once onComplete has been called, no event changes anything, so it is never called
      again. */
  lemma {:induction false} CompletedStaysCompleted(judge: Judge, g: Gate, events: seq<Event>)
    requires Consistent(g) && g.completions == 1
    ensures Run(judge, g, events) == g
    decreases |events|
  {
    if events != [] {
      assert Step(judge, g, events[0]) == g;
      CompletedStaysCompleted(judge, g, events[1..]);
    }
  }

  /** A judgement can start only from Waiting with nothing pending, so no second judgement
      starts while one is on screen. */
  lemma NoJudgementWhilePending(judge: Judge, g: Gate)
    requires Consistent(g) && g.timer != NoTimer
    ensures Submit(judge, g) == g
  {
  }

  /** A blank input (empty after trimming) is never judged. */
  lemma BlankInputNotJudged(judge: Judge, g: Gate)
    requires Consistent(g) && Answer.Trim(g.input) == []
    ensures Submit(judge, g) == g
  {
  }

  /** A correct answer shows Correct and schedules the advance; a wrong one shows Incorrect
      and schedules the reset.  Neither moves the question. */
  lemma SubmitJudges(judge: Judge, g: Gate)
    requires Consistent(g) && CanSubmit(g)
    ensures Submit(judge, g).question == g.question && Submit(judge, g).input == g.input
    ensures IsRight(judge, g) ==> Submit(judge, g).status == Correct && Submit(judge, g).timer == AdvanceTimer(g.question)
    ensures !IsRight(judge, g) ==> Submit(judge, g).status == Incorrect && Submit(judge, g).timer == ResetTimer
  {
  }

  /** After a correct answer with questions remaining, the advance moves to the next question
      with an empty input, the hint hidden and the status back to Waiting. */
  lemma CorrectAdvances(g: Gate)
    requires Consistent(g) && g.status == Correct && !g.accessGranted && g.question < Last(g)
    ensures var h := Tick(g);
      h.question == g.question + 1 && h.input == "" && !h.showHint && h.status == Waiting
      && h.timer == NoTimer && !h.accessGranted && h.typing
  {
  }

  /** A correct answer to the last question keeps the index, grants access, then starts the
      destroy animation, then calls onComplete, one continuation after the other. */
  lemma LastCorrectCompletes(g: Gate)
    requires Consistent(g) && g.status == Correct && !g.accessGranted && g.question == Last(g)
    ensures var h1 := Tick(g);
      h1.question == g.question && h1.accessGranted && !h1.destroying && h1.completions == 0
    ensures var h2 := Tick(Tick(g));
      h2.question == g.question && h2.destroying && h2.completions == 0
    ensures var h3 := Tick(Tick(Tick(g)));
      h3.question == g.question && h3.completions == 1 && h3.timer == NoTimer
  {
  }

  /** After a wrong answer the reset continuation clears the input and returns to Waiting;
      the question never changes on this path. */
  lemma IncorrectResets(g: Gate)
    requires Consistent(g) && g.status == Incorrect
    ensures var h := Tick(g);
      h.question == g.question && h.status == Waiting && h.input == "" && h.timer == NoTimer
  {
  }

  /** The hint button flips showHint and nothing else; two clicks restore the state. */
  lemma HintToggle(g: Gate)
    requires !g.accessGranted
    ensures ToggleHint(g).showHint == !g.showHint
    ensures ToggleHint(g).(showHint := g.showHint) == g
    ensures ToggleHint(ToggleHint(g)) == g
  {
  }

  // ---------------------------------------------------------------------------------------
  // Scenarios

  /** Answering the current question: wait for the typing, type the text, press Enter, let
      the continuation run. */
  function AnswerEvents(text: string): (evs: seq<Event>) {
    [TypingFinished, Typed(text), Submitted, TimerFired]
  }

  lemma {:induction false} RunAppend(judge: Judge, g: Gate, a: seq<Event>, b: seq<Event>)
    requires Consistent(g)
    ensures Run(judge, g, a + b) == Run(judge, Run(judge, g, a), b)
    decreases |a|
  {
    if a == [] {
      assert a + b == b;
    } else {
      assert (a + b)[0] == a[0] && (a + b)[1..] == a[1..] + b;
      RunAppend(judge, Step(judge, g, a[0]), a[1..], b);
    }
  }

  /** One step of a run. */
  lemma RunCons(judge: Judge, g: Gate, e: Event, es: seq<Event>)
    requires Consistent(g)
    ensures Run(judge, g, [e] + es) == Run(judge, Step(judge, g, e), es)
  {
    assert ([e] + es)[1..] == es;
  }

  lemma RunAnswerEvents(judge: Judge, g: Gate, text: string)
    requires Consistent(g)
    ensures Run(judge, g, AnswerEvents(text))
         == Tick(Submit(judge, TypeText(TypingDone(g), text)))
  {
    var g1 := Step(judge, g, TypingFinished);
    StepPreservesConsistent(judge, g, TypingFinished);
    var g2 := Step(judge, g1, Typed(text));
    StepPreservesConsistent(judge, g1, Typed(text));
    var g3 := Step(judge, g2, Submitted);
    StepPreservesConsistent(judge, g2, Submitted);
    var g4 := Step(judge, g3, TimerFired);
    StepPreservesConsistent(judge, g3, TimerFired);
    assert AnswerEvents(text) == [TypingFinished] + ([Typed(text)] + ([Submitted] + ([TimerFired] + [])));
    RunCons(judge, g, TypingFinished, [Typed(text)] + ([Submitted] + ([TimerFired] + [])));
    RunCons(judge, g1, Typed(text), [Submitted] + ([TimerFired] + []));
    RunCons(judge, g2, Submitted, [TimerFired] + []);
    RunCons(judge, g3, TimerFired, []);
  }

  /** From Waiting, an accepted non-blank answer to a question that is not the last moves to
      the next question, Waiting again. */
  lemma AnswerAdvances(judge: Judge, g: Gate, text: string)
    requires Consistent(g) && g.status == Waiting && g.question < Last(g)
    requires Answer.Trim(text) != [] && judge(text, g.quiz[g.question].answer)
    ensures var h := Run(judge, g, AnswerEvents(text));
      h.quiz == g.quiz && h.question == g.question + 1 && h.status == Waiting
      && h.input == "" && h.completions == 0
  {
    RunAnswerEvents(judge, g, text);
  }

  /** From Waiting, an accepted non-blank answer to the last question grants access. */
  lemma AnswerToLastGrants(judge: Judge, g: Gate, text: string)
    requires Consistent(g) && g.status == Waiting && g.question == Last(g)
    requires Answer.Trim(text) != [] && judge(text, g.quiz[g.question].answer)
    ensures var h := Run(judge, g, AnswerEvents(text));
      h.quiz == g.quiz && h.question == g.question && h.accessGranted
      && h.timer == RevealTimer && h.completions == 0
  {
    RunAnswerEvents(judge, g, text);
  }

  /** From Waiting, a rejected non-blank answer keeps the question and, once the reset has
      run, is back at Waiting with an empty input. */
  lemma WrongAnswerRetries(judge: Judge, g: Gate, text: string)
    requires Consistent(g) && g.status == Waiting
    requires Answer.Trim(text) != [] && !judge(text, g.quiz[g.question].answer)
    ensures var h := Run(judge, g, AnswerEvents(text));
      h.quiz == g.quiz && h.question == g.question && h.status == Waiting && h.input == ""
      && !h.typing && h.completions == 0
  {
    RunAnswerEvents(judge, g, text);
  }

  /** A wrong answer followed by the right one: the index stays at 0 after the first try and
      moves to 1 after the second. */
  lemma RetryThenAdvance(judge: Judge, quiz: seq<Question>, wrong: string, right: string)
    requires |quiz| >= 2
    requires Answer.Trim(wrong) != [] && !judge(wrong, quiz[0].answer)
    requires Answer.Trim(right) != [] && judge(right, quiz[0].answer)
    ensures Run(judge, Initial(quiz), AnswerEvents(wrong)).question == 0
    ensures Run(judge, Initial(quiz), AnswerEvents(wrong) + AnswerEvents(right)).question == 1
  {
    var g0 := Initial(quiz);
    WrongAnswerRetries(judge, g0, wrong);
    var g1 := Run(judge, g0, AnswerEvents(wrong));
    AnswerAdvances(judge, g1, right);
    RunAppend(judge, g0, AnswerEvents(wrong), AnswerEvents(right));
  }

  /** Once access is granted, the two continuations that follow start the destroy animation
      and then call onComplete, exactly once. */
  lemma GrantThenComplete(judge: Judge, g: Gate)
    requires Consistent(g) && g.timer == RevealTimer
    ensures var h := Run(judge, g, [TimerFired, TimerFired]);
      h.completions == 1 && h.accessGranted && h.question == g.question && h.timer == NoTimer
  {
    var tail: seq<Event> := [TimerFired, TimerFired];
    assert tail[1..][1..] == [];
  }

  /** The first answer of a script, and the rest. */
  lemma ScriptSplit(judge: Judge, g: Gate, answers: seq<string>, rest: seq<Event>)
    requires Consistent(g) && answers != []
    ensures Run(judge, g, Script(answers) + rest)
         == Run(judge, Run(judge, g, AnswerEvents(answers[0])), Script(answers[1..]) + rest)
  {
    assert Script(answers) + rest == AnswerEvents(answers[0]) + (Script(answers[1..]) + rest);
    RunAppend(judge, g, AnswerEvents(answers[0]), Script(answers[1..]) + rest);
  }

  /** Answering every question correctly in order gives exactly one completion signal. */
  lemma {:induction false} AllAnswersComplete(judge: Judge, g: Gate, answers: seq<string>)
    requires Consistent(g) && g.status == Waiting
    requires |answers| == |g.quiz| - g.question
    requires forall k :: 0 <= k < |answers| ==>
      Answer.Trim(answers[k]) != [] && judge(answers[k], g.quiz[g.question + k].answer)
    ensures var h := Run(judge, g, Script(answers) + [TimerFired, TimerFired]);
      h.completions == 1 && h.accessGranted && h.question == Last(g)
    decreases |answers|
  {
    var rest := [TimerFired, TimerFired];
    ScriptSplit(judge, g, answers, rest);
    var g1 := Run(judge, g, AnswerEvents(answers[0]));
    if g.question == Last(g) {
      AnswerToLastGrants(judge, g, answers[0]);
      assert Script(answers[1..]) + rest == rest;
      GrantThenComplete(judge, g1);
    } else {
      AnswerAdvances(judge, g, answers[0]);
      AnswersShift(judge, g, g1, answers);
      AllAnswersComplete(judge, g1, answers[1..]);
    }
  }

  /** Once the first question is answered, the remaining answers fit the next question on. */
  lemma AnswersShift(judge: Judge, g: Gate, g1: Gate, answers: seq<string>)
    requires g.question < |g.quiz| && g1.quiz == g.quiz && g1.question == g.question + 1
    requires |answers| == |g.quiz| - g.question
    requires forall k :: 0 <= k < |answers| ==>
      Answer.Trim(answers[k]) != [] && judge(answers[k], g.quiz[g.question + k].answer)
    ensures |answers[1..]| == |g1.quiz| - g1.question
    ensures forall k :: 0 <= k < |answers[1..]| ==>
      Answer.Trim(answers[1..][k]) != [] && judge(answers[1..][k], g1.quiz[g1.question + k].answer)
  {
    forall k | 0 <= k < |answers[1..]|
      ensures Answer.Trim(answers[1..][k]) != []
      ensures judge(answers[1..][k], g1.quiz[g1.question + k].answer)
    {
      assert answers[1..][k] == answers[k + 1];
    }
  }

  /** The events that answer each given text in turn. */
  function Script(answers: seq<string>): (evs: seq<Event>)
    decreases |answers|
  {
    if answers == [] then [] else AnswerEvents(answers[0]) + Script(answers[1..])
  }

  /** The expected answers of a question table, in order. */
  function AnswersOf(quiz: seq<Question>): (r: seq<string>)
    ensures |r| == |quiz| && forall k :: 0 <= k < |quiz| ==> r[k] == quiz[k].answer
  {
    seq(|quiz|, k requires 0 <= k < |quiz| => quiz[k].answer)
  }

  /** With the page's answer test, typing each expected answer in turn completes the gate
      exactly once, on any table whose answers are not blank. */
  lemma OwnAnswersComplete(quiz: seq<Question>)
    requires quiz != [] && forall k :: 0 <= k < |quiz| ==> Answer.Trim(quiz[k].answer) != []
    ensures var h := Run(Answer.Accepts, Initial(quiz), Script(AnswersOf(quiz)) + [TimerFired, TimerFired]);
      h.completions == 1 && h.accessGranted && h.question == |quiz| - 1
  {
    var answers := AnswersOf(quiz);
    var judge: Judge := Answer.Accepts;
    var g := Initial(quiz);
    forall k | 0 <= k < |answers|
      ensures Answer.Trim(answers[k]) != [] && judge(answers[k], g.quiz[g.question + k].answer)
    {
      Answer.AnswerAcceptsItself(quiz[k].answer);
    }
    AllAnswersComplete(judge, g, answers);
  }

  /** The expected answers of the page's own table. */
  lemma QuestionsAnswers(quiz: seq<Question>)
    requires quiz == Questions
    ensures AnswersOf(quiz) == ["desire", "pizza", "habla tu espejo"]
  {
  }

  /** The page's own three questions, answered in order with "desire", "pizza" and
      "habla tu espejo", give exactly one completion signal. */
  lemma ThreeAnswersComplete(quiz: seq<Question>)
    requires quiz == Questions
    ensures var h := Run(Answer.Accepts, Initial(quiz), Script(AnswersOf(quiz)) + [TimerFired, TimerFired]);
      h.completions == 1 && h.accessGranted && h.question == 2
  {
    QuestionsAnswers(quiz);
    forall k | 0 <= k < |quiz|
      ensures Answer.Trim(quiz[k].answer) != []
    {
      Answer.NotBlank(quiz[k].answer, 0);
    }
    OwnAnswersComplete(quiz);
  }

  // ---------------------------------------------------------------------------------------
  // The component, with its state in mutable fields

  class TriviaScreen {
    const questions: seq<Question>
    var currentQuestion: nat
    var userInput: string
    var status: Status
    var showHint: bool
    var isTyping: bool
    var showAccessGranted: bool
    var isDestroying: bool
    var pending: Timer
    var completions: nat

    ghost function State(): Gate
      reads this
    {
      Gate(questions, currentQuestion, userInput, status, showHint, isTyping,
           showAccessGranted, isDestroying, pending, completions)
    }

    ghost predicate Valid()
      reads this
    {
      Consistent(State())
    }

    /** Mounting the component over the page's question table. */
    constructor ()
      ensures Valid() && State() == Initial(Questions)
    {
      questions := Questions;
      currentQuestion, userInput, status, showHint := 0, "", Waiting, false;
      isTyping, showAccessGranted, isDestroying := true, false, false;
      pending, completions := NoTimer, 0;
    }

    method HandleInputChange(text: string)
      requires Valid()
      modifies this
      ensures Valid() && State() == TypeText(old(State()), text)
    {
      if !showAccessGranted && !isTyping && status == Waiting {
        userInput := text;
      }
    }

    method TypingComplete()
      requires Valid()
      modifies this
      ensures Valid() && State() == TypingDone(old(State()))
    {
      isTyping := false;
    }

    method HintClick()
      requires Valid()
      modifies this
      ensures Valid() && State() == ToggleHint(old(State()))
    {
      if !showAccessGranted {
        showHint := !showHint;
      }
    }

    method CheckAnswerNow()
      requires Valid() && CanSubmit(State())
      modifies this
      ensures Valid() && State() == CheckAnswer(Answer.Accepts, old(State()))
    {
      ghost var g := State();
      CheckAnswerConsistent(Answer.Accepts, g);
      var userAnswer := Answer.Normalize(userInput);
      var correctAnswer := Answer.Normalize(questions[currentQuestion].answer);
      if Answer.Includes(userAnswer, correctAnswer) {
        status := Correct;
        pending := AdvanceTimer(currentQuestion);
      } else {
        status := Incorrect;
        pending := ResetTimer;
      }
      assert State() == CheckAnswer(Answer.Accepts, g);
    }

    /** handleKeyDown: Enter with a non-blank input that is enabled. */
    method HandleKeyDown(isEnter: bool)
      requires Valid()
      modifies this
      ensures Valid() && State() == if isEnter then Submit(Answer.Accepts, old(State())) else old(State())
    {
      if isEnter && Answer.Trim(userInput) != [] && !showAccessGranted && !isTyping && status == Waiting {
        CheckAnswerNow();
      }
    }

    /** The VERIFICAR button, disabled unless the input is enabled and not blank. */
    method ClickVerify()
      requires Valid()
      modifies this
      ensures Valid() && State() == Submit(Answer.Accepts, old(State()))
    {
      if Answer.Trim(userInput) != [] && !isTyping && status == Waiting && !showAccessGranted {
        CheckAnswerNow();
      }
    }

    /** The pending continuation runs. */
    method TimerFires()
      requires Valid()
      modifies this
      ensures Valid() && State() == Tick(old(State()))
    {
      match pending {
        case NoTimer =>
        case AdvanceTimer(captured) =>
          if captured < |questions| - 1 {
            currentQuestion := currentQuestion + 1;
            userInput := "";
            showHint := false;
            status := Waiting;
            isTyping := true;
            pending := NoTimer;
          } else {
            showAccessGranted := true;
            pending := RevealTimer;
          }
        case RevealTimer =>
          isDestroying := true;
          pending := CompleteTimer;
        case CompleteTimer =>
          completions := completions + 1;
          pending := NoTimer;
        case ResetTimer =>
          status := Waiting;
          userInput := "";
          pending := NoTimer;
      }
    }
  }
}
