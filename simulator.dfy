/**
 * The simulator page's state: the session built when the page opens, the
 * position (project, question), the marks, the countdown and whether the
 * summary is shown, with one method per button and one for the timer tick.
 */
module Simulator {
  import opened Wrappers
  import opened Session
  import opened Marks
  import Summary
  import Download

  /** The countdown starts at 50 minutes. */
  const InitialSeconds: nat := 50 * 60

  /** One tick of the countdown: the timer only runs while time is left. */
  function TimerStep(s: nat): (next: nat)
    ensures next + 1 == s || next == s == 0
  {
    if s > 0 then s - 1 else 0
  }

  /** The countdown after `n` ticks from `s`. */
  function Ticks(s: nat, n: nat): nat
  {
    if n == 0 then s else TimerStep(Ticks(s, n - 1))
  }

  /**
   * The countdown goes down by one per tick until it reaches zero and then
   * stays there: it never goes negative.
   */
  lemma {:induction false} TicksSaturate(s: nat, n: nat)
    ensures Ticks(s, n) == if n <= s then s - n else 0
  {
    if n > 0 {
      TicksSaturate(s, n - 1);
    }
  }

  class SimulatorContent {
    const mode: Mode
    const session: seq<SessionProject>
    var projectIdx: nat
    var questionIdx: nat
    var questionStates: map<MarkKey, Tag>
    var secondsLeft: nat
    var showSummary: bool
    /** The downloads asked of the browser, oldest first. */
    ghost var downloads: seq<Download.Request>

    /**
     * The page can always show its current project and question, each
     * project's questions are resolved to one of their variants, and every
     * mark names a question.
     */
    ghost predicate Valid()
      reads this
    {
      && WellFormedSession(session)
      && (forall i :: 0 <= i < |session| ==> ResolvesQuestions(session[i].questions, session[i].resolvedQuestions))
      && projectIdx < |session|
      && questionIdx < |session[projectIdx].resolvedQuestions|
      && MarksInBounds(questionStates, session)
    }

    /**
     * The page opening with the `mode` query parameter `rawMode`: the mode is
     * read, the session built, and the page starts on the first question of
     * the first project, with no marks and 50 minutes on the clock.
     */
    constructor (rawMode: Option<string>, data: Dataset, picks: seq<seq<nat>>)
      requires WellFormed(ProjectsFor(data, ParseMode(rawMode)))
      requires PicksFit(ProjectsFor(data, ParseMode(rawMode)), picks)
      ensures Valid()
      ensures mode == ParseMode(rawMode) && session == BuildSession(ProjectsFor(data, mode), picks)
      ensures projectIdx == 0 && questionIdx == 0 && questionStates == map[]
      ensures secondsLeft == InitialSeconds && !showSummary && downloads == []
    {
      mode := ParseMode(rawMode);
      session := BuildSession(ProjectsFor(data, ParseMode(rawMode)), picks);
      projectIdx, questionIdx := 0, 0;
      questionStates := map[];
      secondsLeft := InitialSeconds;
      showSummary := false;
      downloads := [];
    }

    /** `totalQuestions`: the number of questions of the current project. */
    function QuestionCount(): (n: nat)
      reads this
      requires Valid()
      ensures questionIdx < n
    {
      |session[projectIdx].resolvedQuestions|
    }

    /** `currentQuestion`: the question on screen, one of its question's variants. */
    function CurrentQuestion(): (q: ResolvedQuestion)
      reads this
      requires Valid()
      ensures questionIdx < |session[projectIdx].questions|
      ensures q.id == session[projectIdx].questions[questionIdx].id
      ensures q.text in session[projectIdx].questions[questionIdx].variants
    {
      session[projectIdx].resolvedQuestions[questionIdx]
    }

    /** `stateKey`: the key of the question on screen, a position of the session. */
    function StateKey(): (key: MarkKey)
      reads this
      requires Valid()
      ensures key in Marks.SessionKeys(session)
      ensures key.projectId == session[projectIdx].id && key.questionIdx == questionIdx
    {
      MarkKey(session[projectIdx].id, questionIdx)
    }

    /** The page's `downloadFile(filePath)`, recorded instead of handed to the browser. */
    method DownloadFile(filePath: string)
      modifies this`downloads
      ensures downloads == old(downloads) + [Download.RequestFor(filePath)]
    {
      downloads := downloads + [Download.RequestFor(filePath)];
    }

    /** The previous-question arrow: back by one, except on the first question. */
    method Prev()
      requires Valid()
      modifies this`questionIdx
      ensures Valid()
      ensures old(questionIdx) > 0 ==> questionIdx == old(questionIdx) - 1
      ensures old(questionIdx) == 0 ==> questionIdx == 0
    {
      if questionIdx > 0 {
        questionIdx := questionIdx - 1;
      }
    }

    /** The next-question arrow: forward by one, except on the project's last question. */
    method Next()
      requires Valid()
      modifies this`questionIdx
      ensures Valid()
      ensures old(questionIdx) < QuestionCount() - 1 ==> questionIdx == old(questionIdx) + 1
      ensures old(questionIdx) == QuestionCount() - 1 ==> questionIdx == old(questionIdx)
    {
      if questionIdx < |session[projectIdx].resolvedQuestions| - 1 {
        questionIdx := questionIdx + 1;
      }
    }

    /** A question pill: there is one per question of the current project, and it jumps to its question. */
    method SelectQuestion(i: nat)
      requires Valid() && i < QuestionCount()
      modifies this`questionIdx
      ensures Valid() && questionIdx == i
    {
      questionIdx := i;
    }

    /** Mark Complete and Mark for Review: toggle that tag on the question on screen. */
    method ToggleState(t: Tag)
      requires Valid()
      modifies this`questionStates
      ensures Valid()
      ensures questionStates == Toggle(old(questionStates), StateKey(), t)
    {
      var key := MarkKey(session[projectIdx].id, questionIdx);
      ToggleInBounds(questionStates, session, key, t);
      if key in questionStates && questionStates[key] == t {
        questionStates := questionStates - {key};
      } else {
        questionStates := questionStates[key := t];
      }
    }

    /**
     * Submit Project: before the last project, download the next project's
     * workbook and move to its first question; on the last, show the summary.
     * The marks are kept either way.
     */
    method Submit()
      requires Valid()
      modifies this`projectIdx, this`questionIdx, this`showSummary, this`downloads
      ensures Valid()
      ensures old(projectIdx) < |session| - 1 ==>
        && projectIdx == old(projectIdx) + 1 && questionIdx == 0 && showSummary == old(showSummary)
        && downloads == old(downloads) + [Download.RequestFor(session[projectIdx].file)]
      ensures old(projectIdx) == |session| - 1 ==>
        && projectIdx == old(projectIdx) && questionIdx == old(questionIdx)
        && showSummary && downloads == old(downloads)
    {
      if projectIdx < |session| - 1 {
        DownloadFile(session[projectIdx + 1].file);
        projectIdx := projectIdx + 1;
        questionIdx := 0;
      } else {
        showSummary := true;
      }
    }

    /** The download button: the current project's workbook. */
    method DownloadCurrent()
      requires Valid()
      modifies this`downloads
      ensures downloads == old(downloads) + [Download.RequestFor(session[projectIdx].file)]
    {
      DownloadFile(session[projectIdx].file);
    }

    /** Restart Project: back to the first question of the first project, with every mark cleared. */
    method Restart()
      requires Valid()
      modifies this`projectIdx, this`questionIdx, this`questionStates
      ensures Valid()
      ensures projectIdx == 0 && questionIdx == 0 && questionStates == map[]
    {
      projectIdx, questionIdx := 0, 0;
      questionStates := map[];
    }

    /** Go To Summary: shows the summary from any position. */
    method GoToSummary()
      modifies this`showSummary
      ensures showSummary
    {
      showSummary := true;
    }

    /** One second of the countdown; reaching zero forces nothing else. */
    method Tick()
      modifies this`secondsLeft
      ensures secondsLeft == TimerStep(old(secondsLeft))
    {
      if secondsLeft > 0 {
        secondsLeft := secondsLeft - 1;
      }
    }

    /**
     * The summary screen's figures: total questions, completed, under review.
     * The two counts add up to the number of marked questions, which never
     * exceeds the total.
     */
    function Figures(): (f: (nat, nat, nat))
      reads this
      requires Valid()
      ensures f.1 + f.2 == |questionStates| <= f.0
      ensures f.0 == Summary.TotalQuestions(session)
      ensures f.1 == Summary.CountTag(questionStates, Completed)
      ensures f.2 == Summary.CountTag(questionStates, Review)
    {
      Summary.CountsWithinTotal(questionStates, session);
      (Summary.TotalQuestions(session),
       Summary.CountTag(questionStates, Completed),
       Summary.CountTag(questionStates, Review))
    }
  }

  /**
   * An exam session of three projects with 2, 3 and 1 questions and the
   * workbooks `file1` to `file3`, opened from the `exam` link.
   */
  method ExamWalkthrough(file1: string, file2: string, file3: string)
  {
    var q := Question("q", ["text"]);
    var p1 := Project("p1", "One", file1, [q, q]);
    var p2 := Project("p2", "Two", file2, [q, q, q]);
    var p3 := Project("p3", "Three", file3, [q]);
    var data := Dataset([], [], [p1, p2, p3]);
    var picks := [[0, 0], [0, 0, 0], [0]];
    assert ParseMode(Some("exam")) == Exam;
    assert ProjectsFor(data, Exam) == [p1, p2, p3];
    assert WellFormed([p1, p2, p3]) && PicksFit([p1, p2, p3], picks) by {
      assert PicksFitQuestions(p1.questions, picks[0]);
      assert PicksFitQuestions(p2.questions, picks[1]);
      assert PicksFitQuestions(p3.questions, picks[2]);
    }
    var sim := new SimulatorContent(Some("exam"), data, picks);
    assert sim.session[1].id == "p2" && sim.session[1].file == file2;
    WalkthroughFromStart(sim);
  }

  /**
   * From the start of a session whose projects have 2, 3 and 1 questions:
   * two steps forward stop on the last question of the first project,
   * submitting downloads the second project's workbook, and one question
   * marked completed shows as 1 of 6 on the summary.
   */
  method WalkthroughFromStart(sim: SimulatorContent)
    requires sim.Valid() && sim.projectIdx == 0 && sim.questionIdx == 0
    requires sim.questionStates == map[] && sim.downloads == []
    requires |sim.session| == 3
    requires |sim.session[0].resolvedQuestions| == 2
    requires |sim.session[1].resolvedQuestions| == 3
    requires |sim.session[2].resolvedQuestions| == 1
    modifies sim
  {
    sim.Next();
    sim.Next();
    assert sim.projectIdx == 0 && sim.questionIdx == 1;
    sim.Submit();
    assert sim.projectIdx == 1 && sim.questionIdx == 0;
    assert sim.downloads == [Download.RequestFor(sim.session[1].file)];
    sim.ToggleState(Completed);
    var key := MarkKey(sim.session[1].id, 0);
    assert sim.questionStates == map[key := Completed];
    sim.GoToSummary();
    var f := sim.Figures();
    assert Summary.TotalQuestions(sim.session) == 6 by {
      Summary.TotalOfThree(sim.session);
    }
    assert Summary.CountTag(sim.questionStates, Completed) == 1 by {
      assert (set k | k in sim.questionStates && sim.questionStates[k] == Completed) == {key};
    }
    assert Summary.CountTag(sim.questionStates, Review) == 0 by {
      assert (set k | k in sim.questionStates && sim.questionStates[k] == Review) == {};
    }
    assert f == (6, 1, 0);
  }
}
