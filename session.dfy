/**
 * The question dataset, the practice mode selected by the query string, and
 * the session that the simulator builds once when it starts: every project of
 * the mode with one randomly chosen variant per question.
 */
module Session {
  import opened Wrappers

  /** A question of the dataset: a stable id and its interchangeable phrasings. */
  datatype Question = Question(id: string, variants: seq<string>)

  /** The one variant a session shows for a question. */
  datatype ResolvedQuestion = ResolvedQuestion(id: string, text: string)

  /** A project of the dataset: its exercise workbook and its questions. */
  datatype Project = Project(id: string, name: string, file: string, questions: seq<Question>)

  /** A project as the session holds it: every field of the project plus the resolved questions. */
  datatype SessionProject = SessionProject(
    id: string, name: string, file: string, questions: seq<Question>,
    resolvedQuestions: seq<ResolvedQuestion>)

  datatype Mode = Practice | Challenges | Exam

  /** The dataset, keyed by mode name. */
  datatype Dataset = Dataset(practice: seq<Project>, challenges: seq<Project>, exam: seq<Project>)

  /** The key the dataset uses for a mode. */
  function ModeName(m: Mode): string
  {
    match m
    case Practice => "practice"
    case Challenges => "challenges"
    case Exam => "exam"
  }

  /**
   * The `mode` query parameter, absent when the URL has none: only "challenges"
   * and "exam" are taken as given, everything else falls back to practice.
   */
  function ParseMode(raw: Option<string>): (m: Mode)
    ensures m == Challenges <==> raw == Some("challenges")
    ensures m == Exam <==> raw == Some("exam")
    ensures m == Practice <==> raw != Some("challenges") && raw != Some("exam")
  {
    if raw == Some("challenges") then Challenges
    else if raw == Some("exam") then Exam
    else Practice
  }

  /** Every mode's own name selects that mode again. */
  lemma ParseModeName(m: Mode)
    ensures ParseMode(Some(ModeName(m))) == m
  {
  }

  /** `questionsData[mode]`. */
  function ProjectsFor(data: Dataset, m: Mode): seq<Project>
  {
    match m
    case Practice => data.practice
    case Challenges => data.challenges
    case Exam => data.exam
  }

  /**
   * What the simulator needs of the dataset: at least one project, every
   * project with at least one question, every question with at least one variant.
   */
  ghost predicate WellFormed(projects: seq<Project>)
  {
    && |projects| > 0
    && (forall i :: 0 <= i < |projects| ==> |projects[i].questions| > 0)
    && (forall i, j :: 0 <= i < |projects| && 0 <= j < |projects[i].questions| ==>
          |projects[i].questions[j].variants| > 0)
  }

  /** Random indexes for one project: one index per question, inside that question's variants. */
  ghost predicate PicksFitQuestions(questions: seq<Question>, picks: seq<nat>)
  {
    |picks| == |questions| &&
    forall j :: 0 <= j < |questions| ==> picks[j] < |questions[j].variants|
  }

  /** Random indexes for a whole mode: one row of picks per project. */
  ghost predicate PicksFit(projects: seq<Project>, picks: seq<seq<nat>>)
  {
    |picks| == |projects| &&
    forall i :: 0 <= i < |projects| ==> PicksFitQuestions(projects[i].questions, picks[i])
  }

  /**
   * `pickRandomVariant`: the random draw `Math.floor(Math.random() * n)` is
   * the index `i`, which is always below the number of variants.
   */
  function PickVariant(q: Question, i: nat): (text: string)
    requires i < |q.variants|
    ensures text in q.variants
  {
    q.variants[i]
  }

  /** Resolved questions that keep the questions' ids, in order, each with one of its own variants. */
  ghost predicate ResolvesQuestions(questions: seq<Question>, resolved: seq<ResolvedQuestion>)
  {
    |resolved| == |questions| &&
    forall j :: 0 <= j < |questions| ==>
      resolved[j].id == questions[j].id && resolved[j].text in questions[j].variants
  }

  /** A session for `projects`: one entry per project, in order, fields copied, questions resolved. */
  ghost predicate IsSessionFor(projects: seq<Project>, session: seq<SessionProject>)
  {
    |session| == |projects| &&
    forall i :: 0 <= i < |projects| ==>
      && session[i].id == projects[i].id
      && session[i].name == projects[i].name
      && session[i].file == projects[i].file
      && session[i].questions == projects[i].questions
      && ResolvesQuestions(projects[i].questions, session[i].resolvedQuestions)
  }

  /** What the navigation needs of a session: a project to show, and a question in every project. */
  ghost predicate WellFormedSession(session: seq<SessionProject>)
  {
    |session| > 0 && forall i :: 0 <= i < |session| ==> |session[i].resolvedQuestions| > 0
  }

  /** `project.questions.map(q => ({ id: q.id, text: pickRandomVariant(q) }))`. */
  function ResolveQuestions(questions: seq<Question>, picks: seq<nat>): (r: seq<ResolvedQuestion>)
    requires PicksFitQuestions(questions, picks)
    ensures ResolvesQuestions(questions, r)
  {
    seq(|questions|, j requires 0 <= j < |questions| =>
      ResolvedQuestion(questions[j].id, PickVariant(questions[j], picks[j])))
  }

  /** `{ ...project, resolvedQuestions }`. */
  function ResolveProject(p: Project, picks: seq<nat>): (r: SessionProject)
    requires PicksFitQuestions(p.questions, picks)
    ensures r.id == p.id && r.name == p.name && r.file == p.file && r.questions == p.questions
    ensures ResolvesQuestions(p.questions, r.resolvedQuestions)
  {
    SessionProject(p.id, p.name, p.file, p.questions, ResolveQuestions(p.questions, picks))
  }

  /**
   * `buildSession(mode)`, with the mode's projects passed in and the random
   * draws given as `picks`.
   */
  function BuildSession(projects: seq<Project>, picks: seq<seq<nat>>): (session: seq<SessionProject>)
    requires PicksFit(projects, picks)
    ensures IsSessionFor(projects, session)
    ensures WellFormed(projects) ==> WellFormedSession(session)
  {
    seq(|projects|, i requires 0 <= i < |projects| => ResolveProject(projects[i], picks[i]))
  }

  /** The position of `x` in `s`. */
  function IndexOf(s: seq<string>, x: string): (i: nat)
    requires x in s
    ensures i < |s| && s[i] == x
  {
    if s[0] == x then 0 else 1 + IndexOf(s[1..], x)
  }

  /** Any resolution of a project's questions is the outcome of some random draw. */
  lemma ResolutionReachable(questions: seq<Question>, resolved: seq<ResolvedQuestion>)
    requires ResolvesQuestions(questions, resolved)
    ensures exists picks :: PicksFitQuestions(questions, picks) && ResolveQuestions(questions, picks) == resolved
  {
    var picks := seq(|questions|, j requires 0 <= j < |questions| => IndexOf(questions[j].variants, resolved[j].text));
    assert PicksFitQuestions(questions, picks);
    var r := ResolveQuestions(questions, picks);
    assert |r| == |resolved|;
    forall j | 0 <= j < |r| ensures r[j] == resolved[j] {
      assert r[j].text == questions[j].variants[picks[j]];
    }
  }

  /**
   * The sessions `BuildSession` can produce are exactly the sessions for the
   * projects: every such session is the outcome of some random draw.
   */
  lemma SessionReachable(projects: seq<Project>, session: seq<SessionProject>)
    requires IsSessionFor(projects, session)
    ensures exists picks :: PicksFit(projects, picks) && BuildSession(projects, picks) == session
  {
    var rows: seq<seq<nat>> := [];
    while |rows| < |projects|
      invariant |rows| <= |projects|
      invariant forall i :: 0 <= i < |rows| ==>
        PicksFitQuestions(projects[i].questions, rows[i]) &&
        ResolveQuestions(projects[i].questions, rows[i]) == session[i].resolvedQuestions
    {
      var i := |rows|;
      ResolutionReachable(projects[i].questions, session[i].resolvedQuestions);
      var row :| PicksFitQuestions(projects[i].questions, row) &&
        ResolveQuestions(projects[i].questions, row) == session[i].resolvedQuestions;
      rows := rows + [row];
    }
    var built := BuildSession(projects, rows);
    forall i | 0 <= i < |projects| ensures built[i] == session[i] {
    }
  }

  /** A well-formed dataset admits a draw: the simulator can always start. */
  lemma PicksExist(projects: seq<Project>)
    requires WellFormed(projects)
    ensures exists picks :: PicksFit(projects, picks)
  {
    var picks := seq(|projects|, i requires 0 <= i < |projects| => seq(|projects[i].questions|, j => 0));
    assert PicksFit(projects, picks);
  }
}
