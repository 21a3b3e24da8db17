/**
 * The marks a user puts on questions: a question is unmarked, completed or
 * under review. Marks are kept per question position, keyed by the
 * project's id and the question's index.
 */
module Marks {
  import opened Session

  /** The two values ever stored: 'completed' and 'review'. */
  datatype Tag = Completed | Review

  /**
   * The key `${projectId}-${questionIdx}`; the index is written in decimal
   * after the last '-', so distinct positions give distinct keys.
   */
  datatype MarkKey = MarkKey(projectId: string, questionIdx: nat)

  /**
   * `toggleState(t)` on `key`: a mark equal to `t` is removed, anything else
   * (no mark, the other tag) becomes `t`; no other key changes.
   */
  function Toggle(marks: map<MarkKey, Tag>, key: MarkKey, t: Tag): (r: map<MarkKey, Tag>)
    ensures key in r <==> !(key in marks && marks[key] == t)
    ensures key in r ==> r[key] == t
    ensures forall k :: k != key ==> (k in r <==> k in marks)
    ensures forall k :: k != key && k in r ==> r[k] == marks[k]
  {
    if key in marks && marks[key] == t then marks - {key} else marks[key := t]
  }

  /**
   * Toggling one tag twice restores the marks when the key was unmarked or
   * held that tag; when it held the other tag, the key ends up unmarked.
   */
  lemma ToggleTwice(marks: map<MarkKey, Tag>, key: MarkKey, t: Tag)
    ensures key !in marks || marks[key] == t ==> Toggle(Toggle(marks, key, t), key, t) == marks
    ensures key in marks && marks[key] != t ==> Toggle(Toggle(marks, key, t), key, t) == marks - {key}
  {
  }

  /** Toggling one tag and then the other leaves the key holding the second, overwriting rather than stacking. */
  lemma ToggleOverwrites(marks: map<MarkKey, Tag>, key: MarkKey, t: Tag, u: Tag)
    requires t != u
    ensures Toggle(Toggle(marks, key, t), key, u) == marks[key := u]
  {
  }

  /** The keys of the first `n` questions of the project with id `id`. */
  function QuestionKeys(id: string, n: nat): (keys: set<MarkKey>)
    ensures forall k :: k in keys <==> k.projectId == id && k.questionIdx < n
    ensures |keys| == n
  {
    if n == 0 then {} else QuestionKeys(id, n - 1) + {MarkKey(id, n - 1)}
  }

  /** `key` names a question position of the session: one of its projects, an index below that project's size. */
  ghost predicate NamesPosition(session: seq<SessionProject>, key: MarkKey)
  {
    exists i :: 0 <= i < |session| && key.projectId == session[i].id && key.questionIdx < |session[i].resolvedQuestions|
  }

  /** A position of a prefix of the session is a position of the session. */
  lemma PrefixPosition(session: seq<SessionProject>, n: nat, key: MarkKey)
    requires n <= |session| && NamesPosition(session[..n], key)
    ensures NamesPosition(session, key)
  {
    var i :| 0 <= i < n && key.projectId == session[..n][i].id && key.questionIdx < |session[..n][i].resolvedQuestions|;
    assert session[..n][i] == session[i];
  }

  /** The keys of a prefix's positions and of the last project's questions all name positions of the session. */
  lemma AppendPositions(session: seq<SessionProject>, front: set<MarkKey>, last: set<MarkKey>)
    requires |session| > 0
    requires forall k :: k in front ==> NamesPosition(session[..|session| - 1], k)
    requires forall k :: k in last ==>
      k.projectId == session[|session| - 1].id && k.questionIdx < |session[|session| - 1].resolvedQuestions|
    ensures forall k :: k in front + last ==> NamesPosition(session, k)
  {
    forall k | k in front + last ensures NamesPosition(session, k) {
      if k in front {
        PrefixPosition(session, |session| - 1, k);
      }
    }
  }

  /** The keys of a prefix's positions and of the last project's questions cover every position of the session. */
  lemma AppendCovers(session: seq<SessionProject>, front: set<MarkKey>, last: set<MarkKey>)
    requires |session| > 0
    requires var p := session[..|session| - 1];
      forall i, j :: 0 <= i < |p| && 0 <= j < |p[i].resolvedQuestions| ==> MarkKey(p[i].id, j) in front
    requires last == QuestionKeys(session[|session| - 1].id, |session[|session| - 1].resolvedQuestions|)
    ensures forall i, j :: 0 <= i < |session| && 0 <= j < |session[i].resolvedQuestions| ==>
      MarkKey(session[i].id, j) in front + last
  {
    var p := session[..|session| - 1];
    forall i, j | 0 <= i < |session| - 1 && 0 <= j < |session[i].resolvedQuestions|
      ensures MarkKey(session[i].id, j) in front
    {
      assert p[i] == session[i];
    }
  }

  /** Every key that names a question position of the session, and no other key. */
  function SessionKeys(session: seq<SessionProject>): (keys: set<MarkKey>)
    ensures forall i, j :: 0 <= i < |session| && 0 <= j < |session[i].resolvedQuestions| ==>
      MarkKey(session[i].id, j) in keys
    ensures forall k :: k in keys ==> NamesPosition(session, k)
  {
    if session == [] then {}
    else
      var n := |session| - 1;
      var front := SessionKeys(session[..n]);
      var last := QuestionKeys(session[n].id, |session[n].resolvedQuestions|);
      AppendCovers(session, front, last);
      AppendPositions(session, front, last);
      front + last
  }

  /** Every marked key names a question position of the session. */
  ghost predicate MarksInBounds(marks: map<MarkKey, Tag>, session: seq<SessionProject>)
  {
    marks.Keys <= SessionKeys(session)
  }

  /** Toggling the mark of a position of the session keeps every mark in bounds. */
  lemma ToggleInBounds(marks: map<MarkKey, Tag>, session: seq<SessionProject>, key: MarkKey, t: Tag)
    requires MarksInBounds(marks, session) && key in SessionKeys(session)
    ensures MarksInBounds(Toggle(marks, key, t), session)
  {
  }
}
