/**
 * The figures of the summary screen: the number of questions in the
 * session, and how many of them are marked completed and under review.
 */
module Summary {
  import opened Session
  import opened Marks

  /** `session.reduce((acc, p) => acc + p.resolvedQuestions.length, 0)`. */
  function TotalQuestions(session: seq<SessionProject>): (total: nat)
    ensures forall i :: 0 <= i < |session| ==> |session[i].resolvedQuestions| <= total
  {
    if session == [] then 0
    else
      var n := |session| - 1;
      assert forall i :: 0 <= i < n ==> session[..n][i] == session[i];
      TotalQuestions(session[..n]) + |session[n].resolvedQuestions|
  }

  /** `Object.values(marks).filter(v => v === t).length`: the keys whose mark is `t`. */
  function CountTag(marks: map<MarkKey, Tag>, t: Tag): (count: nat)
    ensures count <= |marks|
  {
    var tagged := set k | k in marks && marks[k] == t;
    SubsetCardinality(tagged, marks.Keys);
    |tagged|
  }

  /** Only the two tags are ever stored, so the two counts together are the number of marked keys. */
  lemma CountsPartitionMarks(marks: map<MarkKey, Tag>)
    ensures CountTag(marks, Completed) + CountTag(marks, Review) == |marks|
  {
    var c := set k | k in marks && marks[k] == Completed;
    var r := set k | k in marks && marks[k] == Review;
    assert c + r == marks.Keys;
    assert c * r == {};
  }

  /** A session has no more question positions than questions. */
  lemma {:induction false} SessionKeysBound(session: seq<SessionProject>)
    ensures |SessionKeys(session)| <= TotalQuestions(session)
  {
    if session != [] {
      var n := |session| - 1;
      SessionKeysBound(session[..n]);
      var a := SessionKeys(session[..n]);
      var b := QuestionKeys(session[n].id, |session[n].resolvedQuestions|);
      assert |a + b| <= |a| + |b| by { assert |a + b| == |a| + |b| - |a * b|; }
    }
  }

  /**
   * The completed and review counts add up to the number of marked keys,
   * which never exceeds the total when every mark names a position of the session.
   */
  lemma CountsWithinTotal(marks: map<MarkKey, Tag>, session: seq<SessionProject>)
    requires MarksInBounds(marks, session)
    ensures CountTag(marks, Completed) + CountTag(marks, Review) == |marks|
    ensures |marks| <= TotalQuestions(session)
  {
    CountsPartitionMarks(marks);
    SessionKeysBound(session);
    assert |marks.Keys| <= |SessionKeys(session)| by {
      SubsetCardinality(marks.Keys, SessionKeys(session));
    }
  }

  lemma SubsetCardinality<T>(a: set<T>, b: set<T>)
    requires a <= b
    ensures |a| <= |b|
  {
    assert b == a + (b - a);
  }

  /** The total is the sum of the project sizes, whichever way the sequence is cut. */
  lemma {:induction false} TotalAppend(a: seq<SessionProject>, b: seq<SessionProject>)
    ensures TotalQuestions(a + b) == TotalQuestions(a) + TotalQuestions(b)
    decreases |b|
  {
    if b != [] {
      var n := |b| - 1;
      assert (a + b)[..|a + b| - 1] == a + b[..n];
      TotalAppend(a, b[..n]);
    } else {
      assert a + b == a;
    }
  }

  /** The total of a three-project session, project by project. */
  lemma TotalOfThree(session: seq<SessionProject>)
    requires |session| == 3
    ensures TotalQuestions(session) == |session[0].resolvedQuestions| +
      |session[1].resolvedQuestions| + |session[2].resolvedQuestions|
  {
    var two, one := session[..2], session[..1];
    assert two[..1] == one && one[..0] == [];
    assert TotalQuestions(one) == |session[0].resolvedQuestions|;
    assert TotalQuestions(two) == TotalQuestions(one) + |session[1].resolvedQuestions|;
  }
}
