/** `GET /api/classmates/{user_id}`: students of the requester's school, other than the
    requester, who take at least one of the requester's subjects, each with the subjects shared. */
module Classmates {
  import opened Results
  import opened Records
  import Seqs

  /** One entry of the reply. */
  datatype Classmate = Classmate(id: string, name: string, gradeLevel: string, sharedClasses: seq<string>)

  /** `[cls["subject"] for cls in classes]` */
  function Subjects(classes: seq<ClassSchedule>): (r: seq<string>)
    ensures |r| == |classes|
    ensures forall i :: 0 <= i < |classes| ==> r[i] == classes[i].subject
  {
    seq(|classes|, i requires 0 <= i < |classes| => classes[i].subject)
  }

  /** What the last class of a non-empty run contributes. */
  function SharedLast(classes: seq<ClassSchedule>, subjects: seq<string>): seq<string>
    requires classes != []
  {
    var last := classes[|classes| - 1];
    if last.subject in subjects then [last.subject] else []
  }

  /** The subjects of `classes`, in their order and with repeats, that occur in `subjects`. */
  function SharedSubjects(classes: seq<ClassSchedule>, subjects: seq<string>): (r: seq<string>)
    ensures |r| <= |classes|
    ensures forall s :: s in r ==> s in subjects
    ensures forall i :: 0 <= i < |classes| && classes[i].subject in subjects ==> classes[i].subject in r
  {
    if classes == [] then []
    else
      SharedSubjects(classes[..|classes| - 1], subjects) + SharedLast(classes, subjects)
  }

  /** Each subject the requester takes is kept as often as the classes list it, and no
      other subject is kept. */
  lemma {:induction false} SharedSubjectsCount(classes: seq<ClassSchedule>, subjects: seq<string>)
    ensures forall x :: multiset(SharedSubjects(classes, subjects))[x]
                     == if x in subjects then multiset(Subjects(classes))[x] else 0
  {
    if classes != [] {
      var init := classes[..|classes| - 1];
      assert Subjects(classes) == Subjects(init) + [classes[|classes| - 1].subject];
      SharedSubjectsCount(init, subjects);
    }
  }

  /** The shared subjects of two runs of classes are those of the first, then those of the
      second: the filter keeps the classes' order. */
  lemma {:induction false} SharedSubjectsAppend(a: seq<ClassSchedule>, b: seq<ClassSchedule>, subjects: seq<string>)
    ensures SharedSubjects(a + b, subjects) == SharedSubjects(a, subjects) + SharedSubjects(b, subjects)
  {
    if b == [] {
      assert a + b == a;
    } else {
      var init := b[..|b| - 1];
      var tail := SharedLast(b, subjects);
      assert (a + b)[..|a + b| - 1] == a + init;
      assert SharedSubjects(a + b, subjects) == SharedSubjects(a + init, subjects) + tail;
      SharedSubjectsAppend(a, init, subjects);
      Seqs.Associative(SharedSubjects(a, subjects), SharedSubjects(init, subjects), tail);
    }
  }

  /** The storage query: `{"school_id": school, "id": {"$ne": user_id}, "classes.subject": {"$in": subjects}}`. */
  predicate MatchesQuery(u: User, schoolId: string, userId: string, subjects: seq<string>) {
    && u.schoolId == schoolId
    && u.id != userId
    && exists i :: 0 <= i < |u.classes| && u.classes[i].subject in subjects
  }

  /** The users the query returns, in the collection's natural order. */
  function Candidates(users: seq<User>, schoolId: string, userId: string, subjects: seq<string>): (r: seq<User>)
    ensures forall u :: u in r ==> u in users && MatchesQuery(u, schoolId, userId, subjects)
    ensures forall u :: u in users && MatchesQuery(u, schoolId, userId, subjects) ==> u in r
  {
    if users == [] then []
    else
      var last := users[|users| - 1];
      assert forall u :: u in users ==> u in users[..|users| - 1] || u == last;
      Candidates(users[..|users| - 1], schoolId, userId, subjects) + (if MatchesQuery(last, schoolId, userId, subjects) then [last] else [])
  }

  /** The reply entry for one candidate. */
  function Summary(u: User, subjects: seq<string>): Classmate {
    Classmate(u.id, u.name, u.gradeLevel, SharedSubjects(u.classes, subjects))
  }

  /** The reply: 404 for an unknown requester, else one summary per candidate, in query order. */
  function ClassmatesOf(users: seq<User>, userId: string): (r: Result<seq<Classmate>>)
    ensures r.Err? <==> FindUser(users, userId).None?
    ensures r.Err? ==> r.error == NotFound("User not found")
  {
    match FindUser(users, userId)
    case None => Err(NotFound("User not found"))
    case Some(user) =>
      var subjects := Subjects(user.classes);
      var found := Candidates(users, user.schoolId, userId, subjects);
      Ok(seq(|found|, i requires 0 <= i < |found| => Summary(found[i], subjects)))
  }

  /** The handler, with its two loops: over the candidates, and over each candidate's classes. */
  method GetClassmates(users: seq<User>, userId: string) returns (r: Result<seq<Classmate>>)
    ensures r == ClassmatesOf(users, userId)
  {
    var user := FindUser(users, userId);
    if user.None? {
      return Err(NotFound("User not found"));
    }
    var userSubjects := Subjects(user.value.classes);
    var classmates := Candidates(users, user.value.schoolId, userId, userSubjects);
    var result: seq<Classmate> := [];
    var i := 0;
    while i < |classmates|
      invariant 0 <= i <= |classmates|
      invariant |result| == i
      invariant forall k :: 0 <= k < i ==> result[k] == Summary(classmates[k], userSubjects)
    {
      var classes := classmates[i].classes;
      var shared: seq<string> := [];
      var j := 0;
      while j < |classes|
        invariant 0 <= j <= |classes|
        invariant shared == SharedSubjects(classes[..j], userSubjects)
      {
        if classes[j].subject in userSubjects {
          shared := shared + [classes[j].subject];
        }
        assert classes[..j + 1][..j] == classes[..j];
        j := j + 1;
      }
      assert classes[..j] == classes;
      result := result + [Classmate(classmates[i].id, classmates[i].name, classmates[i].gradeLevel, shared)];
      i := i + 1;
    }
    assert result == seq(|classmates|, k requires 0 <= k < |classmates| => Summary(classmates[k], userSubjects));
    return Ok(result);
  }

  /** Every classmate listed is a stored user of the requester's school, not the requester,
      sharing a non-empty list of subjects that the requester takes. */
  lemma ClassmatesAreFellowStudents(users: seq<User>, userId: string, c: Classmate)
    requires ClassmatesOf(users, userId).Ok? && c in ClassmatesOf(users, userId).value
    ensures exists u ::
              && u in users && u.id == c.id && u.id != userId
              && u.schoolId == FindUser(users, userId).value.schoolId
              && c == Summary(u, Subjects(FindUser(users, userId).value.classes))
    ensures c.sharedClasses != []
    ensures forall s :: s in c.sharedClasses ==> s in Subjects(FindUser(users, userId).value.classes)
  {
    var user := FindUser(users, userId).value;
    var subjects := Subjects(user.classes);
    var found := Candidates(users, user.schoolId, userId, subjects);
    var i :| 0 <= i < |found| && c == Summary(found[i], subjects);
    var u := found[i];
    assert u in found;
    var k :| 0 <= k < |u.classes| && u.classes[k].subject in subjects;
  }

  /** Every stored user the query matches is listed, with exactly their shared subjects. */
  lemma EveryMatchIsListed(users: seq<User>, userId: string, u: User)
    requires FindUser(users, userId).Some?
    requires u in users
    requires MatchesQuery(u, FindUser(users, userId).value.schoolId, userId, Subjects(FindUser(users, userId).value.classes))
    ensures Summary(u, Subjects(FindUser(users, userId).value.classes)) in ClassmatesOf(users, userId).value
  {
    var user := FindUser(users, userId).value;
    var subjects := Subjects(user.classes);
    var found := Candidates(users, user.schoolId, userId, subjects);
    var i :| 0 <= i < |found| && found[i] == u;
    assert ClassmatesOf(users, userId).value[i] == Summary(u, subjects);
  }
}
