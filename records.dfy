/** The stored records the handlers read, and the `find_one` lookup of a user by id. */
module Records {
  import opened Results
  import Seqs

  /** One class of a student's schedule (subject, teacher, period, meeting days, room). */
  datatype ClassSchedule = ClassSchedule(subject: string, teacher: string, period: string, days: seq<string>, room: string)

  /** A registered student as stored in the `users` collection (the unused `gpa` and `created_at` are omitted). */
  datatype User = User(
    id: string,
    name: string,
    email: string,
    schoolId: string,
    schoolType: string,
    gradeLevel: string,
    classes: seq<ClassSchedule>)

  /** `db.users.find_one({"id": id})` over the collection in its natural order: the first user with that id. */
  function FindUser(users: seq<User>, id: string): (r: Option<User>)
    ensures r.None? <==> forall j :: 0 <= j < |users| ==> users[j].id != id
    ensures r.Some? ==> r.value.id == id
    ensures r.Some? ==> exists k :: 0 <= k < |users| && users[k] == r.value && forall j :: 0 <= j < k ==> users[j].id != id
  {
    match Seqs.FirstMatch(users, (u: User) => u.id == id)
    case None => None
    case Some(k) => Some(users[k])
  }
}
