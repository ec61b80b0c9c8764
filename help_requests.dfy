/** `GET /api/help-requests`: the stored help requests, optionally of one author, newest
    first, each joined with its author, keeping only those whose author exists and,
    when a school is given, attends it. */
module HelpRequests {
  import opened Results
  import opened Records

  /** A stored help request (the `responses` list is not read here and is omitted). */
  datatype HelpRequest = HelpRequest(
    id: string,
    userId: string,
    title: string,
    subject: string,
    description: string,
    imageUrls: seq<string>,
    status: string,
    createdAt: int)

  /** A listed request with the `user_name` and `user_school` the handler attaches. */
  datatype ListedRequest = ListedRequest(request: HelpRequest, userName: string, userSchool: string)

  /** Python truthiness of an optional query parameter: absent and empty both mean "not given". */
  predicate Given(param: Option<string>) {
    param.Some? && param.value != ""
  }

  /** The storage filter `{"user_id": user_id}`, applied only when `user_id` is given. */
  function Query(stored: seq<HelpRequest>, userId: Option<string>): (r: seq<HelpRequest>)
    ensures forall x :: x in r <==> x in stored && (Given(userId) ==> x.userId == userId.value)
  {
    if stored == [] then []
    else
      var last := stored[|stored| - 1];
      assert forall x :: x in stored <==> x in stored[..|stored| - 1] || x == last;
      Query(stored[..|stored| - 1], userId) + (if !Given(userId) || last.userId == userId.value then [last] else [])
  }

  /** Sorted by `created_at`, newest first. */
  predicate NewestFirst(rs: seq<HelpRequest>) {
    forall i, j :: 0 <= i < j < |rs| ==> rs[i].createdAt >= rs[j].createdAt
  }

  function Insert(x: HelpRequest, rs: seq<HelpRequest>): (r: seq<HelpRequest>)
    requires NewestFirst(rs)
    ensures NewestFirst(r)
    ensures multiset(r) == multiset(rs) + multiset{x}
  {
    if rs == [] || x.createdAt >= rs[0].createdAt then
      [x] + rs
    else
      var rest := Insert(x, rs[1..]);
      HeadPrecedes(rs[0], rs[1..], x, rest);
      assert rs == [rs[0]] + rs[1..];
      [rs[0]] + rest
  }

  /** An element no older than each of `tail` and `x` is no older than any mix of them. */
  lemma HeadPrecedes(head: HelpRequest, tail: seq<HelpRequest>, x: HelpRequest, rest: seq<HelpRequest>)
    requires forall k :: 0 <= k < |tail| ==> head.createdAt >= tail[k].createdAt
    requires head.createdAt >= x.createdAt
    requires multiset(rest) == multiset(tail) + multiset{x}
    ensures forall k :: 0 <= k < |rest| ==> head.createdAt >= rest[k].createdAt
  {
    forall k | 0 <= k < |rest|
      ensures head.createdAt >= rest[k].createdAt
    {
      assert rest[k] in multiset(rest);
      if rest[k] != x {
        assert rest[k] in multiset(tail);
        var m :| 0 <= m < |tail| && tail[m] == rest[k];
      }
    }
  }

  /** `.sort("created_at", -1)`: the order storage returns; requests with equal times keep
      their stored order. */
  function SortNewestFirst(rs: seq<HelpRequest>): (r: seq<HelpRequest>)
    ensures NewestFirst(r)
    ensures multiset(r) == multiset(rs)
  {
    if rs == [] then []
    else
      assert rs == [rs[0]] + rs[1..];
      Insert(rs[0], SortNewestFirst(rs[1..]))
  }

  /** The author the loop attaches: `find_one` by the request's `user_id`, kept only if
      no school is given or the author's school is the one given. */
  function Author(users: seq<User>, request: HelpRequest, schoolId: Option<string>): Option<User> {
    match FindUser(users, request.userId)
    case None => None
    case Some(u) => if !Given(schoolId) || u.schoolId == schoolId.value then Some(u) else None
  }

  /** The requests that gained `user_name`, in the order they came. */
  function Listing(requests: seq<HelpRequest>, users: seq<User>, schoolId: Option<string>): (r: seq<ListedRequest>)
    ensures |r| <= |requests|
    ensures forall x :: x in r ==> x.request in requests
  {
    if requests == [] then []
    else
      var last := requests[|requests| - 1];
      var kept := match Author(users, last, schoolId)
        case None => []
        case Some(u) => [ListedRequest(last, u.name, u.schoolId)];
      Listing(requests[..|requests| - 1], users, schoolId) + kept
  }

  /** The handler's reply. */
  function HelpRequestList(stored: seq<HelpRequest>, users: seq<User>, schoolId: Option<string>, userId: Option<string>): seq<ListedRequest> {
    Listing(SortNewestFirst(Query(stored, userId)), users, schoolId)
  }

  /** The handler: the storage query, then its loop that joins each request with its author. */
  method GetHelpRequests(stored: seq<HelpRequest>, users: seq<User>, schoolId: Option<string>, userId: Option<string>)
    returns (listed: seq<ListedRequest>)
    ensures listed == HelpRequestList(stored, users, schoolId, userId)
  {
    var requests := SortNewestFirst(Query(stored, userId));
    listed := [];
    var i := 0;
    while i < |requests|
      invariant 0 <= i <= |requests|
      invariant listed == Listing(requests[..i], users, schoolId)
    {
      var request := requests[i];
      var user := FindUser(users, request.userId);
      assert requests[..i + 1][..i] == requests[..i];
      if user.Some? && (!Given(schoolId) || user.value.schoolId == schoolId.value) {
        listed := listed + [ListedRequest(request, user.value.name, user.value.schoolId)];
      }
      i := i + 1;
    }
    assert requests[..i] == requests;
  }

  predicate ListedNewestFirst(r: seq<ListedRequest>) {
    forall i, j :: 0 <= i < j < |r| ==> r[i].request.createdAt >= r[j].request.createdAt
  }

  lemma {:induction false} ListingKeepsOrder(requests: seq<HelpRequest>, users: seq<User>, schoolId: Option<string>)
    requires NewestFirst(requests)
    ensures ListedNewestFirst(Listing(requests, users, schoolId))
  {
    if requests != [] {
      var prefix := requests[..|requests| - 1];
      var last := requests[|requests| - 1];
      assert NewestFirst(prefix);
      ListingKeepsOrder(prefix, users, schoolId);
      forall x | x in Listing(prefix, users, schoolId)
        ensures x.request.createdAt >= last.createdAt
      {
        var k :| 0 <= k < |prefix| && prefix[k] == x.request;
      }
    }
  }

  /** The reply is newest first. */
  lemma ListIsNewestFirst(stored: seq<HelpRequest>, users: seq<User>, schoolId: Option<string>, userId: Option<string>)
    ensures ListedNewestFirst(HelpRequestList(stored, users, schoolId, userId))
  {
    ListingKeepsOrder(SortNewestFirst(Query(stored, userId)), users, schoolId);
  }

  lemma {:induction false} ListingSound(requests: seq<HelpRequest>, users: seq<User>, schoolId: Option<string>, x: ListedRequest)
    requires x in Listing(requests, users, schoolId)
    ensures x.request in requests
    ensures Author(users, x.request, schoolId).Some?
    ensures x.userName == Author(users, x.request, schoolId).value.name
    ensures x.userSchool == Author(users, x.request, schoolId).value.schoolId
  {
    var prefix := requests[..|requests| - 1];
    if x !in Listing(prefix, users, schoolId) {
      assert x.request == requests[|requests| - 1];
    } else {
      ListingSound(prefix, users, schoolId, x);
    }
  }

  /** Every listed request is stored, matches the author filter, has an author that
      exists, attends the given school, and is named and placed as that author. */
  lemma ListedRequestsQualify(stored: seq<HelpRequest>, users: seq<User>, schoolId: Option<string>, userId: Option<string>, x: ListedRequest)
    requires x in HelpRequestList(stored, users, schoolId, userId)
    ensures x.request in stored
    ensures Given(userId) ==> x.request.userId == userId.value
    ensures FindUser(users, x.request.userId).Some?
    ensures x.userName == FindUser(users, x.request.userId).value.name
    ensures x.userSchool == FindUser(users, x.request.userId).value.schoolId
    ensures Given(schoolId) ==> x.userSchool == schoolId.value
  {
    var sorted := SortNewestFirst(Query(stored, userId));
    ListingSound(sorted, users, schoolId, x);
    assert x.request in multiset(sorted);
  }

  lemma {:induction false} ListingComplete(requests: seq<HelpRequest>, users: seq<User>, schoolId: Option<string>, req: HelpRequest)
    requires req in requests && Author(users, req, schoolId).Some?
    ensures ListedRequest(req, Author(users, req, schoolId).value.name, Author(users, req, schoolId).value.schoolId)
      in Listing(requests, users, schoolId)
  {
    var prefix := requests[..|requests| - 1];
    if req != requests[|requests| - 1] {
      assert req in prefix;
      ListingComplete(prefix, users, schoolId, req);
    }
  }

  /** Every stored request of the given author (if any) whose author exists and attends
      the given school (if any) is listed. */
  lemma QualifyingRequestsListed(stored: seq<HelpRequest>, users: seq<User>, schoolId: Option<string>, userId: Option<string>, req: HelpRequest)
    requires req in stored && (Given(userId) ==> req.userId == userId.value)
    requires FindUser(users, req.userId).Some?
    requires !Given(schoolId) || FindUser(users, req.userId).value.schoolId == schoolId.value
    ensures ListedRequest(req, FindUser(users, req.userId).value.name, FindUser(users, req.userId).value.schoolId)
      in HelpRequestList(stored, users, schoolId, userId)
  {
    var sorted := SortNewestFirst(Query(stored, userId));
    assert req in multiset(Query(stored, userId));
    assert req in sorted;
    ListingComplete(sorted, users, schoolId, req);
  }
}
