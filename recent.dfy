/**
 * The recently visited projects of app/routes/project.py: a comma-joined cookie named
 * after the user holds at most five project ids, most recent first; the project page
 * is shown, and the cookie rewritten, only to participants of an existing project.
 */
module RecentProjects {
  import opened Common
  import opened Models

  const QueueSize: nat := 5

  /** `get_recent_projects_cookie_name`. */
  function CookieName(username: string): (name: string)
    ensures |name| == |username| + 7 && name[..7] == "recent-" && name[7..] == username
  {
    "recent-" + username
  }

  /** Distinct users have distinct recent-projects cookies. */
  lemma CookieNamesAreDistinct(a: string, b: string)
    requires a != b
    ensures CookieName(a) != CookieName(b)
  {
    assert CookieName(a)[7..] == a;
  }

  predicate CommaFree(pieces: seq<string>)
  {
    forall i :: 0 <= i < |pieces| ==> ',' !in pieces[i]
  }

  /** `",".join(pieces)`. */
  function Join(pieces: seq<string>): (s: string)
    ensures |pieces| == 1 ==> s == pieces[0]
    decreases |pieces|
  {
    if |pieces| == 0 then ""
    else if |pieces| == 1 then pieces[0]
    else pieces[0] + "," + Join(pieces[1..])
  }

  /** `s.split(",")`: the pieces between commas, the empty string giving one empty piece. */
  function Split(s: string): (pieces: seq<string>)
    ensures |pieces| >= 1 && CommaFree(pieces)
    ensures Join(pieces) == s
    decreases |s|
  {
    if |s| == 0 then [""]
    else if s[0] == ',' then
      var rest := Split(s[1..]);
      assert Join([""] + rest) == "" + "," + Join(rest) by {
        assert ([""] + rest)[1..] == rest;
      }
      [""] + rest
    else
      var rest := Split(s[1..]);
      var pieces := [[s[0]] + rest[0]] + rest[1..];
      assert ',' !in [s[0]] + rest[0];
      assert Join(pieces) == s by {
        if |rest| > 1 {
          assert pieces[1..] == rest[1..];
          assert Join(rest) == rest[0] + "," + Join(rest[1..]);
        }
        assert s == [s[0]] + s[1..];
      }
      pieces
  }

  /** Splitting a comma-free prefix followed by more text extends the first piece. */
  lemma {:induction false} SplitCommaFreePrefix(a: string, t: string)
    requires ',' !in a
    ensures Split(a + t) == [a + Split(t)[0]] + Split(t)[1..]
    decreases |a|
  {
    if |a| > 0 {
      SplitCommaFreePrefix(a[1..], t);
      assert (a + t)[0] == a[0] && a[0] != ',';
      assert (a + t)[1..] == a[1..] + t;
      var rest := Split(a[1..] + t);
      assert Split(a + t) == [[a[0]] + rest[0]] + rest[1..];
      assert [a[0]] + (a[1..] + Split(t)[0]) == a + Split(t)[0];
    } else {
      assert a + t == t;
      assert a + Split(t)[0] == Split(t)[0];
      assert Split(t) == [Split(t)[0]] + Split(t)[1..];
    }
  }

  lemma SplitLeadingComma(t: string)
    ensures Split("," + t) == [""] + Split(t)
  {
    assert ("," + t)[1..] == t;
  }

  /** Splitting undoes joining, for a non-empty list of comma-free pieces. */
  lemma {:induction false} SplitJoin(pieces: seq<string>)
    requires |pieces| >= 1 && CommaFree(pieces)
    ensures Split(Join(pieces)) == pieces
    decreases |pieces|
  {
    if |pieces| == 1 {
      SplitCommaFreePrefix(pieces[0], "");
      assert pieces[0] + "" == pieces[0];
    } else {
      var head, rest := pieces[0], pieces[1..];
      var tail := Join(rest);
      SplitJoin(rest);
      JoinCons(pieces);
      SplitCommaFreePrefix(head, "," + tail);
      SplitLeadingComma(tail);
      var after := Split("," + tail);
      assert after == [""] + rest;
      assert after[0] == "" && after[1..] == rest;
      assert Split(Join(pieces)) == [head + ""] + rest;
      assert head + "" == head;
      assert [head] + rest == pieces;
    }
  }

  lemma JoinCons(pieces: seq<string>)
    requires |pieces| >= 2
    ensures Join(pieces) == pieces[0] + ("," + Join(pieces[1..]))
  {
  }

  /** Joining gives the empty string only for the empty list and the list holding one empty id. */
  lemma JoinIsEmpty(pieces: seq<string>)
    ensures Join(pieces) == "" <==> pieces == [] || pieces == [""]
  {
    if |pieces| > 1 {
      assert |Join(pieces)| >= 1;
    }
  }

  /**
   * `get_recent_projects_ids`: a missing or empty cookie gives no ids; otherwise the first
   * `QueueSize` comma-separated pieces, in order.
   */
  function ParseIds(cookie: Option<string>): (ids: seq<string>)
    ensures |ids| <= QueueSize && CommaFree(ids)
    ensures cookie.None? || cookie.value == "" ==> ids == []
    ensures cookie.Some? && cookie.value != "" ==>
      |ids| >= 1 && ids <= Split(cookie.value) && (|ids| < QueueSize ==> ids == Split(cookie.value))
  {
    if cookie.Some? && cookie.value != "" then
      var pieces := Split(cookie.value);
      if |pieces| <= QueueSize then pieces else pieces[..QueueSize]
    else []
  }

  /** A cookie of at most five pieces is read back whole. */
  lemma ParseShortCookie(cookie: string)
    requires |Split(cookie)| <= QueueSize
    ensures Join(ParseIds(Some(cookie))) == cookie
  {
  }

  /** Parsing the joined list gives back any list of at most five comma-free ids other than `[""]`. */
  lemma JoinThenParse(ids: seq<string>)
    requires |ids| <= QueueSize && CommaFree(ids) && ids != [""]
    ensures ParseIds(Some(Join(ids))) == ids
  {
    JoinIsEmpty(ids);
    if ids != [] {
      SplitJoin(ids);
    }
  }

  predicate NoDuplicates(s: seq<string>)
  {
    forall i, j :: 0 <= i < j < |s| ==> s[i] != s[j]
  }

  /** The index of the first occurrence of `x`, where `list.remove` deletes. */
  function FirstIndex(s: seq<string>, x: string): (i: nat)
    requires x in s
    ensures i < |s| && s[i] == x && forall j :: 0 <= j < i ==> s[j] != x
  {
    if s[0] == x then 0 else 1 + FirstIndex(s[1..], x)
  }

  /** `s` without its first occurrence of `x` (`list.remove`). */
  function RemoveFirst(s: seq<string>, x: string): (r: seq<string>)
    requires x in s
    ensures |r| == |s| - 1 && multiset(r) == multiset(s) - multiset{x}
    ensures forall k :: 0 <= k < FirstIndex(s, x) ==> r[k] == s[k]
    ensures forall k :: FirstIndex(s, x) <= k < |r| ==> r[k] == s[k + 1]
  {
    var i := FirstIndex(s, x);
    assert s == s[..i] + [x] + s[i + 1..];
    s[..i] + s[i + 1..]
  }

  /** The elements of `s` other than `x`, in their order. */
  function Without(s: seq<string>, x: string): (r: seq<string>)
    ensures x !in r && |r| <= |s|
    ensures forall y :: y in r <==> y in s && y != x
  {
    if |s| == 0 then [] else if s[0] == x then Without(s[1..], x) else [s[0]] + Without(s[1..], x)
  }

  /** Without duplicates, removing the first occurrence removes every occurrence, keeping the order of the rest. */
  lemma {:induction false} RemoveFirstIsWithout(s: seq<string>, x: string)
    requires x in s && NoDuplicates(s)
    ensures RemoveFirst(s, x) == Without(s, x)
    decreases |s|
  {
    if s[0] == x {
      assert x !in s[1..];
      WithoutAbsent(s[1..], x);
    } else {
      RemoveFirstIsWithout(s[1..], x);
      assert FirstIndex(s, x) == 1 + FirstIndex(s[1..], x);
      var i := FirstIndex(s[1..], x);
      assert s[1..][..i] + s[1..][i + 1..] == Without(s[1..], x);
      assert s[..i + 1] == [s[0]] + s[1..][..i];
      assert s[i + 2..] == s[1..][i + 1..];
    }
  }

  lemma {:induction false} WithoutAbsent(s: seq<string>, x: string)
    requires x !in s
    ensures Without(s, x) == s
    decreases |s|
  {
    if |s| > 0 {
      WithoutAbsent(s[1..], x);
      assert [s[0]] + s[1..] == s;
    }
  }

  /**
   * The list after visiting `id`: a tracked id is moved to the front; a new id is put in front,
   * and only when the list is already full is its last (least recent) entry evicted.
   */
  function Rotated(recent: seq<string>, id: string): (r: seq<string>)
    ensures |r| >= 1 && r[0] == id
    ensures id in recent ==> |r| == |recent| && multiset(r) == multiset(recent)
    ensures id !in recent && |recent| >= QueueSize ==> r == [id] + recent[..|recent| - 1]
    ensures id !in recent && |recent| < QueueSize ==> r == [id] + recent && |r| == |recent| + 1
    ensures |recent| <= QueueSize ==> |r| <= QueueSize
    ensures id !in recent && |recent| == QueueSize ==> |r| == QueueSize
  {
    if id in recent then [id] + RemoveFirst(recent, id)
    else if |recent| >= QueueSize then [id] + recent[..|recent| - 1]
    else [id] + recent
  }

  /** Removing one copy of `x` leaves the other elements, in their order, as they were. */
  lemma {:induction false} WithoutRemoveFirst(s: seq<string>, x: string)
    requires x in s
    ensures Without(RemoveFirst(s, x), x) == Without(s, x)
    decreases |s|
  {
    if s[0] == x {
      assert RemoveFirst(s, x) == s[1..];
      assert Without(s, x) == Without(s[1..], x);
    } else {
      RemoveFirstCons(s, x);
      WithoutRemoveFirst(s[1..], x);
      assert ([s[0]] + RemoveFirst(s[1..], x))[1..] == RemoveFirst(s[1..], x);
    }
  }

  lemma RemoveFirstCons(s: seq<string>, x: string)
    requires x in s && s[0] != x
    ensures RemoveFirst(s, x) == [s[0]] + RemoveFirst(s[1..], x)
  {
    var i := FirstIndex(s[1..], x);
    assert FirstIndex(s, x) == 1 + i;
    assert s[..i + 1] == [s[0]] + s[1..][..i];
    assert s[i + 2..] == s[1..][i + 1..];
  }

  /**
   * Revisiting a tracked id keeps the other ids in their relative order, even when a
   * client-held cookie repeats ids.
   */
  lemma RotatedKeepsOthersInOrder(recent: seq<string>, id: string)
    requires id in recent
    ensures Without(Rotated(recent, id), id) == Without(recent, id)
  {
    var r := Rotated(recent, id);
    assert r[1..] == RemoveFirst(recent, id);
    assert Without(r, id) == Without(r[1..], id);
    WithoutRemoveFirst(recent, id);
  }

  /** Revisiting a tracked id keeps every other id, in the same relative order, each once. */
  lemma RotatedPromotes(recent: seq<string>, id: string)
    requires id in recent && NoDuplicates(recent)
    ensures Rotated(recent, id) == [id] + Without(recent, id)
    ensures NoDuplicates(Rotated(recent, id))
  {
    RemoveFirstIsWithout(recent, id);
    WithoutKeepsNoDuplicates(recent, id);
  }

  lemma {:induction false} WithoutKeepsNoDuplicates(s: seq<string>, x: string)
    requires NoDuplicates(s)
    ensures NoDuplicates(Without(s, x))
    decreases |s|
  {
    if |s| > 0 {
      WithoutKeepsNoDuplicates(s[1..], x);
      assert s[0] !in s[1..];
    }
  }

  /** Rotation keeps a duplicate-free list duplicate-free. */
  lemma RotatedKeepsNoDuplicates(recent: seq<string>, id: string)
    requires NoDuplicates(recent)
    ensures NoDuplicates(Rotated(recent, id))
  {
    if id in recent {
      RotatedPromotes(recent, id);
    } else if |recent| >= QueueSize {
      assert forall y :: y in recent[..|recent| - 1] ==> y in recent;
    }
  }

  /** Visiting the same project twice in a row changes nothing the second time. */
  lemma RotatedIsIdempotent(recent: seq<string>, id: string)
    ensures Rotated(Rotated(recent, id), id) == Rotated(recent, id)
  {
    var r := Rotated(recent, id);
    assert FirstIndex(r, id) == 0;
    assert RemoveFirst(r, id) == r[1..];
  }

  /** The list after visiting each of `visits` in turn. */
  function RotatedAll(recent: seq<string>, visits: seq<string>): (r: seq<string>)
    decreases |visits|
  {
    if |visits| == 0 then recent else RotatedAll(Rotated(recent, visits[0]), visits[1..])
  }

  /** However many projects are visited, a list of at most five ids never grows beyond five. */
  lemma {:induction false} RotationsStayBounded(recent: seq<string>, visits: seq<string>)
    requires |recent| <= QueueSize
    ensures |RotatedAll(recent, visits)| <= QueueSize
    decreases |visits|
  {
    if |visits| > 0 {
      RotationsStayBounded(Rotated(recent, visits[0]), visits[1..]);
    }
  }

  /** However many projects are visited, a duplicate-free list stays duplicate-free. */
  lemma {:induction false} RotationsKeepNoDuplicates(recent: seq<string>, visits: seq<string>)
    requires NoDuplicates(recent)
    ensures NoDuplicates(RotatedAll(recent, visits))
    decreases |visits|
  {
    if |visits| > 0 {
      RotatedKeepsNoDuplicates(recent, visits[0]);
      RotationsKeepNoDuplicates(Rotated(recent, visits[0]), visits[1..]);
    }
  }

  /** Revisiting "a" after "b" moves it to the front without duplicating it. */
  lemma RevisitExample()
    ensures RotatedAll([], ["a", "b", "a"]) == ["a", "b"]
  {
    assert Rotated([], "a") == ["a"];
    assert Rotated(["a"], "b") == ["b", "a"];
    assert FirstIndex(["b", "a"], "a") == 1;
    assert Rotated(["b", "a"], "a") == ["a", "b"];
  }

  /** A new id on a full list evicts the least recent entry. */
  lemma EvictionExample()
    ensures Rotated(["a", "b", "c", "d", "e"], "f") == ["f", "a", "b", "c", "d"]
  {
    assert "f" !in ["a", "b", "c", "d", "e"];
  }

  /** A Python `list[str]` object: it is changed in place and shared by reference. */
  class IdList {
    var items: seq<string>

    constructor (items: seq<string>)
      ensures this.items == items
    {
      this.items := items;
    }
  }

  /** `rotate_recent_projects_ids`: changes the caller's list in place and returns that same list. */
  method RotateRecentProjectsIds(recent: IdList, projectId: string) returns (r: IdList)
    modifies recent
    ensures r == recent
    ensures recent.items == Rotated(old(recent.items), projectId)
  {
    if projectId !in recent.items {
      if |recent.items| >= QueueSize {
        // del recent_projects[-1]
        recent.items := recent.items[..|recent.items| - 1];
      }
    } else {
      // recent_projects.remove(project_id)
      var i := FirstIndex(recent.items, projectId);
      recent.items := recent.items[..i] + recent.items[i + 1..];
    }
    // recent_projects.insert(0, project_id)
    recent.items := [projectId] + recent.items;
    r := recent;
  }

  /** The projects among `projects` whose id is `id`, in their order. */
  function Matching(projects: seq<Project>, id: string): (r: seq<Project>)
    ensures forall p :: p in r <==> p in projects && p.id == id
  {
    if |projects| == 0 then []
    else if projects[0].id == id then [projects[0]] + Matching(projects[1..], id)
    else Matching(projects[1..], id)
  }

  /**
   * `get_recent_projects`: for each id in order, every project of the user's participant projects
   * (`current_user.projects`) with that id.
   */
  function RecentProjectsOf(ids: seq<string>, userProjects: seq<Project>): (r: seq<Project>)
    ensures forall p :: p in r <==> p in userProjects && p.id in ids
    decreases |ids|
  {
    if |ids| == 0 then []
    else
      var r := Matching(userProjects, ids[0]) + RecentProjectsOf(ids[1..], userProjects);
      assert forall x :: x in ids <==> x == ids[0] || x in ids[1..];
      r
  }

  /** The lookup keeps the order of the ids: ids listed first give the first projects. */
  lemma {:induction false} RecentProjectsOfAppend(a: seq<string>, b: seq<string>, userProjects: seq<Project>)
    ensures RecentProjectsOf(a + b, userProjects) == RecentProjectsOf(a, userProjects) + RecentProjectsOf(b, userProjects)
    decreases |a|
  {
    if |a| > 0 {
      RecentProjectsOfAppend(a[1..], b, userProjects);
      assert (a + b)[1..] == a[1..] + b;
    } else {
      assert a + b == b;
    }
  }

  /** An id that matches none of the user's projects is dropped without an error. */
  lemma UnknownIdIsDropped(a: seq<string>, id: string, b: seq<string>, userProjects: seq<Project>)
    requires forall p :: p in userProjects ==> p.id != id
    ensures RecentProjectsOf(a + [id] + b, userProjects) == RecentProjectsOf(a + b, userProjects)
  {
    RecentProjectsOfAppend(a + [id], b, userProjects);
    RecentProjectsOfAppend(a, [id], userProjects);
    RecentProjectsOfAppend(a, b, userProjects);
    var none := Matching(userProjects, id);
    NoMatchingProjects(userProjects, id);
    assert [id][1..] == [];
    assert RecentProjectsOf([id], userProjects) == none + RecentProjectsOf([], userProjects);
    assert RecentProjectsOf([id], userProjects) == [];
    assert RecentProjectsOf(a, userProjects) + [] == RecentProjectsOf(a, userProjects);
  }

  lemma {:induction false} NoMatchingProjects(projects: seq<Project>, id: string)
    requires forall p :: p in projects ==> p.id != id
    ensures Matching(projects, id) == []
    decreases |projects|
  {
    if |projects| > 0 {
      assert projects[0] in projects;
      assert forall p :: p in projects[1..] ==> p in projects;
      NoMatchingProjects(projects[1..], id);
    }
  }

  /** A repeated id is not deduplicated: its projects appear once per occurrence. */
  lemma RepeatedIdRepeatsProjects(id: string, userProjects: seq<Project>)
    ensures RecentProjectsOf([id, id], userProjects) == Matching(userProjects, id) + Matching(userProjects, id)
  {
    var m := Matching(userProjects, id);
    assert [id, id][1..] == [id];
    assert [id][1..] == [];
    assert RecentProjectsOf([id], userProjects) == m + [];
    assert m + [] == m;
  }

  /** The signed-in user may see the project: it exists and the user is one of its participants. */
  function CanView(projects: map<string, Project>, user: User, projectId: string): (r: bool)
    ensures r ==> projectId in projects && |projects[projectId].participants| > 0
  {
    projectId in projects && user.id in projects[projectId].participants
  }

  /** Owning a project is not enough to see it: only the participant list is consulted. */
  lemma OwnershipAloneGrantsNothing(user: User)
    ensures
      var p := Project("k", "name", None, user.id, []);
      p.ownerId == user.id && !CanView(map["k" := p], user, "k")
  {
  }

  /** Every project `Project.add` creates is visible to its owner. */
  lemma CreatorCanView(projects: map<string, Project>, name: string, description: Option<string>,
                       owner: User, key1: string, key2: string)
    requires forall k :: k in projects ==> projects[k].id == k
    ensures var out := TwoAttemptInsert(projects, Draft(name, description, owner), key1, key2);
      out.0.Some? ==> CanView(out.1, owner, out.0.value.id)
  {
    CreatedProjectIsStoredWithOwner(projects, name, description, owner, key1, key2);
  }

  datatype Cookie = Cookie(name: string, value: string, httpOnly: bool, sameSite: string)

  /** The rendered project page: with the project and its participants, or the empty page. */
  datatype Page = ProjectPage(project: Project, participants: seq<int>) | EmptyProjectPage

  datatype Response = Response(page: Page, setCookie: Option<Cookie>)

  /** `request.cookies.get(name)`: the cookie's value, or `None` when the request does not carry it. */
  function CookieValue(cookies: map<string, string>, name: string): (v: Option<string>)
    ensures v.None? <==> name !in cookies
    ensures v.Some? ==> v.value == cookies[name]
  {
    if name in cookies then Some(cookies[name]) else None
  }

  /**
   * The `project(project_id)` route for the signed-in `user` with request cookies `cookies`:
   * a participant of an existing project gets its page and a rewritten recent-projects cookie;
   * anyone else gets the empty page and no cookie.
   */
  method ViewProject(db: Database, user: User, projectId: string, cookies: map<string, string>)
    returns (resp: Response)
    ensures resp.page.ProjectPage? <==> CanView(db.projects, user, projectId)
    ensures resp.page.ProjectPage? ==>
      resp.page.project == db.projects[projectId] && resp.page.participants == db.projects[projectId].participants
    ensures resp.setCookie.Some? <==> CanView(db.projects, user, projectId)
    ensures resp.setCookie.Some? ==>
      var name := CookieName(user.username);
      resp.setCookie.value
        == Cookie(name, Join(Rotated(ParseIds(CookieValue(cookies, name)), projectId)), true, "Lax")
  {
    var project := if projectId in db.projects then Some(db.projects[projectId]) else None;
    if project.Some? && user.id in project.value.participants {
      var page := ProjectPage(project.value, project.value.participants);
      var cookieName := CookieName(user.username);
      var recent := new IdList(ParseIds(CookieValue(cookies, cookieName)));
      recent := RotateRecentProjectsIds(recent, projectId);
      return Response(page, Some(Cookie(cookieName, Join(recent.items), true, "Lax")));
    }
    return Response(EmptyProjectPage, None);
  }

  /** Rotating in a comma-free id keeps a comma-free list comma-free. */
  lemma RotatedKeepsCommaFree(ids: seq<string>, id: string)
    requires CommaFree(ids) && ',' !in id
    ensures CommaFree(Rotated(ids, id))
  {
    var r := Rotated(ids, id);
    forall i | 0 <= i < |r| ensures ',' !in r[i] {
      if i > 0 {
        if id in ids {
          var k := FirstIndex(ids, id);
          assert r[1..] == RemoveFirst(ids, id);
          assert r[i] == ids[if i - 1 < k then i - 1 else i];
        } else {
          assert r[i] == ids[i - 1];
        }
      }
    }
  }

  /**
   * The cookie written after a visit is read back on the next request as exactly the rotated list,
   * when the visited id is non-empty and comma-free, as every generated key is.
   */
  lemma {:induction false} WrittenCookieReadsBack(cookie: Option<string>, projectId: string)
    requires projectId != "" && ',' !in projectId
    ensures ParseIds(Some(Join(Rotated(ParseIds(cookie), projectId)))) == Rotated(ParseIds(cookie), projectId)
  {
    var r := Rotated(ParseIds(cookie), projectId);
    RotatedKeepsCommaFree(ParseIds(cookie), projectId);
    assert r != [""];
    JoinThenParse(r);
  }
}
