/**
 * The admin handlers (server/routes/admin.ts). They work on the user
 * registry of the auth routes; the admin check reads the same mock token.
 */
module Admin {
  import opened Common
  import opened Text
  import opened Lists
  import opened Api
  import opened Auth

  /**
   * checkAdminAuth: the requester, when the header starts with "Bearer ",
   * its token names an existing user and that user is an admin.
   */
  function CheckAdminAuth(users: seq<User>, header: Option<string>): (r: Option<User>)
    ensures r.Some? <==>
      && Truthy(header) && StartsWith(header.value, "Bearer ")
      && FindUserById(users, HeaderUserId(header.value)).Some?
      && FindUserById(users, HeaderUserId(header.value)).value.role == "admin"
    ensures r.Some? ==> r.value in users && r.value.role == "admin" && HeaderUserId(header.value) == Some(r.value.id)
  {
    var user := Authenticate(users, header);
    if user.Some? && user.value.role == "admin" then user else None
  }

  // ---------------------------------------------------------------- the user list

  /** The query string of GET /api/admin/users; a missing parameter is None. */
  datatype UserQuery = UserQuery(page: Option<string>, pageSize: Option<string>, search: Option<string>, role: Option<string>)

  /** UserListResponse; `page` and `pageSize` are None where parseInt gives NaN. */
  datatype UserList = UserList(users: seq<User>, total: nat, page: Option<nat>, pageSize: Option<nat>)

  /** The lower-cased search term occurs in the name, email or bio. */
  predicate UserSearchHit(u: User, term: string) {
    Contains(Lower(u.name), term) || Contains(Lower(u.email), term) || Contains(Lower(u.bio), term)
  }

  /** The role filter applies to a truthy role other than "all". */
  predicate RoleFilterOn(q: UserQuery) {
    Truthy(q.role) && q.role.value != "all"
  }

  /** Whether a user belongs to the answer of `q`, both filters at once. */
  predicate UserSelected(q: UserQuery, u: User) {
    && (Truthy(q.search) ==> UserSearchHit(u, Lower(q.search.value)))
    && (RoleFilterOn(q) ==> u.role == q.role.value)
  }

  function UserSelectedBy(q: UserQuery): User -> bool {
    (u: User) => UserSelected(q, u)
  }

  function CreatedAt(): User -> int {
    (u: User) => u.createdAt
  }

  /** The two filters, applied one after the other to the copy of the list, as the handler does. */
  function UserFilterChain(users: seq<User>, q: UserQuery): seq<User> {
    var found := if Truthy(q.search) then Filter(users, (u: User) => UserSearchHit(u, Lower(q.search.value))) else users;
    if RoleFilterOn(q) then Filter(found, (u: User) => u.role == q.role.value) else found
  }

  /** The chained filters keep exactly the users `UserSelected` describes, in their order. */
  lemma UserFilterChainSelects(users: seq<User>, q: UserQuery)
    ensures UserFilterChain(users, q) == Filter(users, UserSelectedBy(q))
  {
    var hit := (u: User) => Truthy(q.search) ==> UserSearchHit(u, Lower(q.search.value));
    var role := (u: User) => RoleFilterOn(q) ==> u.role == q.role.value;
    FilterFilter(users, hit, role, UserSelectedBy(q));
    if Truthy(q.search) {
      FilterSame(users, hit, (u: User) => UserSearchHit(u, Lower(q.search.value)));
    } else {
      FilterAll(users, hit);
    }
    if RoleFilterOn(q) {
      FilterSame(Filter(users, hit), role, (u: User) => u.role == q.role.value);
    } else {
      FilterAll(Filter(users, hit), role);
    }
  }

  /**
   * getAllUsers: 403 for a non-admin; otherwise the selected users, newest
   * first (ties in list order), cut to the page. The registry is only read.
   */
  function GetAllUsers(reg: UserRegistry, header: Option<string>, q: UserQuery): (r: Response<UserList>)
    reads reg
    ensures r.Ok? || r.Forbidden?
    ensures r.Forbidden? <==> CheckAdminAuth(reg.users, header).None?
    ensures r.Ok? ==>
      && r.body.total == |Filter(reg.users, UserSelectedBy(q))|
      && r.body.page == ParseInt(q.page.GetOr("1")) && r.body.pageSize == ParseInt(q.pageSize.GetOr("10"))
      && r.body.users == Paginate(SortDesc(Filter(reg.users, UserSelectedBy(q)), CreatedAt()), r.body.page, r.body.pageSize)
      && (forall u | u in r.body.users :: u in reg.users && UserSelected(q, u))
      && (r.body.pageSize.Some? ==> |r.body.users| <= r.body.pageSize.value)
      && SortedDesc(r.body.users, CreatedAt())
  {
    if CheckAdminAuth(reg.users, header).None? then Forbidden
    else
      var filtered := UserFilterChain(reg.users, q);
      var sorted := SortDesc(filtered, CreatedAt());
      var pageNum := ParseInt(q.page.GetOr("1"));
      var pageSizeNum := ParseInt(q.pageSize.GetOr("10"));
      UserFilterChainSelects(reg.users, q);
      PaginatedSelection(reg.users, UserSelectedBy(q), CreatedAt(), pageNum, pageSizeNum);
      Ok(UserList(Paginate(sorted, pageNum, pageSizeNum), |filtered|, pageNum, pageSizeNum))
  }

  // ---------------------------------------------------------------- statistics

  /** AdminStatsResponse. */
  datatype AdminStats = AdminStats(
    totalUsers: nat,
    totalPosts: nat,
    totalComments: int,
    totalLikes: int,
    recentUsers: seq<User>,
    recentPosts: seq<BlogPost>)

  function Comments(): BlogPost -> int {
    (b: BlogPost) => b.comments
  }

  function Likes(): BlogPost -> int {
    (b: BlogPost) => b.likes
  }

  function PublishedAt(): BlogPost -> int {
    (b: BlogPost) => b.publishedAt.GetOr(0)
  }

  /** `[...users].sort(newest first).slice(0, 5)`: the five newest users, newest first. */
  function RecentUsers(users: seq<User>): (r: seq<User>)
    ensures |r| == Min(5, |users|) && SortedDesc(r, CreatedAt())
    ensures forall u | u in r :: u in users
    ensures multiset(r) <= multiset(users)
    ensures forall x, y | x in users && x !in r && y in r :: y.createdAt >= x.createdAt
  {
    var sorted := SortDesc(users, CreatedAt());
    TakeSortedTop(users, 5, CreatedAt());
    var t := Take(sorted, 5);
    assert forall x, y | x in users && x !in t && y in t :: y.createdAt >= x.createdAt by {
      forall x, y | x in users && x !in t && y in t ensures y.createdAt >= x.createdAt {
        assert CreatedAt()(y) >= CreatedAt()(x);
      }
    }
    TakeSorted(sorted, 5, CreatedAt());
    assert forall u | u in sorted :: u in users by {
      forall u | u in sorted ensures u in users {
        assert u in multiset(sorted);
      }
    }
    Take(sorted, 5)
  }

  /** `[...blogs].sort(newest first).slice(0, 5)`: the five newest posts, newest first. */
  function RecentPosts(blogs: seq<BlogPost>): (r: seq<BlogPost>)
    ensures |r| == Min(5, |blogs|) && SortedDesc(r, PublishedAt())
    ensures forall b | b in r :: b in blogs
    ensures multiset(r) <= multiset(blogs)
    ensures forall x, y | x in blogs && x !in r && y in r :: y.publishedAt.GetOr(0) >= x.publishedAt.GetOr(0)
  {
    var sorted := SortDesc(blogs, PublishedAt());
    TakeSortedTop(blogs, 5, PublishedAt());
    var t := Take(sorted, 5);
    assert forall x, y | x in blogs && x !in t && y in t :: y.publishedAt.GetOr(0) >= x.publishedAt.GetOr(0) by {
      forall x, y | x in blogs && x !in t && y in t ensures y.publishedAt.GetOr(0) >= x.publishedAt.GetOr(0) {
        assert PublishedAt()(y) >= PublishedAt()(x);
      }
    }
    TakeSorted(sorted, 5, PublishedAt());
    assert forall b | b in sorted :: b in blogs by {
      forall b | b in sorted ensures b in blogs {
        assert b in multiset(sorted);
      }
    }
    Take(sorted, 5)
  }

  /**
   * getAdminStats, over the given list of posts: 403 for a non-admin;
   * otherwise the counts, the sums of comments and likes, and the five newest
   * users and posts.
   */
  function GetAdminStats(reg: UserRegistry, header: Option<string>, blogs: seq<BlogPost>): (r: Response<AdminStats>)
    reads reg
    ensures r.Ok? || r.Forbidden?
    ensures r.Forbidden? <==> CheckAdminAuth(reg.users, header).None?
    ensures r.Ok? ==>
      && r.body.totalUsers == |reg.users| && r.body.totalPosts == |blogs|
      && r.body.totalComments == Sum(blogs, Comments()) && r.body.totalLikes == Sum(blogs, Likes())
      && r.body.recentUsers == RecentUsers(reg.users) && r.body.recentPosts == RecentPosts(blogs)
  {
    if CheckAdminAuth(reg.users, header).None? then Forbidden
    else Ok(AdminStats(|reg.users|, |blogs|, Sum(blogs, Comments()), Sum(blogs, Likes()),
                       RecentUsers(reg.users), RecentPosts(blogs)))
  }

  /**
   * The exported data of a module as a dynamic `import` sees it: only the
   * names present are defined, and reading a property of any other is a
   * TypeError.
   */
  type DataExports = map<string, seq<BlogPost>>

  /** `server/routes/blogs.ts` exports its handlers and no data, so not `mockBlogs`. */
  const BlogsDataExports: DataExports := map[]

  /**
   * getAdminStats as written: 403 for a non-admin; otherwise `mockBlogs` is
   * taken from the imported module, and when it is undefined its `.length`
   * throws and the `catch` answers 500.
   */
  function GetAdminStatsImporting(reg: UserRegistry, header: Option<string>, exports: DataExports): (r: Response<AdminStats>)
    reads reg
    ensures r.Forbidden? <==> CheckAdminAuth(reg.users, header).None?
    ensures r.InternalError? <==> CheckAdminAuth(reg.users, header).Some? && "mockBlogs" !in exports
    ensures "mockBlogs" in exports ==> r == GetAdminStats(reg, header, exports["mockBlogs"])
  {
    if CheckAdminAuth(reg.users, header).None? then Forbidden
    else if "mockBlogs" !in exports then InternalError
    else GetAdminStats(reg, header, exports["mockBlogs"])
  }

  /** With the module as it is, no request gets the statistics: an admin gets 500. */
  lemma AdminStatsAsWrittenFails(reg: UserRegistry, header: Option<string>)
    ensures !GetAdminStatsImporting(reg, header, BlogsDataExports).Ok?
    ensures CheckAdminAuth(reg.users, header).Some? ==> GetAdminStatsImporting(reg, header, BlogsDataExports) == InternalError
  {
  }

  /** With no negative counts, both totals are non-negative. */
  lemma StatsTotalsNonNegative(reg: UserRegistry, header: Option<string>, blogs: seq<BlogPost>)
    requires forall i | 0 <= i < |blogs| :: blogs[i].comments >= 0 && blogs[i].likes >= 0
    requires GetAdminStats(reg, header, blogs).Ok?
    ensures GetAdminStats(reg, header, blogs).body.totalComments >= 0
    ensures GetAdminStats(reg, header, blogs).body.totalLikes >= 0
  {
    SumNonNegative(blogs, Comments());
    SumNonNegative(blogs, Likes());
  }

  // ---------------------------------------------------------------- changes to the registry

  /** `users.splice(k, 1)`. */
  function RemoveAt(users: seq<User>, k: nat): (r: seq<User>)
    requires k < |users|
    ensures |r| == |users| - 1
    ensures forall i | 0 <= i < k :: r[i] == users[i]
    ensures forall i | k <= i < |r| :: r[i] == users[i + 1]
  {
    users[..k] + users[k + 1..]
  }

  /** With distinct ids, removing the user at `k` leaves nobody with its id, and keeps the invariant. */
  lemma RemoveAtValid(users: seq<User>, passwords: map<string, string>, nextUserId: nat, k: nat)
    requires ValidUsers(users, passwords, nextUserId) && k < |users|
    ensures ValidUsers(RemoveAt(users, k), passwords, nextUserId)
    ensures forall i | 0 <= i < |users| - 1 :: RemoveAt(users, k)[i].id != users[k].id
  {
    var r := RemoveAt(users, k);
    assert forall i | 0 <= i < |r| :: r[i] == users[if i < k then i else i + 1];
  }

  /** The user at `k` with a new role and update time, every other field and user as before. */
  function SetRole(users: seq<User>, k: nat, role: string, now: Timestamp): (r: seq<User>)
    requires k < |users|
    ensures |r| == |users| && r[k].role == role && r[k].updatedAt == Some(now)
    ensures r[k].(role := users[k].role, updatedAt := users[k].updatedAt) == users[k]
    ensures forall i | 0 <= i < |r| && i != k :: r[i] == users[i]
  {
    users[k := users[k].(role := role, updatedAt := Some(now))]
  }

  lemma SetRoleValid(users: seq<User>, passwords: map<string, string>, nextUserId: nat, k: nat, role: string, now: Timestamp)
    requires ValidUsers(users, passwords, nextUserId) && k < |users|
    ensures ValidUsers(SetRole(users, k, role, now), passwords, nextUserId)
  {
  }

  /**
   * After a role change, the changed user is an admin to checkAdminAuth
   * exactly when the new role is "admin"; everyone else keeps their standing.
   */
  lemma SetRoleAdminAuth(users: seq<User>, passwords: map<string, string>, nextUserId: nat,
                         k: nat, role: string, now: Timestamp, header: Option<string>)
    requires ValidUsers(users, passwords, nextUserId) && k < |users|
    ensures var after := SetRole(users, k, role, now);
      Authenticate(users, header).Some? && Authenticate(users, header).value.id == users[k].id ==>
        (CheckAdminAuth(after, header).Some? <==> role == "admin")
    ensures var after := SetRole(users, k, role, now);
      !(Authenticate(users, header).Some? && Authenticate(users, header).value.id == users[k].id) ==>
        CheckAdminAuth(after, header) == CheckAdminAuth(users, header)
  {
    var after := SetRole(users, k, role, now);
    if Truthy(header) && StartsWith(header.value, "Bearer ") {
      var id := HeaderUserId(header.value);
      var i := UserIndex(users, id);
      var j := UserIndex(after, id);
      if i.Some? {
        assert j.Some? && j.value <= i.value;
      } else {
        assert j.None?;
      }
    }
  }

  /**
   * deleteUser, checked in this order: 403 for a non-admin, 400 when the
   * target id is the requester's own, 404 when no user has it; otherwise the
   * first user with that id is spliced out. Passwords are left as they are.
   */
  method DeleteUser(reg: UserRegistry, header: Option<string>, idParam: string) returns (r: Response<()>)
    requires reg.Valid()
    modifies reg`users
    ensures reg.Valid()
    ensures CheckAdminAuth(old(reg.users), header).None? ==> r == Forbidden && reg.users == old(reg.users)
    ensures CheckAdminAuth(old(reg.users), header).Some? ==>
      var admin := CheckAdminAuth(old(reg.users), header).value;
      var k := UserIndex(old(reg.users), ParseInt(idParam));
      if Some(admin.id) == ParseInt(idParam) then r == BadRequest && reg.users == old(reg.users)
      else if k.None? then r == NotFound && reg.users == old(reg.users)
      else r == Ok(()) && reg.users == RemoveAt(old(reg.users), k.value)
  {
    var admin := CheckAdminAuth(reg.users, header);
    if admin.None? {
      return Forbidden;
    }
    var userId := ParseInt(idParam);
    if Some(admin.value.id) == userId {
      return BadRequest;
    }
    var k := UserIndex(reg.users, userId);
    if k.None? {
      return NotFound;
    }
    RemoveAtValid(reg.users, reg.passwords, reg.nextUserId, k.value);
    reg.users := RemoveAt(reg.users, k.value);
    r := Ok(());
  }

  /** The roles updateUserRole accepts. */
  predicate ValidRole(role: Option<string>) {
    Truthy(role) && role.value in ["admin", "user"]
  }

  /**
   * updateUserRole, checked in this order: 403 for a non-admin, 400 for a
   * role other than "admin" or "user", 400 when the target id is the
   * requester's own, 404 when no user has it; otherwise the first user with
   * that id gets the role and the update time.
   */
  method UpdateUserRole(reg: UserRegistry, header: Option<string>, idParam: string, role: Option<string>, now: Timestamp)
    returns (r: Response<User>)
    requires reg.Valid()
    modifies reg`users
    ensures reg.Valid()
    ensures CheckAdminAuth(old(reg.users), header).None? ==> r == Forbidden && reg.users == old(reg.users)
    ensures CheckAdminAuth(old(reg.users), header).Some? ==>
      var admin := CheckAdminAuth(old(reg.users), header).value;
      var k := UserIndex(old(reg.users), ParseInt(idParam));
      if !ValidRole(role) then r == BadRequest && reg.users == old(reg.users)
      else if Some(admin.id) == ParseInt(idParam) then r == BadRequest && reg.users == old(reg.users)
      else if k.None? then r == NotFound && reg.users == old(reg.users)
      else
        && reg.users == SetRole(old(reg.users), k.value, role.value, now)
        && r == Ok(reg.users[k.value])
  {
    var admin := CheckAdminAuth(reg.users, header);
    if admin.None? {
      return Forbidden;
    }
    var userId := ParseInt(idParam);
    if !ValidRole(role) {
      return BadRequest;
    }
    if Some(admin.value.id) == userId {
      return BadRequest;
    }
    var k := UserIndex(reg.users, userId);
    if k.None? {
      return NotFound;
    }
    SetRoleValid(reg.users, reg.passwords, reg.nextUserId, k.value, role.value, now);
    reg.users := SetRole(reg.users, k.value, role.value, now);
    r := Ok(reg.users[k.value]);
  }
}
