/** Which posts a user may see, and the guard that allows at most one
    priority post in that scope. */
module Feeds {
  import opened Wrappers
  import Profiles

  /** The message of the priority validation error. */
  const ErrorMessage: string := "Priority post already exists for user. Set priority to false."

  /** The field the validation error is reported against. */
  const PriorityField: string := "priority"

  /** Audience of a post; only `AllDepartments` matters to visibility. */
  datatype SharedWith = AllDepartments | OtherAudience(code: nat)

  /** A stored post: its key, organization, author's key, priority flag and audience. */
  datatype Post = Post(pk: nat, organizationId: nat, createdBy: nat, priority: bool, sharedWith: SharedWith)

  /** Concatenated member lists of departments, in order. */
  function DepartmentUsers(ds: seq<Profiles.Department>): seq<nat>
  {
    if ds == [] then [] else DepartmentUsers(ds[..|ds| - 1]) + ds[|ds| - 1].users
  }

  lemma DepartmentUsersPrefix(ds: seq<Profiles.Department>, i: nat)
    requires i < |ds|
    ensures DepartmentUsers(ds[..i + 1]) == DepartmentUsers(ds[..i]) + ds[i].users
  {
    assert ds[..i + 1][..i] == ds[..i];
  }

  /** An id is in the concatenation exactly when some department lists it. */
  lemma {:induction false} DepartmentUsersMembers(ds: seq<Profiles.Department>)
    ensures forall v :: v in DepartmentUsers(ds) <==> exists d :: d in ds && v in d.users
  {
    if ds != [] {
      var init, last := ds[..|ds| - 1], ds[|ds| - 1];
      DepartmentUsersMembers(init);
      assert ds == init + [last];
      forall v ensures v in DepartmentUsers(ds) <==> exists d :: d in ds && v in d.users {
        if d :| d in ds && v in d.users {
          if d != last {
            assert d in init;
          }
        }
      }
    }
  }

  /** Every member of every department `u` belongs to (`u` itself included). */
  function CoMembers(depts: seq<Profiles.Department>, u: nat): set<nat>
  {
    set d, v | d in depts && u in d.users && v in d.users :: v
  }

  /** Concatenating the member lists of `u`'s departments gives the co-members. */
  lemma CoMembersAreDepartmentUsers(depts: seq<Profiles.Department>, u: nat)
    ensures forall v :: v in DepartmentUsers(Profiles.DepartmentsOf(depts, u)) <==> v in CoMembers(depts, u)
  {
    var mine := Profiles.DepartmentsOf(depts, u);
    Profiles.DepartmentsOfMembers(depts, u);
    DepartmentUsersMembers(mine);
    forall v | v in DepartmentUsers(mine) ensures v in CoMembers(depts, u) {
      var d :| d in mine && v in d.users;
    }
  }

  /** A user has co-members exactly when some department lists them. */
  lemma CoMembersEmpty(depts: seq<Profiles.Department>, u: nat)
    ensures CoMembers(depts, u) == {} <==> forall d :: d in depts ==> u !in d.users
  {
    if d :| d in depts && u in d.users {
      assert u in CoMembers(depts, u);
    }
  }

  /** The nested loop of `accessible_posts_by_user`: the ids of the members of
      each of the user's departments, appended in order. */
  method CollectDepartmentUsers(depts: seq<Profiles.Department>, u: nat) returns (ids: seq<nat>)
    ensures ids == DepartmentUsers(Profiles.DepartmentsOf(depts, u))
    ensures forall v :: v in ids <==> v in CoMembers(depts, u)
  {
    var mine := Profiles.DepartmentsOf(depts, u);
    ids := [];
    for i := 0 to |mine|
      invariant ids == DepartmentUsers(mine[..i])
    {
      var members := mine[i].users;
      ghost var before := ids;
      for j := 0 to |members|
        invariant ids == before + members[..j]
      {
        ids := ids + [members[j]];
      }
      assert members[..|members|] == members;
      DepartmentUsersPrefix(mine, i);
    }
    assert mine[..|mine|] == mine;
    CoMembersAreDepartmentUsers(depts, u);
  }

  /** The posts `u` may see in `org`: with no co-members, `u`'s own posts in
      `org`; otherwise the posts in `org` shared with all departments, together
      with every post by a co-member, in whatever organization. */
  function AccessiblePosts(posts: set<Post>, depts: seq<Profiles.Department>, u: nat, org: Option<nat>): (r: set<Post>)
    ensures r <= posts
  {
    var members := CoMembers(depts, u);
    if members == {} then
      set p | p in posts && Some(p.organizationId) == org && p.createdBy == u
    else
      set p | p in posts && ((Some(p.organizationId) == org && p.sharedWith == AllDepartments) || p.createdBy in members)
  }

  /** `accessible_posts_by_user`: collect the co-member ids, then filter. */
  method AccessiblePostsByUser(posts: set<Post>, depts: seq<Profiles.Department>, u: nat, org: Option<nat>)
    returns (r: set<Post>)
    ensures r == AccessiblePosts(posts, depts, u, org)
  {
    var ids := CollectDepartmentUsers(depts, u);
    if |ids| == 0 {
      r := set p | p in posts && Some(p.organizationId) == org && p.createdBy == u;
    } else {
      assert ids[0] in CoMembers(depts, u);
      r := set p | p in posts && ((Some(p.organizationId) == org && p.sharedWith == AllDepartments) || p.createdBy in ids);
    }
  }

  /** A user in no department sees exactly their own posts in the organization. */
  lemma NoDepartmentSeesOwnPosts(posts: set<Post>, depts: seq<Profiles.Department>, u: nat, org: Option<nat>)
    requires forall d :: d in depts ==> u !in d.users
    ensures AccessiblePosts(posts, depts, u, org)
         == set p | p in posts && Some(p.organizationId) == org && p.createdBy == u
  {
    CoMembersEmpty(depts, u);
  }

  /** A user in some department sees a stored post exactly when it is shared
      with all departments in the organization, or a co-member wrote it. */
  lemma DepartmentScope(posts: set<Post>, depts: seq<Profiles.Department>, u: nat, org: Option<nat>, p: Post)
    requires exists d :: d in depts && u in d.users
    requires p in posts
    ensures p in AccessiblePosts(posts, depts, u, org) <==>
      (Some(p.organizationId) == org && p.sharedWith == AllDepartments)
      || exists d :: d in depts && u in d.users && p.createdBy in d.users
  {
    CoMembersEmpty(depts, u);
    if d :| d in depts && u in d.users && p.createdBy in d.users {
      assert p.createdBy in CoMembers(depts, u);
    }
  }

  /** A post by a co-member is visible whatever its organization: the
      department clause carries no organization filter. */
  lemma CoMemberPostsCrossOrganizations(posts: set<Post>, depts: seq<Profiles.Department>, u: nat,
                                        org: Option<nat>, d: Profiles.Department, p: Post)
    requires d in depts && u in d.users && p.createdBy in d.users && p in posts
    ensures p in AccessiblePosts(posts, depts, u, org)
  {
    assert p.createdBy in CoMembers(depts, u);
  }

  /** In either branch a user sees their own posts in the organization. */
  lemma OwnPostsVisible(posts: set<Post>, depts: seq<Profiles.Department>, u: nat, org: Option<nat>, p: Post)
    requires p in posts && p.createdBy == u && Some(p.organizationId) == org
    ensures p in AccessiblePosts(posts, depts, u, org)
  {
    if CoMembers(depts, u) != {} {
      var v :| v in CoMembers(depts, u);
      var d :| d in depts && u in d.users && v in d.users;
      assert u in CoMembers(depts, u);
    }
  }

  /** The request data `validate_priority` reads; a missing key is None. */
  datatype PostData = PostData(createdBy: Option<nat>, organization: Option<nat>, priority: Option<bool>)

  /** Why `validate_priority` rejects: the validation error keyed by field, or
      the missing creator the source dereferences (an AttributeError). */
  datatype PriorityError = ValidationError(field: string, message: string) | MissingCreator

  /** `validate_priority`: with a truthy priority, fail when the creator's
      accessible posts already hold a priority post. Reads the store only. */
  method ValidatePriority(data: PostData, posts: set<Post>, depts: seq<Profiles.Department>)
    returns (r: Outcome<PriorityError>)
    ensures data.priority != Some(true) ==> r == Pass
    ensures data.priority == Some(true) && data.createdBy == None ==> r == Fail(MissingCreator)
    ensures data.priority == Some(true) && data.createdBy.Some? ==>
      (r.Fail? <==> exists p :: p in AccessiblePosts(posts, depts, data.createdBy.value, data.organization) && p.priority)
    ensures r.Fail? && data.createdBy.Some? ==> r.error == ValidationError(PriorityField, ErrorMessage)
  {
    if data.priority == Some(true) {
      if data.createdBy == None {
        return Fail(MissingCreator);
      }
      var accessible := AccessiblePostsByUser(posts, depts, data.createdBy.value, data.organization);
      var priorityPosts := set p | p in accessible && p.priority;
      if priorityPosts != {} {
        ghost var p :| p in priorityPosts;
        return Fail(ValidationError(PriorityField, ErrorMessage));
      }
      assert forall p :: p in accessible && p.priority ==> p in priorityPosts;
    }
    return Pass;
  }
}
