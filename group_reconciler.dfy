/**
 * The group reconciler as the source runs it: imperative steps against one
 * mutable web, each proved to leave the web as the matching effect in Groups.
 */
module GroupReconciler {
  import opened Wrappers
  import opened Groups
  import GroupProofs

  /**
   * An SPWeb, reduced to what the reconciler reads and writes. The lookups
   * read SiteGroups while Remove writes through Groups; the model keeps one
   * collection for both, so a group that is in one and not the other cannot arise here.
   */
  class Web {
    const ctx: WebContext
    var groups: seq<SiteGroup>
    var roleDefinitions: seq<RoleDefinition>
    var roleAssignments: seq<RoleAssignment>
    var nextGroupId: nat
    var allowUnsafeUpdates: bool

    function State(): Scope
      reads this
    {
      Scope(groups, roleDefinitions, roleAssignments, nextGroupId, allowUnsafeUpdates)
    }

    ghost predicate Valid()
      reads this
    {
      ValidScope(State())
    }

    constructor (ctx: WebContext, roleDefinitions: seq<RoleDefinition>, allowUnsafeUpdates: bool)
      ensures Valid() && this.ctx == ctx
      ensures State() == Scope([], roleDefinitions, [], 0, allowUnsafeUpdates)
    {
      this.ctx := ctx;
      this.groups := [];
      this.roleDefinitions := roleDefinitions;
      this.roleAssignments := [];
      this.nextGroupId := 0;
      this.allowUnsafeUpdates := allowUnsafeUpdates;
    }

    /**
     * SiteGroups.Add: registers a group under a fresh ID. Only this platform
     * call requires AllowUnsafeUpdates in the model, so that AddGroup's saving,
     * forcing and restoring of the flag is checked; the platform's own rule for
     * the flag is not modelled.
     */
    method AddSiteGroup(name: string, owner: User, defaultUser: User, description: string)
      requires allowUnsafeUpdates
      modifies this
      ensures State() == old(State()).(
        groups := old(groups) + [SiteGroup(old(nextGroupId), name, description, owner, [defaultUser])],
        nextGroupId := old(nextGroupId) + 1)
    {
      groups := groups + [SiteGroup(nextGroupId, name, description, owner, [defaultUser])];
      nextGroupId := nextGroupId + 1;
    }

    /** Groups.RemoveByID. */
    method RemoveByID(id: nat)
      modifies this
      ensures State() == old(State()).(groups := RemoveById(old(groups), id))
    {
      groups := RemoveById(groups, id);
    }

    /** RoleAssignments.Add: the collection only grows. */
    method AddRoleAssignment(a: RoleAssignment)
      modifies this
      ensures State() == old(State()).(roleAssignments := old(roleAssignments) + [a])
    {
      roleAssignments := roleAssignments + [a];
    }

    /** Writes SPGroup.Description and SPGroup.Owner of the group at k. */
    method SetDescriptionAndOwner(k: nat, description: string, owner: User)
      requires k < |groups|
      modifies this
      ensures State() == old(State()).(groups := old(groups)[k := old(groups)[k].(description := description, owner := owner)])
    {
      groups := groups[k := groups[k].(description := description, owner := owner)];
    }

    /** SPGroup.AddUser on the group at k: the user joins the end of its user collection. */
    method AddUser(k: nat, u: User)
      requires k < |groups|
      modifies this
      ensures State() == old(State()).(groups := old(groups)[k := old(groups)[k].(users := old(groups)[k].users + [u])])
    {
      groups := groups[k := groups[k].(users := groups[k].users + [u])];
    }
  }

  /** AddGroup: owner and default user resolved, unsafe updates saved, forced on, and restored. */
  method AddGroup(g: GroupSpec, web: Web) returns (k: Option<nat>)
    requires web.Valid() && GetAsSPGroup(web.groups, g.name).None?
    modifies web
    ensures web.Valid()
    ensures web.State() == AddGroupEffect(old(web.State()), g, web.ctx)
    ensures k == GetAsSPGroup(web.groups, g.name) == Some(|old(web.groups)|)
  {
    GroupProofs.AddGroupRegistersOneGroup(web.State(), g, web.ctx);
    var webSafety := web.allowUnsafeUpdates;
    web.allowUnsafeUpdates := true;
    var owner := EnsureUser(web.ctx, OwnerLogin(g, web.ctx.author));
    var defaultUser := EnsureUser(web.ctx, DefaultUserLogin(g, web.ctx.author));
    web.AddSiteGroup(g.name, owner, defaultUser, g.description);
    web.allowUnsafeUpdates := webSafety;
    k := GetAsSPGroup(web.groups, g.name);
  }

  /** Remove: an absent group is a null dereference, reported as GroupNotFound. */
  method Remove(g: GroupSpec, web: Web) returns (r: Outcome)
    requires web.Valid()
    modifies web
    ensures web.Valid()
    ensures Reconciled(web.State(), r) == RemoveEffect(old(web.State()), g.name)
  {
    GroupProofs.RemoveDeletesOnlyThatGroup(web.State(), g.name);
    var k := GetAsSPGroup(web.groups, g.name);
    if k.None? {
      return Failed(GroupNotFound);
    }
    web.RemoveByID(web.groups[k.value].id);
    r := Done;
  }

  /** AddUsersToGroup: each declared account, resolved, joins unless its ID is already a member's. */
  method AddUsersToGroup(g: GroupSpec, web: Web, k: nat)
    requires k < |web.groups|
    modifies web
    ensures web.State() == old(web.State()).(groups := old(web.groups)[k := old(web.groups)[k].(
              users := AddAbsent(old(web.groups)[k].users, g.initialUserAcctNames, web.ctx))])
  {
    var names := g.initialUserAcctNames;
    ghost var before := web.groups[k].users;
    var i := 0;
    while i < |names|
      invariant 0 <= i <= |names|
      invariant web.State() == old(web.State()).(groups := old(web.groups)[k := old(web.groups)[k].(
                  users := AddAbsent(before, names[..i], web.ctx))])
    {
      assert names[..i + 1][..i] == names[..i];
      var user := EnsureUser(web.ctx, names[i]);
      if !HasId(web.groups[k].users, user.id) {
        web.AddUser(k, user);
      }
      i := i + 1;
    }
    assert names[..|names|] == names;
  }

  /** ConfigureGroup on the group at k. */
  method ConfigureGroup(g: GroupSpec, web: Web, k: nat) returns (r: Outcome)
    requires web.Valid() && k < |web.groups|
    modifies web
    ensures web.Valid()
    ensures Reconciled(web.State(), r) == ConfigureEffect(old(web.State()), k, g, web.ctx)
  {
    GroupProofs.ConfigureKeepsIdentity(web.State(), k, g, web.ctx);
    var role := LastMatchingRole(web.roleDefinitions, g.roleType);
    if role.None? {
      return Failed(NoMatchingRoleDefinition);
    }
    web.AddRoleAssignment(RoleAssignment(web.groups[k].id, role.value));
    web.SetDescriptionAndOwner(k, g.description, EnsureUser(web.ctx, OwnerLogin(g, web.ctx.author)));
    AddUsersToGroup(g, web, k);
    r := Done;
  }

  /** EnsureGroup: the create-mode policy; None means "leave the group alone". */
  method EnsureGroup(g: GroupSpec, web: Web, mode: CreateMode) returns (k: Option<nat>)
    requires web.Valid()
    modifies web
    ensures web.Valid()
    ensures Ensured(web.State(), k) == EnsureGroupEffect(old(web.State()), g, mode, web.ctx)
  {
    k := GetAsSPGroup(web.groups, g.name);
    if mode == ReplaceExisting && k.Some? {
      GroupProofs.RemoveDeletesOnlyThatGroup(web.State(), g.name);
      var removed := Remove(g, web);
      k := AddGroup(g, web);
    } else if mode == IgnoreExisting && k.Some? {
      k := None;
    } else if k.None? {
      k := AddGroup(g, web);
    }
  }

  /** Create: EnsureGroup, then ConfigureGroup unless the group is to be left alone. */
  method Create(g: GroupSpec, web: Web, mode: CreateMode) returns (r: Outcome)
    requires web.Valid()
    modifies web
    ensures web.Valid()
    ensures Reconciled(web.State(), r) == CreateEffect(old(web.State()), g, mode, web.ctx)
  {
    var k := EnsureGroup(g, web, mode);
    if k.Some? {
      r := ConfigureGroup(g, web, k.value);
    } else {
      r := Done;
    }
  }

  /** EnsureSPUserInGroup: adds the user unless a member has its login name. */
  method EnsureSPUserInGroup(g: GroupSpec, web: Web, u: User) returns (r: Outcome)
    requires web.Valid()
    modifies web
    ensures web.Valid()
    ensures Reconciled(web.State(), r) == EnsureUserInGroupEffect(old(web.State()), g.name, u)
  {
    var k := GetAsSPGroup(web.groups, g.name);
    if k.None? {
      return Failed(GroupNotFound);
    }
    if !HasLogin(web.groups[k.value].users, u.login) {
      web.AddUser(k.value, u);
    }
    r := Done;
  }

  /**
   * GetMemberEmails: the work e-mail of every member the profile store knows,
   * in member order. The profile lookup is the parameter workEmail; an absent
   * group is a null dereference (None).
   */
  method GetMemberEmails(g: GroupSpec, web: Web, workEmail: string -> Option<string>) returns (r: Option<seq<string>>)
    ensures GetAsSPGroup(web.groups, g.name).None? ==> r.None?
    ensures GetAsSPGroup(web.groups, g.name).Some? ==>
              r == Some(EmailsOf(web.groups[GetAsSPGroup(web.groups, g.name).value].users, workEmail))
  {
    var k := GetAsSPGroup(web.groups, g.name);
    if k.None? {
      return None;
    }
    var users := web.groups[k.value].users;
    var emails := [];
    var i := 0;
    while i < |users|
      invariant 0 <= i <= |users|
      invariant emails == EmailsOf(users[..i], workEmail)
    {
      assert users[..i + 1][..i] == users[..i];
      var up := workEmail(users[i].login);
      if up.Some? {
        emails := emails + [up.value];
      }
      i := i + 1;
    }
    assert users[..|users|] == users;
    r := Some(emails);
  }
}
