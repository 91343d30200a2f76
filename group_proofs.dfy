/** What the group reconciler's steps promise, proved about their effects in Groups. */
module GroupProofs {
  import opened Wrappers
  import opened Groups

  // ---- Membership (AddUsersToGroup) ----

  lemma HasIdAppend(users: seq<User>, u: User, id: nat)
    requires HasId(users, id)
    ensures HasId(users + [u], id)
  {
    var j :| 0 <= j < |users| && users[j].id == id;
    assert (users + [u])[j] == users[j];
  }

  /** AddUsersToGroup never removes or reorders a member: the old members are a prefix of the new. */
  lemma {:induction false} AddAbsentKeepsMembers(users: seq<User>, names: seq<string>, c: WebContext)
    ensures |AddAbsent(users, names, c)| >= |users|
    ensures AddAbsent(users, names, c)[..|users|] == users
    decreases |names|
  {
    if names != [] {
      AddAbsentKeepsMembers(users, names[..|names| - 1], c);
    }
  }

  /** Every declared account ends up a member, compared by ID. */
  lemma {:induction false} AddAbsentCoversNames(users: seq<User>, names: seq<string>, c: WebContext)
    ensures forall i :: 0 <= i < |names| ==> HasId(AddAbsent(users, names, c), c.userIdOf(names[i]))
    decreases |names|
  {
    if names != [] {
      var init := names[..|names| - 1];
      AddAbsentCoversNames(users, init, c);
      var prev := AddAbsent(users, init, c);
      var u := EnsureUser(c, names[|names| - 1]);
      forall i | 0 <= i < |names|
        ensures HasId(AddAbsent(users, names, c), c.userIdOf(names[i]))
      {
        if i < |names| - 1 {
          assert names[i] == init[i];
          if !HasId(prev, u.id) {
            HasIdAppend(prev, u, c.userIdOf(names[i]));
          }
        } else if !HasId(prev, u.id) {
          assert (prev + [u])[|prev|] == u;
        }
      }
    }
  }

  /** A user whose ID is already present is never added a second time. */
  lemma {:induction false} AddAbsentKeepsIdsUnique(users: seq<User>, names: seq<string>, c: WebContext)
    requires UniqueIds(users)
    ensures UniqueIds(AddAbsent(users, names, c))
    decreases |names|
  {
    if names != [] {
      AddAbsentKeepsIdsUnique(users, names[..|names| - 1], c);
    }
  }

  /** Whatever AddUsersToGroup adds is one of the declared accounts. */
  lemma {:induction false} AddAbsentAddsOnlyDeclared(users: seq<User>, names: seq<string>, c: WebContext)
    ensures forall j :: |users| <= j < |AddAbsent(users, names, c)| ==>
              exists i :: 0 <= i < |names| && AddAbsent(users, names, c)[j] == EnsureUser(c, names[i])
    decreases |names|
  {
    if names != [] {
      var init := names[..|names| - 1];
      AddAbsentAddsOnlyDeclared(users, init, c);
      var prev := AddAbsent(users, init, c);
      var r := AddAbsent(users, names, c);
      forall j | |users| <= j < |r|
        ensures exists i :: 0 <= i < |names| && r[j] == EnsureUser(c, names[i])
      {
        if j < |prev| {
          assert r[j] == prev[j];
          var i :| 0 <= i < |init| && prev[j] == EnsureUser(c, init[i]);
          assert init[i] == names[i];
          assert 0 <= i < |names| && r[j] == EnsureUser(c, names[i]);
        } else {
          assert r[j] == EnsureUser(c, names[|names| - 1]);
          assert 0 <= |names| - 1 < |names|;
        }
      }
    } else {
      assert AddAbsent(users, names, c) == users;
    }
  }

  /** When every declared account is already a member, AddUsersToGroup changes nothing. */
  lemma {:induction false} AddAbsentStable(users: seq<User>, names: seq<string>, c: WebContext)
    requires forall i :: 0 <= i < |names| ==> HasId(users, c.userIdOf(names[i]))
    ensures AddAbsent(users, names, c) == users
    decreases |names|
  {
    if names != [] {
      var init := names[..|names| - 1];
      assert forall i :: 0 <= i < |init| ==> init[i] == names[i];
      AddAbsentStable(users, init, c);
      assert HasId(users, c.userIdOf(names[|names| - 1]));
    }
  }

  /** Adding the same accounts twice adds nothing the second time. */
  lemma AddAbsentIdempotent(users: seq<User>, names: seq<string>, c: WebContext)
    ensures AddAbsent(AddAbsent(users, names, c), names, c) == AddAbsent(users, names, c)
  {
    AddAbsentCoversNames(users, names, c);
    AddAbsentStable(AddAbsent(users, names, c), names, c);
  }

  // ---- Lookup and validity ----

  lemma SameNamesSameLookup(a: seq<SiteGroup>, b: seq<SiteGroup>, name: string)
    requires |a| == |b| && forall i :: 0 <= i < |a| ==> a[i].name == b[i].name
    ensures GetAsSPGroup(a, name) == GetAsSPGroup(b, name)
  {
  }

  /**
   * AddGroup registers exactly one group, the declared one with its owner and
   * its default user as sole member, keeps the web valid and leaves the
   * unsafe-update flag as it found it.
   */
  lemma AddGroupRegistersOneGroup(s: Scope, g: GroupSpec, c: WebContext)
    requires ValidScope(s) && GetAsSPGroup(s.groups, g.name).None?
    ensures var a := AddGroupEffect(s, g, c);
      ValidScope(a)
      && a.groups == s.groups + [SiteGroup(s.nextGroupId, g.name, g.description,
                                           EnsureUser(c, OwnerLogin(g, c.author)),
                                           [EnsureUser(c, DefaultUserLogin(g, c.author))])]
      && a.allowUnsafeUpdates == s.allowUnsafeUpdates
      && a.roleAssignments == s.roleAssignments && a.roleDefinitions == s.roleDefinitions
      && GetAsSPGroup(a.groups, g.name) == Some(|s.groups|)
      && forall i :: 0 <= i < |a.groups| ==> (a.groups[i].name == g.name <==> i == |s.groups|)
  {
    var a := AddGroupEffect(s, g, c);
    assert forall i :: 0 <= i < |s.groups| ==> a.groups[i] == s.groups[i];
    assert forall i :: 0 <= i < |s.groups| ==> a.groups[i].name != g.name;
    assert a.groups[|s.groups|].name == g.name;
    var r := GetAsSPGroup(a.groups, g.name);
    assert r.Some?;
    assert r.value == |s.groups|;
  }

  /** A group the abstract Group constructor left with no owner and no initial users gets the author as both. */
  lemma NewGroupFallsBackToAuthor(s: Scope, name: string, description: string, c: WebContext)
    ensures var g := NewGroup(name, description, "");
      var ng := AddGroupEffect(s, g, c).groups[|s.groups|];
      g.roleType == Reader
      && ng.owner == EnsureUser(c, c.author)
      && ng.users == [EnsureUser(c, c.author)]
  {
  }

  lemma {:induction false} RemoveByIdAbsent(groups: seq<SiteGroup>, id: nat)
    requires forall i :: 0 <= i < |groups| ==> groups[i].id != id
    ensures RemoveById(groups, id) == groups
  {
    if groups != [] {
      RemoveByIdAbsent(groups[1..], id);
    }
  }

  /** RemoveByID keeps exactly the groups with another ID. */
  lemma {:induction false} RemoveByIdMembership(groups: seq<SiteGroup>, id: nat)
    ensures forall x :: x in RemoveById(groups, id) <==> x in groups && x.id != id
  {
    if groups != [] {
      RemoveByIdMembership(groups[1..], id);
      assert groups == [groups[0]] + groups[1..];
    }
  }

  lemma {:induction false} RemoveByIdDropsOne(groups: seq<SiteGroup>, k: nat)
    requires k < |groups|
    requires forall i, j :: 0 <= i < j < |groups| ==> groups[i].id != groups[j].id
    ensures RemoveById(groups, groups[k].id) == groups[..k] + groups[k + 1..]
  {
    if k == 0 {
      RemoveByIdAbsent(groups[1..], groups[0].id);
      assert RemoveById(groups, groups[0].id) == [] + RemoveById(groups[1..], groups[0].id);
    } else {
      var tail := groups[1..];
      var id := groups[k].id;
      assert tail[k - 1] == groups[k];
      assert groups[0].id != id;
      assert RemoveById(groups, id) == [groups[0]] + RemoveById(tail, id);
      RemoveByIdDropsOne(tail, k - 1);
      assert groups[..k] == [groups[0]] + tail[..k - 1];
      assert groups[k + 1..] == tail[k..];
    }
  }

  /** Dropping the group at k from a valid web leaves a valid web in which k's name is absent. */
  lemma DropKeepsValid(s: Scope, k: nat)
    requires ValidScope(s) && k < |s.groups|
    ensures var rest := s.groups[..k] + s.groups[k + 1..];
      ValidScope(s.(groups := rest))
      && GetAsSPGroup(rest, s.groups[k].name).None?
  {
    var rest := s.groups[..k] + s.groups[k + 1..];
    assert |rest| == |s.groups| - 1;
    forall i | 0 <= i < |rest|
      ensures rest[i] == s.groups[if i < k then i else i + 1]
    {
    }
    forall i, j | 0 <= i < j < |rest|
      ensures rest[i].id != rest[j].id && rest[i].name != rest[j].name
    {
      var i' := if i < k then i else i + 1;
      var j' := if j < k then j else j + 1;
      assert rest[i] == s.groups[i'] && rest[j] == s.groups[j'] && i' < j';
    }
    forall i | 0 <= i < |rest|
      ensures rest[i].name != s.groups[k].name && rest[i].id < s.nextGroupId
    {
      var i' := if i < k then i else i + 1;
      assert rest[i] == s.groups[i'] && i' != k;
    }
  }

  /**
   * Remove deletes the group Name looks up, by its ID, and nothing else: the
   * other groups stay, in order, and no group of that name remains. On an
   * absent group it fails and changes nothing.
   */
  lemma RemoveDeletesOnlyThatGroup(s: Scope, name: string)
    requires ValidScope(s)
    ensures var r := RemoveEffect(s, name);
      ValidScope(r.scope)
      && (GetAsSPGroup(s.groups, name).None? ==> r == Reconciled(s, Failed(GroupNotFound)))
      && (GetAsSPGroup(s.groups, name).Some? ==>
            var k := GetAsSPGroup(s.groups, name).value;
            r.outcome == Done
            && r.scope == s.(groups := s.groups[..k] + s.groups[k + 1..])
            && GetAsSPGroup(r.scope.groups, name).None?)
  {
    var found := GetAsSPGroup(s.groups, name);
    if found.Some? {
      var k := found.value;
      RemoveByIdDropsOne(s.groups, k);
      DropKeepsValid(s, k);
    }
  }

  /** ConfigureGroup changes no group's ID or name, so validity and every lookup survive it. */
  lemma ConfigureKeepsIdentity(s: Scope, k: nat, g: GroupSpec, c: WebContext)
    requires ValidScope(s) && k < |s.groups|
    ensures var r := ConfigureEffect(s, k, g, c);
      ValidScope(r.scope)
      && |r.scope.groups| == |s.groups|
      && (forall i :: 0 <= i < |s.groups| ==> r.scope.groups[i].id == s.groups[i].id && r.scope.groups[i].name == s.groups[i].name)
      && forall n :: GetAsSPGroup(r.scope.groups, n) == GetAsSPGroup(s.groups, n)
  {
    var r := ConfigureEffect(s, k, g, c);
    forall n ensures GetAsSPGroup(r.scope.groups, n) == GetAsSPGroup(s.groups, n) {
      SameNamesSameLookup(r.scope.groups, s.groups, n);
    }
  }

  // ---- ConfigureGroup ----

  /**
   * ConfigureGroup binds the LAST role definition of the declared type in a
   * role assignment appended on every call, sets description and owner (the
   * author when none is declared), keeps every member and adds each declared
   * account; with no definition of that type it fails and changes nothing.
   */
  lemma ConfigureBindsLastRole(s: Scope, k: nat, g: GroupSpec, c: WebContext)
    requires k < |s.groups|
    ensures var r := ConfigureEffect(s, k, g, c);
      var role := LastMatchingRole(s.roleDefinitions, g.roleType);
      var before := s.groups[k];
      var after := r.scope.groups[k];
      (role.None? ==> r == Reconciled(s, Failed(NoMatchingRoleDefinition)))
      && (role.Some? ==>
            r.outcome == Done
            && role.value in s.roleDefinitions && role.value.roleType == g.roleType
            && r.scope.roleAssignments == s.roleAssignments + [RoleAssignment(before.id, role.value)]
            && |r.scope.groups| == |s.groups|
            && (forall i :: 0 <= i < |s.groups| && i != k ==> r.scope.groups[i] == s.groups[i])
            && after.id == before.id && after.name == before.name
            && after.description == g.description
            && after.owner == EnsureUser(c, OwnerLogin(g, c.author))
            && |after.users| >= |before.users| && after.users[..|before.users|] == before.users
            && (forall i :: 0 <= i < |g.initialUserAcctNames| ==> HasId(after.users, c.userIdOf(g.initialUserAcctNames[i])))
            && r.scope.roleDefinitions == s.roleDefinitions
            && r.scope.allowUnsafeUpdates == s.allowUnsafeUpdates
            && r.scope.nextGroupId == s.nextGroupId)
  {
    AddAbsentKeepsMembers(s.groups[k].users, g.initialUserAcctNames, c);
    AddAbsentCoversNames(s.groups[k].users, g.initialUserAcctNames, c);
  }

  lemma {:induction false} LastMatchingRoleSkipsTail(defs: seq<RoleDefinition>, tail: seq<RoleDefinition>, t: RoleType)
    requires forall i :: 0 <= i < |tail| ==> tail[i].roleType != t
    ensures LastMatchingRole(defs + tail, t) == LastMatchingRole(defs, t)
    decreases |tail|
  {
    if tail != [] {
      var init := tail[..|tail| - 1];
      assert (defs + tail)[..|defs + tail| - 1] == defs + init;
      assert (defs + tail)[|defs + tail| - 1] == tail[|tail| - 1];
      LastMatchingRoleSkipsTail(defs, init, t);
    } else {
      assert defs + tail == defs;
    }
  }

  /**
   * The tie-break: a definition of the declared type followed only by
   * definitions of other types is the one bound, whatever definitions of the
   * same type come before it.
   */
  lemma RoleTieBreakTakesLast(defs: seq<RoleDefinition>, last: RoleDefinition, others: seq<RoleDefinition>)
    requires forall i :: 0 <= i < |others| ==> others[i].roleType != last.roleType
    ensures LastMatchingRole(defs + [last] + others, last.roleType) == Some(last)
  {
    LastMatchingRoleSkipsTail(defs + [last], others, last.roleType);
  }

  // ---- Create ----

  /** With IgnoreExisting and an existing group of that name, Create changes nothing at all. */
  lemma CreateIgnoreExistingIsNoOp(s: Scope, g: GroupSpec, c: WebContext)
    requires GetAsSPGroup(s.groups, g.name).Some?
    ensures CreateEffect(s, g, IgnoreExisting, c) == Reconciled(s, Done)
  {
  }

  /**
   * When no group of that name exists, Create in any mode adds exactly one group
   * with that name and a fresh ID; its owner is the declared owner or the
   * author, its default user the first declared account or the author, and the
   * unsafe-update flag is as before. With a matching role the group is then
   * configured; without one Create fails, leaving the group registered but
   * unconfigured (the steps are not atomic).
   */
  lemma CreateAbsentAddsOneGroup(s: Scope, g: GroupSpec, mode: CreateMode, c: WebContext)
    requires ValidScope(s) && GetAsSPGroup(s.groups, g.name).None?
    ensures var r := CreateEffect(s, g, mode, c);
      var owner := EnsureUser(c, OwnerLogin(g, c.author));
      var defaultUser := EnsureUser(c, DefaultUserLogin(g, c.author));
      var role := LastMatchingRole(s.roleDefinitions, g.roleType);
      var n := |s.groups|;
      ValidScope(r.scope)
      && |r.scope.groups| == n + 1 && r.scope.groups[..n] == s.groups
      && (forall i :: 0 <= i < n + 1 ==> (r.scope.groups[i].name == g.name <==> i == n))
      && r.scope.nextGroupId == s.nextGroupId + 1
      && r.scope.allowUnsafeUpdates == s.allowUnsafeUpdates
      && r.scope.roleDefinitions == s.roleDefinitions
      && (role.None? ==>
            r.outcome == Failed(NoMatchingRoleDefinition)
            && r.scope.groups[n] == SiteGroup(s.nextGroupId, g.name, g.description, owner, [defaultUser])
            && r.scope.roleAssignments == s.roleAssignments)
      && (role.Some? ==>
            r.outcome == Done
            && r.scope.groups[n] == SiteGroup(s.nextGroupId, g.name, g.description, owner,
                                              AddAbsent([defaultUser], g.initialUserAcctNames, c))
            && r.scope.roleAssignments == s.roleAssignments + [RoleAssignment(s.nextGroupId, role.value)])
  {
    var a := AddGroupEffect(s, g, c);
    AddGroupRegistersOneGroup(s, g, c);
    assert EnsureGroupEffect(s, g, mode, c) == Ensured(a, Some(|s.groups|));
    ConfigureKeepsIdentity(a, |s.groups|, g, c);
    var r := CreateEffect(s, g, mode, c);
    assert r == ConfigureEffect(a, |s.groups|, g, c);
    assert forall i :: 0 <= i < |s.groups| ==> r.scope.groups[i] == s.groups[i];
  }

  /** On an existing group, ReplaceExisting behaves as if the group had first been removed. */
  lemma ReplaceIsRemoveThenCreate(s: Scope, g: GroupSpec, c: WebContext)
    requires ValidScope(s) && GetAsSPGroup(s.groups, g.name).Some?
    ensures var removed := RemoveEffect(s, g.name).scope;
      ValidScope(removed) && GetAsSPGroup(removed.groups, g.name).None?
      && CreateEffect(s, g, ReplaceExisting, c) == CreateEffect(removed, g, ReplaceExisting, c)
  {
    RemoveDeletesOnlyThatGroup(s, g.name);
  }

  /** A group created fresh holds the default user first and otherwise only declared accounts. */
  lemma FreshMembersAreDeclared(defaultUser: User, names: seq<string>, c: WebContext)
    ensures var users := AddAbsent([defaultUser], names, c);
      |users| >= 1 && users[0] == defaultUser
      && forall u :: u in users ==> u == defaultUser || exists i :: 0 <= i < |names| && u == EnsureUser(c, names[i])
  {
    var users := AddAbsent([defaultUser], names, c);
    AddAbsentKeepsMembers([defaultUser], names, c);
    AddAbsentAddsOnlyDeclared([defaultUser], names, c);
    forall u | u in users
      ensures u == defaultUser || exists i :: 0 <= i < |names| && u == EnsureUser(c, names[i])
    {
      var j :| 0 <= j < |users| && users[j] == u;
      if j == 0 {
        assert users[..1] == [defaultUser];
      }
    }
  }

  /**
   * ReplaceExisting on an existing group: the old group is gone, the others stay
   * in order, and a freshly created group (new ID) takes the last place. Its
   * members are the default user followed by the declared accounts; none of the
   * old group's members carries over unless declared.
   */
  lemma CreateReplaceExistingStartsFresh(s: Scope, g: GroupSpec, c: WebContext)
    requires ValidScope(s) && GetAsSPGroup(s.groups, g.name).Some?
    ensures var k := GetAsSPGroup(s.groups, g.name).value;
      var r := CreateEffect(s, g, ReplaceExisting, c);
      var rest := s.groups[..k] + s.groups[k + 1..];
      var defaultUser := EnsureUser(c, DefaultUserLogin(g, c.author));
      var role := LastMatchingRole(s.roleDefinitions, g.roleType);
      ValidScope(r.scope)
      && |r.scope.groups| == |s.groups| && r.scope.groups[..|rest|] == rest
      && r.scope.groups[|rest|].name == g.name
      && r.scope.groups[|rest|].id == s.nextGroupId && r.scope.groups[|rest|].id != s.groups[k].id
      && r.scope.groups[|rest|].users[0] == defaultUser
      && (forall u :: u in r.scope.groups[|rest|].users ==>
            u == defaultUser || exists i :: 0 <= i < |g.initialUserAcctNames| && u == EnsureUser(c, g.initialUserAcctNames[i]))
      && (role.Some? ==>
            r.outcome == Done
            && r.scope.groups[|rest|].users == AddAbsent([defaultUser], g.initialUserAcctNames, c)
            && r.scope.roleAssignments == s.roleAssignments + [RoleAssignment(s.nextGroupId, role.value)])
      && (role.None? ==>
            r.outcome == Failed(NoMatchingRoleDefinition)
            && r.scope.groups[|rest|].users == [defaultUser]
            && r.scope.roleAssignments == s.roleAssignments)
  {
    ReplaceIsRemoveThenCreate(s, g, c);
    RemoveDeletesOnlyThatGroup(s, g.name);
    var removed := RemoveEffect(s, g.name).scope;
    CreateAbsentAddsOneGroup(removed, g, ReplaceExisting, c);
    FreshMembersAreDeclared(EnsureUser(c, DefaultUserLogin(g, c.author)), g.initialUserAcctNames, c);
  }

  /**
   * UpdateExisting on an existing group reconfigures it in place: every
   * member, the original default user included, stays; description, owner and
   * declared accounts are applied; one role assignment is appended.
   */
  lemma CreateUpdateExistingReconfigures(s: Scope, g: GroupSpec, c: WebContext)
    requires ValidScope(s) && GetAsSPGroup(s.groups, g.name).Some?
    ensures var k := GetAsSPGroup(s.groups, g.name).value;
      var r := CreateEffect(s, g, UpdateExisting, c);
      var role := LastMatchingRole(s.roleDefinitions, g.roleType);
      ValidScope(r.scope)
      && (role.None? ==> r == Reconciled(s, Failed(NoMatchingRoleDefinition)))
      && (role.Some? ==>
            r.outcome == Done
            && |r.scope.groups| == |s.groups|
            && (forall i :: 0 <= i < |s.groups| && i != k ==> r.scope.groups[i] == s.groups[i])
            && r.scope.groups[k] == s.groups[k].(description := g.description,
                                                 owner := EnsureUser(c, OwnerLogin(g, c.author)),
                                                 users := AddAbsent(s.groups[k].users, g.initialUserAcctNames, c))
            && |r.scope.groups[k].users| >= |s.groups[k].users|
            && r.scope.groups[k].users[..|s.groups[k].users|] == s.groups[k].users
            && r.scope.roleAssignments == s.roleAssignments + [RoleAssignment(s.groups[k].id, role.value)]
            && r.scope == s.(groups := r.scope.groups, roleAssignments := r.scope.roleAssignments))
  {
    var k := GetAsSPGroup(s.groups, g.name).value;
    ConfigureKeepsIdentity(s, k, g, c);
    ConfigureBindsLastRole(s, k, g, c);
  }

  /**
   * Running Create with UpdateExisting twice leaves every group as the first run
   * left it, but appends a second, identical role assignment: the source does
   * not deduplicate role assignments.
   */
  lemma UpdateTwiceAppendsSecondAssignment(s: Scope, g: GroupSpec, c: WebContext)
    requires ValidScope(s) && LastMatchingRole(s.roleDefinitions, g.roleType).Some?
    ensures var r1 := CreateEffect(s, g, UpdateExisting, c);
      var r2 := CreateEffect(r1.scope, g, UpdateExisting, c);
      r1.outcome == Done && r2.outcome == Done
      && r2.scope.groups == r1.scope.groups
      && |r1.scope.roleAssignments| == |s.roleAssignments| + 1
      && r2.scope.roleAssignments == r1.scope.roleAssignments + [r1.scope.roleAssignments[|s.roleAssignments|]]
      && r2.scope == r1.scope.(roleAssignments := r2.scope.roleAssignments)
      && r1.scope.roleDefinitions == s.roleDefinitions && r1.scope.allowUnsafeUpdates == s.allowUnsafeUpdates
  {
    var r1 := CreateEffect(s, g, UpdateExisting, c);
    var k1: nat;
    if GetAsSPGroup(s.groups, g.name).None? {
      CreateAbsentAddsOneGroup(s, g, UpdateExisting, c);
      k1 := |s.groups|;
      AddAbsentIdempotent([EnsureUser(c, DefaultUserLogin(g, c.author))], g.initialUserAcctNames, c);
    } else {
      k1 := GetAsSPGroup(s.groups, g.name).value;
      CreateUpdateExistingReconfigures(s, g, c);
      ConfigureKeepsIdentity(s, k1, g, c);
      AddAbsentIdempotent(s.groups[k1].users, g.initialUserAcctNames, c);
    }
    assert GetAsSPGroup(r1.scope.groups, g.name) == Some(k1);
    CreateUpdateExistingReconfigures(r1.scope, g, c);
    var r2 := CreateEffect(r1.scope, g, UpdateExisting, c);
    assert r2.scope.groups[k1] == r1.scope.groups[k1];
    assert |r2.scope.groups| == |r1.scope.groups|;
  }

  // ---- EnsureSPUserInGroup ----

  /**
   * EnsureSPUserInGroup adds the user exactly when no member has that login,
   * keeps every member, fails on an absent group, and a second call changes nothing.
   */
  lemma EnsureUserInGroupIdempotent(s: Scope, name: string, u: User)
    ensures var r1 := EnsureUserInGroupEffect(s, name, u);
      var found := GetAsSPGroup(s.groups, name);
      (found.None? ==> r1 == Reconciled(s, Failed(GroupNotFound)))
      && (found.Some? ==>
            var before := s.groups[found.value].users;
            var after := r1.scope.groups[found.value].users;
            r1.outcome == Done
            && |r1.scope.groups| == |s.groups|
            && (HasLogin(before, u.login) ==> r1.scope == s)
            && (!HasLogin(before, u.login) ==>
                  after == before + [u]
                  && r1.scope == s.(groups := s.groups[found.value := s.groups[found.value].(users := before + [u])]))
            && HasLogin(after, u.login)
            && EnsureUserInGroupEffect(r1.scope, name, u) == Reconciled(r1.scope, Done))
  {
    var found := GetAsSPGroup(s.groups, name);
    if found.Some? {
      var k := found.value;
      var r1 := EnsureUserInGroupEffect(s, name, u);
      SameNamesSameLookup(r1.scope.groups, s.groups, name);
      var after := r1.scope.groups[k].users;
      if !HasLogin(s.groups[k].users, u.login) {
        assert after[|after| - 1] == u;
      }
    }
  }

  /**
   * Two spellings of one account resolve to the same user, login included, so
   * once one of them is a member EnsureSPUserInGroup adds nothing for the other.
   */
  lemma OneAccountTwoSpellings(s: Scope, name: string, a1: string, a2: string, c: WebContext)
    requires GetAsSPGroup(s.groups, name).Some? && c.userIdOf(a1) == c.userIdOf(a2)
    requires EnsureUser(c, a1) in s.groups[GetAsSPGroup(s.groups, name).value].users
    ensures EnsureUserInGroupEffect(s, name, EnsureUser(c, a2)) == Reconciled(s, Done)
  {
    var users := s.groups[GetAsSPGroup(s.groups, name).value].users;
    var j :| 0 <= j < |users| && users[j] == EnsureUser(c, a1);
    assert users[j].login == EnsureUser(c, a2).login;
  }

  // ---- Member queries ----

  /** Whatever follows the last backslash of a line is what the rewrite keeps. */
  lemma {:induction false} StripAfterLastBackslash(domain: string, user: string)
    requires '\\' !in user
    ensures StripToLastBackslash(domain + "\\" + user) == user
    decreases |user|
  {
    if user == [] {
      assert domain + "\\" + user == domain + "\\";
    } else {
      var init := user[..|user| - 1];
      assert '\\' !in init by {
        forall i | 0 <= i < |init| ensures init[i] != '\\' {
          assert init[i] == user[i];
        }
      }
      StripAfterLastBackslash(domain, init);
      assert (domain + "\\" + user)[..|domain + "\\" + user| - 1] == domain + "\\" + init;
      assert init + [user[|user| - 1]] == user;
    }
  }

  /** The login DOMAIN\jdoe has the corp ID jdoe (the login is a parameter so the rewrite is not unfolded on a literal). */
  lemma CorpIdOfDomainLogin(login: string)
    requires login == "DOMAIN\\jdoe"
    ensures CorpId(login) == "jdoe"
  {
    assert login == "DOMAIN" + "\\" + "jdoe";
    assert '\n' !in login;
    StripAfterLastBackslash("DOMAIN", "jdoe");
  }

  lemma NotInSlices(s: string, ch: char, k: nat)
    requires ch !in s && k < |s|
    ensures ch !in s[..k] && ch !in s[k + 1..]
  {
    assert forall i :: 0 <= i < k ==> s[..k][i] == s[i];
    var rest := s[k + 1..];
    assert forall i :: 0 <= i < |rest| ==> rest[i] == s[k + 1 + i];
  }

  lemma SplitAt(s: string, k: nat)
    requires k < |s|
    ensures s == s[..k] + [s[k]] + s[k + 1..]
  {
  }

  /** A login without a backslash is its own corp ID, on every line. */
  lemma {:induction false} CorpIdWithoutBackslash(login: string)
    requires '\\' !in login
    ensures CorpId(login) == login
    decreases |login|
  {
    if '\n' in login {
      var k := FirstIndexOf(login, '\n');
      NotInSlices(login, '\\', k);
      CorpIdWithoutBackslash(login[k + 1..]);
      SplitAt(login, k);
    }
  }

  /** A member contributes an e-mail exactly when the profile store has one for its login. */
  lemma {:induction false} EmailsOfMembership(users: seq<User>, workEmail: string -> Option<string>, e: string)
    ensures e in EmailsOf(users, workEmail) <==> exists j :: 0 <= j < |users| && workEmail(users[j].login) == Some(e)
    decreases |users|
  {
    if users != [] {
      var init := users[..|users| - 1];
      EmailsOfMembership(init, workEmail, e);
      assert forall j :: 0 <= j < |init| ==> init[j] == users[j];
    }
  }

  /** E-mails come in member order: the e-mails of a concatenation are the concatenated e-mails. */
  lemma {:induction false} EmailsOfAppend(a: seq<User>, b: seq<User>, workEmail: string -> Option<string>)
    ensures EmailsOf(a + b, workEmail) == EmailsOf(a, workEmail) + EmailsOf(b, workEmail)
    decreases |b|
  {
    if b != [] {
      var init := b[..|b| - 1];
      assert (a + b)[..|a + b| - 1] == a + init;
      assert (a + b)[|a + b| - 1] == b[|b| - 1];
      EmailsOfAppend(a, init, workEmail);
    } else {
      assert a + b == a;
    }
  }

  /** Members A (with the e-mail a@x) and B (without a profile) yield exactly the one e-mail a@x. */
  lemma EmailsSkipMembersWithoutProfile(a: User, b: User, workEmail: string -> Option<string>)
    requires workEmail(a.login) == Some("a@x") && workEmail(b.login) == None
    ensures EmailsOf([a, b], workEmail) == ["a@x"]
  {
    assert [a, b][..1] == [a];
    assert [a][..0] == [];
    assert EmailsOf([a], workEmail) == ["a@x"];
  }
}
