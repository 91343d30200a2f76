/**
 * The state a group reconciler works on (one SharePoint web, the "scope") and
 * the effect of each reconciliation step on it, as pure functions.
 * GroupReconciler implements the steps imperatively against these functions;
 * GroupProofs proves what the steps promise.
 */
module Groups {
  import opened Wrappers

  /** SPRoleType: the built-in permission levels a role definition can have. */
  datatype RoleType = RoleNone | Guest | Reader | Contributor | WebDesigner | Administrator | Editor

  /** A principal of the web: its numeric ID and its login name. */
  datatype User = User(id: nat, login: string)

  /** An SPGroup as stored in the web's site-group collection. */
  datatype SiteGroup = SiteGroup(id: nat, name: string, description: string, owner: User, users: seq<User>)

  datatype RoleDefinition = RoleDefinition(roleType: RoleType, name: string)

  /** A role assignment binds one principal (here: a group, by ID) to one role definition. */
  datatype RoleAssignment = RoleAssignment(groupId: nat, binding: RoleDefinition)

  datatype CreateMode = IgnoreExisting | ReplaceExisting | UpdateExisting

  /** The declared group: the properties a concrete Group subclass sets. */
  datatype GroupSpec = GroupSpec(
    name: string,
    description: string,
    roleType: RoleType,
    ownerAcctName: string,
    initialUserAcctNames: seq<string>)

  /**
   * What the web provides and the reconciler never changes: the login of the
   * web's author; EnsureUser, total here, as the ID it resolves an account name
   * to; and the login name the web stores for each user ID.
   */
  datatype WebContext = WebContext(author: string, userIdOf: string -> nat, loginOf: nat -> string)

  /** The mutable part of the web. nextGroupId is where the platform draws fresh group IDs from. */
  datatype Scope = Scope(
    groups: seq<SiteGroup>,
    roleDefinitions: seq<RoleDefinition>,
    roleAssignments: seq<RoleAssignment>,
    nextGroupId: nat,
    allowUnsafeUpdates: bool)

  /** GroupNotFound: a null SPGroup dereferenced; NoMatchingRoleDefinition: Enumerable.Last on an empty sequence. */
  datatype Failure = GroupNotFound | NoMatchingRoleDefinition

  datatype Outcome = Done | Failed(failure: Failure)

  /** The state after a step, and whether the step completed or threw. */
  datatype Reconciled = Reconciled(scope: Scope, outcome: Outcome)

  /** The state after EnsureGroup and the group it hands to ConfigureGroup (None: leave it alone). */
  datatype Ensured = Ensured(scope: Scope, group: Option<nat>)

  /** What the platform guarantees of a web: group IDs and group names are unique, IDs are below the next fresh one. */
  ghost predicate ValidScope(s: Scope) {
    (forall i, j :: 0 <= i < j < |s.groups| ==> s.groups[i].id != s.groups[j].id && s.groups[i].name != s.groups[j].name)
    && (forall i :: 0 <= i < |s.groups| ==> s.groups[i].id < s.nextGroupId)
  }

  /** The defaults the abstract Group constructor sets: the Reader role and no initial users. */
  function NewGroup(name: string, description: string, ownerAcctName: string): (g: GroupSpec)
    ensures g.roleType == Reader && g.initialUserAcctNames == []
    ensures g.name == name && g.description == description && g.ownerAcctName == ownerAcctName
  {
    GroupSpec(name, description, Reader, ownerAcctName, [])
  }

  /**
   * SPWeb.EnsureUser: the web's user for the account, with the login name the
   * web stores for it, whichever spelling of the account was asked for.
   */
  function EnsureUser(c: WebContext, account: string): (u: User)
    ensures u.id == c.userIdOf(account) && u.login == c.loginOf(u.id)
  {
    User(c.userIdOf(account), c.loginOf(c.userIdOf(account)))
  }

  /** The owner's login: the declared owner, or the web's author when none is declared. */
  function OwnerLogin(g: GroupSpec, author: string): (r: string)
    ensures g.ownerAcctName == "" ==> r == author
    ensures g.ownerAcctName != "" ==> r == g.ownerAcctName
  {
    if g.ownerAcctName == "" then author else g.ownerAcctName
  }

  /** The default user's login: the first declared account, or the author when there is none or it is empty. */
  function DefaultUserLogin(g: GroupSpec, author: string): (r: string)
    ensures (|g.initialUserAcctNames| == 0 || g.initialUserAcctNames[0] == "") ==> r == author
    ensures |g.initialUserAcctNames| > 0 && g.initialUserAcctNames[0] != "" ==> r == g.initialUserAcctNames[0]
  {
    if |g.initialUserAcctNames| == 0 || g.initialUserAcctNames[0] == "" then author
    else g.initialUserAcctNames[0]
  }

  predicate HasId(users: seq<User>, id: nat) {
    exists j :: 0 <= j < |users| && users[j].id == id
  }

  predicate HasLogin(users: seq<User>, login: string) {
    exists j :: 0 <= j < |users| && users[j].login == login
  }

  predicate UniqueIds(users: seq<User>) {
    forall i, j :: 0 <= i < j < |users| ==> users[i].id != users[j].id
  }

  /**
   * GetAsSPGroup: the first site group whose name is the given one, as its
   * position in the collection, or None.
   */
  function GetAsSPGroup(groups: seq<SiteGroup>, name: string): (r: Option<nat>)
    ensures r.None? <==> forall i :: 0 <= i < |groups| ==> groups[i].name != name
    ensures r.Some? ==> r.value < |groups| && groups[r.value].name == name
                        && forall i :: 0 <= i < r.value ==> groups[i].name != name
  {
    if groups == [] then None
    else if groups[0].name == name then Some(0)
    else match GetAsSPGroup(groups[1..], name)
      case None => None
      case Some(k) => Some(k + 1)
  }

  /**
   * The role definition ConfigureGroup binds: of all definitions whose type is
   * the declared one, the last in collection order; None when there is none.
   * (The source compares the types' names; for an enumeration that is equality.)
   */
  function LastMatchingRole(defs: seq<RoleDefinition>, t: RoleType): (r: Option<RoleDefinition>)
    ensures r.None? <==> forall i :: 0 <= i < |defs| ==> defs[i].roleType != t
    ensures r.Some? ==> exists i :: 0 <= i < |defs| && defs[i] == r.value && defs[i].roleType == t
                                    && forall j :: i < j < |defs| ==> defs[j].roleType != t
  {
    if defs == [] then None
    else if defs[|defs| - 1].roleType == t then Some(defs[|defs| - 1])
    else LastMatchingRole(defs[..|defs| - 1], t)
  }

  /**
   * The members after AddUsersToGroup: each declared account in turn is
   * resolved and appended unless a member with its ID is already present.
   */
  function AddAbsent(users: seq<User>, names: seq<string>, c: WebContext): (r: seq<User>)
    ensures |users| <= |r| <= |users| + |names|
    decreases |names|
  {
    if names == [] then users
    else
      var prev := AddAbsent(users, names[..|names| - 1], c);
      var u := EnsureUser(c, names[|names| - 1]);
      if HasId(prev, u.id) then prev else prev + [u]
  }

  /** Every group except those with the given ID, in order (RemoveByID). */
  function RemoveById(groups: seq<SiteGroup>, id: nat): (r: seq<SiteGroup>)
    ensures |r| <= |groups|
    ensures forall i :: 0 <= i < |r| ==> r[i].id != id
  {
    if groups == [] then []
    else (if groups[0].id == id then [] else [groups[0]]) + RemoveById(groups[1..], id)
  }

  /**
   * AddGroup: registers a group with a fresh ID, the owner and the default user,
   * with unsafe updates forced on around the registration and restored afterwards.
   */
  function AddGroupEffect(s: Scope, g: GroupSpec, c: WebContext): (r: Scope)
    ensures |r.groups| == |s.groups| + 1 && r.groups[..|s.groups|] == s.groups
    ensures r.groups[|s.groups|].name == g.name && r.groups[|s.groups|].id == s.nextGroupId
    ensures r.groups[|s.groups|].owner.id == c.userIdOf(OwnerLogin(g, c.author))
    ensures r.groups[|s.groups|].users == [EnsureUser(c, DefaultUserLogin(g, c.author))]
    ensures r.nextGroupId == s.nextGroupId + 1 && r.allowUnsafeUpdates == s.allowUnsafeUpdates
    ensures r.roleDefinitions == s.roleDefinitions && r.roleAssignments == s.roleAssignments
  {
    var owner := EnsureUser(c, OwnerLogin(g, c.author));
    var defaultUser := EnsureUser(c, DefaultUserLogin(g, c.author));
    s.(groups := s.groups + [SiteGroup(s.nextGroupId, g.name, g.description, owner, [defaultUser])],
       nextGroupId := s.nextGroupId + 1)
  }

  /** Remove: looks the group up by name and removes it by its ID; no group of that name is a null dereference. */
  function RemoveEffect(s: Scope, name: string): (r: Reconciled)
    ensures r.outcome == Done <==> GetAsSPGroup(s.groups, name).Some?
    ensures r.outcome != Done ==> r == Reconciled(s, Failed(GroupNotFound))
  {
    match GetAsSPGroup(s.groups, name)
    case None => Reconciled(s, Failed(GroupNotFound))
    case Some(k) => Reconciled(s.(groups := RemoveById(s.groups, s.groups[k].id)), Done)
  }

  /**
   * ConfigureGroup on the group at position k: binds the last matching role
   * definition in a new role assignment, sets description and owner, then adds
   * the declared users. Without a matching definition it throws before changing anything.
   */
  function ConfigureEffect(s: Scope, k: nat, g: GroupSpec, c: WebContext): (r: Reconciled)
    requires k < |s.groups|
    ensures r.outcome == Done <==> LastMatchingRole(s.roleDefinitions, g.roleType).Some?
    ensures r.outcome != Done ==> r == Reconciled(s, Failed(NoMatchingRoleDefinition))
    ensures |r.scope.groups| == |s.groups|
    ensures r.scope.nextGroupId == s.nextGroupId && r.scope.allowUnsafeUpdates == s.allowUnsafeUpdates
    ensures r.scope.roleDefinitions == s.roleDefinitions
  {
    match LastMatchingRole(s.roleDefinitions, g.roleType)
    case None => Reconciled(s, Failed(NoMatchingRoleDefinition))
    case Some(role) =>
      var grp := s.groups[k];
      var configured := grp.(description := g.description,
                             owner := EnsureUser(c, OwnerLogin(g, c.author)),
                             users := AddAbsent(grp.users, g.initialUserAcctNames, c));
      Reconciled(s.(groups := s.groups[k := configured],
                    roleAssignments := s.roleAssignments + [RoleAssignment(grp.id, role)]), Done)
  }

  /**
   * EnsureGroup: the create-mode policy. The removal in the replace branch
   * cannot fail, as the lookup just found the group.
   */
  function EnsureGroupEffect(s: Scope, g: GroupSpec, mode: CreateMode, c: WebContext): (r: Ensured)
    ensures r.group.Some? ==> r.group.value < |r.scope.groups|
  {
    var found := GetAsSPGroup(s.groups, g.name);
    if mode == ReplaceExisting && found.Some? then
      var added := AddGroupEffect(RemoveEffect(s, g.name).scope, g, c);
      Ensured(added, GetAsSPGroup(added.groups, g.name))
    else if mode == IgnoreExisting && found.Some? then
      Ensured(s, None)
    else if found.None? then
      var added := AddGroupEffect(s, g, c);
      Ensured(added, GetAsSPGroup(added.groups, g.name))
    else
      Ensured(s, found)
  }

  /** Create: EnsureGroup, then ConfigureGroup on the group it hands back, if any. */
  function CreateEffect(s: Scope, g: GroupSpec, mode: CreateMode, c: WebContext): (r: Reconciled)
    ensures mode == IgnoreExisting && GetAsSPGroup(s.groups, g.name).Some? ==> r == Reconciled(s, Done)
    ensures r.outcome != Failed(GroupNotFound)
    ensures r.scope.roleDefinitions == s.roleDefinitions && r.scope.allowUnsafeUpdates == s.allowUnsafeUpdates
  {
    var e := EnsureGroupEffect(s, g, mode, c);
    if e.group.Some? then ConfigureEffect(e.scope, e.group.value, g, c)
    else Reconciled(e.scope, Done)
  }

  /** EnsureSPUserInGroup: adds the user unless a member has the same login name. */
  function EnsureUserInGroupEffect(s: Scope, name: string, u: User): (r: Reconciled)
    ensures r.outcome == Done <==> GetAsSPGroup(s.groups, name).Some?
    ensures r.outcome != Done ==> r == Reconciled(s, Failed(GroupNotFound))
    ensures |r.scope.groups| == |s.groups|
    ensures r.scope.(groups := s.groups) == s
  {
    match GetAsSPGroup(s.groups, name)
    case None => Reconciled(s, Failed(GroupNotFound))
    case Some(k) =>
      if HasLogin(s.groups[k].users, u.login) then Reconciled(s, Done)
      else Reconciled(s.(groups := s.groups[k := s.groups[k].(users := s.groups[k].users + [u])]), Done)
  }

  /**
   * The work e-mails of the given members, in member order; a member the
   * profile store knows nothing of contributes nothing.
   */
  function EmailsOf(users: seq<User>, workEmail: string -> Option<string>): (r: seq<string>)
    ensures |r| <= |users|
  {
    if users == [] then []
    else
      var rest := EmailsOf(users[..|users| - 1], workEmail);
      match workEmail(users[|users| - 1].login)
      case None => rest
      case Some(e) => rest + [e]
  }

  /**
   * Regex.Replace(line, ".*[\\]", "") on a line without a newline: everything up
   * to and including the last backslash goes, which leaves the longest suffix
   * without a backslash.
   */
  function StripToLastBackslash(line: string): (r: string)
    ensures '\\' !in r
    ensures |r| <= |line| && r == line[|line| - |r|..]
    ensures '\\' !in line ==> r == line
    ensures '\\' in line ==> |r| < |line| && line[|line| - |r| - 1] == '\\'
  {
    if line == [] then []
    else if line[|line| - 1] == '\\' then []
    else StripToLastBackslash(line[..|line| - 1]) + [line[|line| - 1]]
  }

  function FirstIndexOf(s: string, ch: char): (k: nat)
    requires ch in s
    ensures k < |s| && s[k] == ch && ch !in s[..k]
  {
    if s[0] == ch then 0 else 1 + FirstIndexOf(s[1..], ch)
  }

  /**
   * The corp ID of a login. The regular expression's '.' does not match a
   * newline, so every line loses its own prefix up to its last backslash.
   */
  function CorpId(login: string): (r: string)
    ensures '\\' !in r
    ensures '\n' !in login ==> r == StripToLastBackslash(login)
    decreases |login|
  {
    if '\n' !in login then StripToLastBackslash(login)
    else
      var k := FirstIndexOf(login, '\n');
      StripToLastBackslash(login[..k]) + "\n" + CorpId(login[k + 1..])
  }

  /** GetMemeberCorpIds (the source's spelling): one corp ID per member, in member order; None for an absent group. */
  function GetMemeberCorpIds(groups: seq<SiteGroup>, name: string): (r: Option<seq<string>>)
    ensures r.None? <==> GetAsSPGroup(groups, name).None?
    ensures r.Some? ==>
      var users := groups[GetAsSPGroup(groups, name).value].users;
      |r.value| == |users|
      && forall i :: 0 <= i < |users| ==> r.value[i] == CorpId(users[i].login) && '\\' !in r.value[i]
  {
    match GetAsSPGroup(groups, name)
    case None => None
    case Some(k) =>
      var users := groups[k].users;
      Some(seq(|users|, i requires 0 <= i < |users| => CorpId(users[i].login)))
  }
}
