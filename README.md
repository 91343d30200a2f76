# SharePointPowerTools core, modelled in Dafny

SharePointPowerTools lets a solution declare SharePoint artefacts as C# classes
and reconcile them against a farm. This project models three parts of it:

- the **group reconciler** (`Group`): it looks a declared group up by name in a
  web's site groups and creates, replaces, updates or removes it. It binds the
  group to a role definition, sets owner and description, adds members, and
  reports members' corp IDs and work e-mails;
- the **timer-job reconciler** (`TimerJob`): it normalises a declared job's
  title and name against the site URL, deletes the web application's jobs of
  that name and registers a fresh job descriptor;
- the **property copier** (`Helper.SetProperties`): it copies every common,
  writable, non-lookup property from one object onto another.

Layout:

- `wrappers.dfy`: the `Option` type.
- `group_model.dfy` (module `Groups`): the web's state as a value (`Scope`), and
  each reconciliation step as a pure function of that state (`...Effect`). The
  pure lookups (`GetAsSPGroup`, `GetMemeberCorpIds`) are here too.
- `group_proofs.dfy` (module `GroupProofs`): what the steps promise, as lemmas
  about those functions.
- `group_reconciler.dfy` (module `GroupReconciler`): a mutable `Web` class and
  the reconciler's steps written as methods that change it in place. Each
  method's `ensures` ties the new state to its `...Effect` function.
- `timer_job.dfy` (module `TimerJobs`): the `TimerJob` class with its backing
  fields `_title` and `_name`, the `WebApplication` whose job list it edits, and
  lemmas about the normalisation and the job list.
- `helper.dfy` (module `PropertyCopier`): objects as name-to-value maps and the
  in-place copy.

Modelling decisions:

- An `SPGroup` handle is the group's position in the site-group collection. A
  null group is `None`.
- A null dereference, and `Enumerable.Last` on an empty sequence, become
  `Failed(...)` outcomes that leave the state as it was at the throw.
- `EnsureUser` is a total function (`WebContext.userIdOf`) from an account
  name to a user ID. The user it returns carries the login the web stores for
  that ID (`WebContext.loginOf`), so two spellings of one account give the same
  user. The user-profile lookup becomes the parameter `workEmail` of
  `GetMemberEmails`.
- A null string is modelled as `""`. That matches `string.IsNullOrEmpty` in the
  owner, default-user and title fallbacks.
- `Regex.Replace(login, ".*[\\\\]", "")` (the regex `.*[\\]`) is modelled exactly. `.` does not match
  a newline, so every line of the login loses its own prefix up to its last
  backslash. On a single-line login this is "keep the longest suffix without a
  backslash".
- `.Where(rd => rd.Type.ToString() == RoleType.ToString())` compares the names
  of two values of one enumeration, so it is modelled as equality of role types.

Three points where the code's behaviour is easy to misread:

- `AddGroup` (`SharePointPowerTools/Group.cs:152-169`) has no `try`/`finally`,
  so the model restores `AllowUnsafeUpdates` only on normal completion.
- `TimerJob.Create` (`SharePointPowerTools/TimerJob.cs:65-74`) fills the job
  descriptor with an object initializer, so `SetProperties` takes no part in
  it. The model builds the descriptor directly.
- Lookups read `spWeb.SiteGroups`, while `Remove` deletes through `spWeb.Groups`
  (`SharePointPowerTools/Group.cs:59`). The model has one collection for both
  (see "Left out").

## Model

| member | source | states |
|---|---|---|
| Groups.GetAsSPGroup | SharePointPowerTools/Group.cs:182-186 | None exactly when no site group has the name; otherwise the position of the FIRST group with that name |
| Groups.LastMatchingRole | SharePointPowerTools/Group.cs:99 | None exactly when no definition has the type; otherwise a definition of that type with no definition of that type after it |
| Groups.NewGroup | SharePointPowerTools/Group.cs:24-28 | the Reader role and no initial accounts; name, description and owner as declared |
| Groups.EnsureUser | SharePointPowerTools/Group.cs:120 | the user resolved for an account carries the ID the web gives that account and the login the web stores for that ID |
| Groups.OwnerLogin | SharePointPowerTools/Group.cs:155 | the declared owner account, or the web author's login when it is empty |
| Groups.DefaultUserLogin | SharePointPowerTools/Group.cs:156 | the first declared account, or the author's login when there is none or it is empty |
| Groups.AddAbsent | SharePointPowerTools/Group.cs:115-127 | the member list only grows, by at most one member per declared account |
| Groups.RemoveById | SharePointPowerTools/Group.cs:59 | the result is no longer than the collection and holds no group with the removed ID |
| Groups.AddGroupEffect | SharePointPowerTools/Group.cs:150-174 | one group is appended with the declared name, the next fresh ID, the owner resolved from the owner account and the default user as its only member; the earlier groups, role data and AllowUnsafeUpdates are as before |
| Groups.ConfigureEffect | SharePointPowerTools/Group.cs:94-113 | succeeds exactly when a role definition of the declared type exists; on failure nothing changes; the number of groups, fresh IDs, role definitions and AllowUnsafeUpdates are unchanged |
| Groups.CreateEffect | SharePointPowerTools/Group.cs:39-49 | IgnoreExisting on an existing group changes nothing; Create never reports GroupNotFound; role definitions and AllowUnsafeUpdates are unchanged |
| Groups.EnsureUserInGroupEffect | SharePointPowerTools/Group.cs:83-92 | succeeds exactly when the group exists, otherwise changes nothing; only the group collection can change, and never in size |
| Groups.EmailsOf | SharePointPowerTools/Group.cs:69-78 | at most one address per member |
| Groups.RemoveEffect | SharePointPowerTools/Group.cs:55-61 | succeeds exactly when the lookup finds the group; on failure the scope is unchanged |
| Groups.EnsureGroupEffect | SharePointPowerTools/Group.cs:129-148 | the group handed to ConfigureGroup, if any, is a position in the resulting collection |
| Groups.StripToLastBackslash | SharePointPowerTools/Group.cs:199 | the result has no backslash and is a suffix of the line; it is the whole line if the line has no backslash; otherwise a backslash comes right before it |
| Groups.CorpId | SharePointPowerTools/Group.cs:199 | the rewritten login has no backslash; on a login without a newline it is the longest backslash-free suffix |
| Groups.GetMemeberCorpIds | SharePointPowerTools/Group.cs:193-202 | None for an absent group; otherwise one backslash-free corp ID per member, in member order |
| GroupProofs.StripAfterLastBackslash | SharePointPowerTools/Group.cs:199 | whatever follows a line's last backslash is what the rewrite keeps |
| GroupProofs.CorpIdOfDomainLogin | SharePointPowerTools/Group.cs:199 | the login `DOMAIN\jdoe` gives `jdoe` |
| GroupProofs.CorpIdWithoutBackslash | SharePointPowerTools/Group.cs:199 | a login without a backslash is its own corp ID |
| GroupProofs.AddAbsentKeepsMembers | SharePointPowerTools/Group.cs:115-127 | adding users never removes or reorders existing members |
| GroupProofs.AddAbsentCoversNames | SharePointPowerTools/Group.cs:118-126 | every declared account, resolved, is a member afterwards |
| GroupProofs.AddAbsentKeepsIdsUnique | SharePointPowerTools/Group.cs:122-125 | a user whose ID is already present is never added again, so unique IDs stay unique |
| GroupProofs.AddAbsentAddsOnlyDeclared | SharePointPowerTools/Group.cs:118-126 | every added member is one of the declared accounts, resolved |
| GroupProofs.AddAbsentStable | SharePointPowerTools/Group.cs:122 | when every declared account is already a member, nothing changes |
| GroupProofs.AddAbsentIdempotent | SharePointPowerTools/Group.cs:115-127 | adding the same accounts twice equals adding them once |
| GroupProofs.SameNamesSameLookup | SharePointPowerTools/Group.cs:184 | the lookup depends only on the groups' names |
| GroupProofs.AddGroupRegistersOneGroup | SharePointPowerTools/Group.cs:150-174 | exactly one group with the name is appended, with a fresh ID, owner and default user; AllowUnsafeUpdates, role definitions and assignments are as before; the lookup then finds the new group; the scope stays valid |
| GroupProofs.NewGroupFallsBackToAuthor | SharePointPowerTools/Group.cs:24-28 | the constructor's defaults are the Reader role and no accounts, so the author becomes both owner and sole initial user |
| GroupProofs.RemoveByIdAbsent | SharePointPowerTools/Group.cs:59 | removing an ID no group has changes nothing |
| GroupProofs.RemoveByIdMembership | SharePointPowerTools/Group.cs:59 | a group survives RemoveByID exactly when its ID differs from the removed one |
| GroupProofs.RemoveByIdDropsOne | SharePointPowerTools/Group.cs:59 | with unique IDs, removing a group's ID drops exactly that group and keeps the others in order |
| GroupProofs.DropKeepsValid | SharePointPowerTools/Group.cs:59 | dropping one group keeps IDs and names unique, and the dropped name is then absent |
| GroupProofs.RemoveDeletesOnlyThatGroup | SharePointPowerTools/Group.cs:55-61 | an absent group fails with nothing changed; otherwise only that group is gone, everything else (other groups, role data, flag) is unchanged, and the lookup then fails |
| GroupProofs.ConfigureKeepsIdentity | SharePointPowerTools/Group.cs:94-113 | configuring changes no group's ID or name, keeps the scope valid and leaves every lookup unchanged |
| GroupProofs.ConfigureBindsLastRole | SharePointPowerTools/Group.cs:94-113 | with no matching definition it fails and changes nothing; otherwise it appends exactly one assignment binding the last matching definition, sets description and owner (the author by default), keeps all members, adds the declared accounts and leaves other groups alone |
| GroupProofs.LastMatchingRoleSkipsTail | SharePointPowerTools/Group.cs:99 | definitions of another type after the candidates do not change the choice |
| GroupProofs.RoleTieBreakTakesLast | SharePointPowerTools/Group.cs:99 | of several definitions of one type, the last in collection order is bound |
| GroupProofs.CreateIgnoreExistingIsNoOp | SharePointPowerTools/Group.cs:39-49 | IgnoreExisting on an existing group changes nothing |
| GroupProofs.CreateAbsentAddsOneGroup | SharePointPowerTools/Group.cs:39-49 | in every mode an absent group is created exactly once, keeping earlier groups, AllowUnsafeUpdates and role definitions; with a matching role it gets the owner or author, the default user first, the declared accounts, and one new assignment; without one it stays unconfigured |
| GroupProofs.ReplaceIsRemoveThenCreate | SharePointPowerTools/Group.cs:133-137 | ReplaceExisting on an existing group behaves as if it were first removed and the group then created |
| GroupProofs.FreshMembersAreDeclared | SharePointPowerTools/Group.cs:118-126 | a fresh group holds the default user first and otherwise only declared accounts |
| GroupProofs.CreateReplaceExistingStartsFresh | SharePointPowerTools/Group.cs:133-137 | the old group is gone and a group with a new ID is appended; no old member carries over unless declared |
| GroupProofs.CreateUpdateExistingReconfigures | SharePointPowerTools/Group.cs:39-49 | UpdateExisting keeps the group's ID and every old member, including the default user, applies the declared settings and appends one assignment; with no matching role it fails and changes nothing |
| GroupProofs.UpdateTwiceAppendsSecondAssignment | SharePointPowerTools/Group.cs:100-102 | a second UpdateExisting leaves the groups as they were and appends a second, identical role assignment |
| GroupProofs.EnsureUserInGroupIdempotent | SharePointPowerTools/Group.cs:83-92 | an absent group fails; otherwise the user is appended unless a member has its login; members are kept; a second call changes nothing |
| GroupProofs.OneAccountTwoSpellings | SharePointPowerTools/Group.cs:87-91 | once a user is a member, EnsureSPUserInGroup with the user resolved from another spelling of its account changes nothing |
| GroupProofs.EmailsOfMembership | SharePointPowerTools/Group.cs:69-78 | an address is listed exactly when some member's profile has it as work e-mail |
| GroupProofs.EmailsOfAppend | SharePointPowerTools/Group.cs:69-78 | the addresses follow member order |
| GroupProofs.EmailsSkipMembersWithoutProfile | SharePointPowerTools/Group.cs:73 | a member without a profile contributes no address |
| GroupReconciler.Web.AddSiteGroup | SharePointPowerTools/Group.cs:167 | appends one group under the next fresh ID; the model makes this call, and only it, require AllowUnsafeUpdates, so that AddGroup's save, force and restore is checked |
| GroupReconciler.Web.RemoveByID | SharePointPowerTools/Group.cs:59 | Groups.RemoveByID: only the group collection changes, as RemoveById says |
| GroupReconciler.Web.AddRoleAssignment | SharePointPowerTools/Group.cs:102 | RoleAssignments.Add appends one assignment and changes nothing else |
| GroupReconciler.Web.SetDescriptionAndOwner | SharePointPowerTools/Group.cs:104-107 | only the description and owner of the group at k change |
| GroupReconciler.Web.AddUser | SharePointPowerTools/Group.cs:89 | only the group at k changes, with the user appended to its members |
| GroupReconciler.AddGroup | SharePointPowerTools/Group.cs:150-174 | leaves the web exactly as AddGroupEffect says, valid, and returns the lookup of the new group |
| GroupReconciler.Remove | SharePointPowerTools/Group.cs:55-61 | state and outcome are RemoveEffect's |
| GroupReconciler.AddUsersToGroup | SharePointPowerTools/Group.cs:115-127 | the loop leaves the group's members as AddAbsent says and changes nothing else |
| GroupReconciler.ConfigureGroup | SharePointPowerTools/Group.cs:94-113 | state and outcome are ConfigureEffect's; the web stays valid |
| GroupReconciler.EnsureGroup | SharePointPowerTools/Group.cs:129-148 | state and handed-back group are EnsureGroupEffect's |
| GroupReconciler.Create | SharePointPowerTools/Group.cs:39-49 | state and outcome are CreateEffect's; the web stays valid |
| GroupReconciler.EnsureSPUserInGroup | SharePointPowerTools/Group.cs:83-92 | state and outcome are EnsureUserInGroupEffect's |
| GroupReconciler.GetMemberEmails | SharePointPowerTools/Group.cs:63-81 | None for an absent group; otherwise the loop's list is EmailsOf the members |
| TimerJobs.SpacesToUnderscores | SharePointPowerTools/TimerJob.cs:25 | same length; each space becomes an underscore and every other character is kept; no space remains |
| TimerJobs.EffectiveTitle | SharePointPowerTools/TimerJob.cs:31-40 | the stored title when non-empty, otherwise the name |
| TimerJobs.NormalizedTitle | SharePointPowerTools/TimerJob.cs:107-110 | the stored title is kept if the effective title contains the Url; otherwise it becomes the effective title, " - " and the Url, which then contains the Url |
| TimerJobs.NormalizedName | SharePointPowerTools/TimerJob.cs:112-115 | kept if it contains the Url; otherwise exactly the rewritten name, then "_", then the rewritten Url (each with spaces as underscores), one character longer than name and Url together; never introduces a space |
| TimerJobs.WithoutJobsNamed | SharePointPowerTools/TimerJob.cs:96-101 | the deletion never adds jobs |
| TimerJobs.WithoutJobsNamedStep | SharePointPowerTools/TimerJob.cs:98-101 | each job of the walk is dropped exactly when it has the name, and kept at the end otherwise |
| TimerJobs.ContainsSuffix | SharePointPowerTools/TimerJob.cs:107-115 | a string ending in the Url contains it |
| TimerJobs.MissingCharNotContained | SharePointPowerTools/TimerJob.cs:107-115 | a string without some character of the Url does not contain it |
| TimerJobs.SpacesToUnderscoresFixed | SharePointPowerTools/TimerJob.cs:25 | a string without spaces is unchanged by the setter |
| TimerJobs.SpacesToUnderscoresConcat | SharePointPowerTools/TimerJob.cs:25 | the setter's rewrite of a concatenation is the concatenation of rewrites, so the Url suffix is rewritten as well |
| TimerJobs.ValidatedTitleAndNameContainUrl | SharePointPowerTools/TimerJob.cs:105-116 | afterwards Title contains the Url; Name does too when neither the Url nor the name has a space |
| TimerJobs.ValidateTwiceIsValidateOnce | SharePointPowerTools/TimerJob.cs:105-116 | with no space in the Url or name, a second validation changes nothing |
| TimerJobs.SpacedUrlAppendsAgain | SharePointPowerTools/TimerJob.cs:112-115 | with a space in the Url, the name never contains it, so every validation appends "_" and the rewritten Url again |
| TimerJobs.NightlyCleanupName | SharePointPowerTools/TimerJob.cs:23-26 | the setter stores "Nightly Cleanup" as "Nightly_Cleanup" |
| TimerJobs.NightlyCleanupValidated | SharePointPowerTools/TimerJob.cs:105-116 | the title is normalised from the pre-suffix name: "Nightly_Cleanup - https://site/a" and "Nightly_Cleanup_https://site/a" |
| TimerJobs.WithoutJobsNamedMembership | SharePointPowerTools/TimerJob.cs:96-101 | a job survives exactly when its name differs; none of that name is left |
| TimerJobs.WithoutJobsNamedAppend | SharePointPowerTools/TimerJob.cs:96-101 | the surviving jobs keep their order |
| TimerJobs.CountNamedAppendOne | SharePointPowerTools/TimerJob.cs:76 | registering one job adds one to the count of its name and nothing to others |
| TimerJobs.CreateLeavesOneJobNamed | SharePointPowerTools/TimerJob.cs:61-76 | after Create exactly one job has the name, and it is the new descriptor |
| TimerJobs.TimerJob.constructor | SharePointPowerTools/TimerJob.cs:23-26 | the name passes through the setter, so it holds no space |
| TimerJobs.TimerJob.SetName | SharePointPowerTools/TimerJob.cs:23-26 | the stored name is the value with spaces replaced |
| TimerJobs.TimerJob.SetTitle | SharePointPowerTools/TimerJob.cs:42-45 | the stored title is the value |
| TimerJobs.TimerJob.Title | SharePointPowerTools/TimerJob.cs:31-40 | the stored title when it is non-empty, otherwise the name |
| TimerJobs.TimerJob.Descriptor | SharePointPowerTools/TimerJob.cs:65-74 | the descriptor carries the job's title, name, description, schedule and Url, and the executing method's name and declaring type |
| TimerJobs.TimerJob.ValidateTitleAndName | SharePointPowerTools/TimerJob.cs:105-116 | title first, then name, each suffixed with the Url unless it already contains it; the name keeps no space |
| TimerJobs.TimerJob.RemoveExistingJobs | SharePointPowerTools/TimerJob.cs:94-103 | the deleting loop leaves exactly the jobs of another name, in order |
| TimerJobs.TimerJob.Create | SharePointPowerTools/TimerJob.cs:56-82 | on a foreign site it reports SiteNotFound and changes nothing; otherwise title and name are normalised, the jobs of that name are deleted, and one descriptor with the normalised title, name, description, schedule, Url and method is appended |
| TimerJobs.TimerJob.Remove | SharePointPowerTools/TimerJob.cs:84-92 | on a foreign site a silent no-op; otherwise normalises and deletes the jobs of that name |
| PropertyCopier.Copied | SharePointPowerTools/Common/Helper.cs:19-37 | same property names as the target; a copied property takes the source's value; every other property keeps its own |
| PropertyCopier.CopiedIdempotent | SharePointPowerTools/Common/Helper.cs:19-37 | copying the same source twice equals copying it once |
| PropertyCopier.CopiedFromItself | SharePointPowerTools/Common/Helper.cs:19-37 | copying an object onto itself changes nothing |
| PropertyCopier.SetProperties | SharePointPowerTools/Common/Helper.cs:19-37 | the loop leaves the target as Copied says: a property is written only when the source has it, it is not LookupList or LookupField, and the target can write it; then it gets the source's value, even when the two objects are one |

## Left out

- `TimerJobCreator.Execute` (`SharePointPowerTools/Creators/TimerJob/TimerJobCreator.cs`) is not part of this model. It does reflection, disposes sites and relies on the scheduler at run time. The descriptor `TimerJob.Create` registers is the `JobDefinition` value.
- `Helper.GetUserProfile` calls the user-profile service. It is the parameter `workEmail` of `GetMemberEmails`.
- `IGroup` is an interface with no behaviour.
- Persistence (`Update()`, `Delete()`) is the in-place change of the modelled collections. `EnsureUser` provisioning is a total function from login to ID. `SPSchedule` is an opaque value.
- Null strings are modelled as `""`. The title/name checks where a null `Url` would throw (`Contains(null)`) are not modelled.
- TimerJobs.TimerJob.Create: a job whose `ExecutingMethod` is null throws at `SharePointPowerTools/TimerJob.cs:72`. By then `RemoveExistingJobs` has already deleted the jobs of that name, so the source ends with them deleted and nothing registered. The model's `MethodRef` is always present, so it does not capture that path.
- TimerJobs.TimerJob.ValidateTitleAndName: a job whose `_name` was never set throws a NullReferenceException at `SharePointPowerTools/TimerJob.cs:112`, or already at line 107 when `_title` is also unset. The model stores such a name as `""` and appends `"_"` and the Url instead.
- GroupReconciler.AddGroup: restores AllowUnsafeUpdates only on normal completion. An exception between setting and restoring it would leave it on, and exceptions inside platform calls are not modelled.
- GroupReconciler.Web: one collection stands for both `SiteGroups` and `Groups`. A group that is in the site collection but not in the web's group collection, where `Remove` would fail, is not modelled.
- The model never removes a deleted group's role assignments. Its list of role assignments only grows, and whatever clean-up the platform does when a group is removed is not modelled.
- GroupReconciler.GetMemberEmails: a profile whose `WorkEmail` value is null throws in the source. The model treats a profile as present with an e-mail, or absent.
- PropertyCopier.SetProperties: reflection details are not modelled (duplicate or hidden property names, indexers, getter side effects, type conversion in `SetValue`). Each object has unique property names, and a source property is a plain value.
- GroupReconciler.Web.AddSiteGroup: the platform's real rule for `AllowUnsafeUpdates` is not modelled. That rule concerns updates made during a GET request and then applies to every update, including `spWeb.Update()`, `RoleAssignments.Add`, `AddUser` and `RemoveByID`. The model requires the flag for `SiteGroups.Add` alone.
- Groups.EnsureUser: an empty or null account name is resolved like any other. A declared account list `[""]` gives the members `[author, EnsureUser(c, "")]`. The source passes that account to `spWeb.EnsureUser` at `SharePointPowerTools/Group.cs:120`, whose behaviour for it is not modelled. Account names the web cannot resolve are not modelled either.
- Groups.GetAsSPGroup: group names are compared ordinally, as `g.Name == this.Name` at `SharePointPowerTools/Group.cs:184` does. The platform's rule that site-group names are unique regardless of case is not modelled, so `ValidScope` allows "Members" and "members" side by side. In the source, `Create` for "members" on a web that holds "Members" finds no group and goes on to `AddGroup`. There `SiteGroups.Add` at `SharePointPowerTools/Group.cs:167` throws, with `AllowUnsafeUpdates` left on. The model instead appends a second group and restores the flag.
- Concurrency and locking: the model is single-threaded.
