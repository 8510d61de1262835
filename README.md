# ArioModiAPI repositories — a Dafny model

ArioModiAPI is an ASP.NET Core web API. It stores businesses, their users and
teams, and "nodes". A node is a point in a business's AR space. It belongs to
teams and carries components: labels, QR anchors and PDF links. Four
repositories sit between the controllers and the Entity Framework contexts:

- `BusinessesRepository`
- `UsersRepository`
- `TeamsRepository`
- `NodesRepository`

They do all the reading and writing. This project models those four
repositories and the conversion between a `Nodes` row and its `NodesDisplay`.

The database is one object, `Tables.Store`. It holds one sequence field per
table:

- users, businesses, business/user memberships;
- teams, user/team memberships, team roles;
- nodes, node components, labels, QR anchors, PDFs, node/team joins.

Each repository is a class whose methods update those fields in place. An
Entity Framework `SaveChanges()` can throw `DbUpdateException`. The model
represents this with a fault plan: `failing` is a set of save ordinals fixed
for the run. The store counts its saves, and save number *k* fails exactly
when *k* is in `failing`. Every write method commits a change only after the
save that follows it succeeds. On a failing save it returns `507` (insufficient
storage) and leaves every save that came before it in place. That partial
state is what the repository leaves behind.

The multi-step node operations (create, update, remove) are each specified by
a pure *plan* function in `NodeSpec`. A plan takes the node tables, the save
count and the fault plan, and gives the final tables, the final save count and
whether a save failed. Each method is proved equal to its plan. The
properties are then proved about the plans:

- every new row gets the next id;
- the side rows stay consistent with their components;
- after an update, a node's team set is exactly the requested one;
- a remove cascades.

Modules:

| module | file | what it holds |
|---|---|---|
| `Common` | Common.dfy | Option, Fallible, status codes, "largest id + 1", first-match lookup, the per-save `Progress` record |
| `Models` | Models.dfy | table rows, display models, the component-type switch, the node ⇄ display conversion |
| `Tables` | Tables.dfy | the `Store` class, its invariants and `SaveChanges` |
| `Filter` | Filter.dfy | the reflection-based query-by-example loop shared by every `GetSelect` |
| `Businesses`, `Users`, `Teams`, `Nodes` | *.dfy | one repository class each |
| `NodeSpec` | NodeSpec.dfy | the plan functions for node create, update and remove, and their lemmas |

Status codes are the source's own: 200, 201, 400, 403, 409 and 507.

## Model

| member | source | states |
|---|---|---|
| Common.NextId | Ario.API/Repositories/NodesRepository.cs:302-307 | a new id is larger than every existing key; it is 1 on an empty table, otherwise one more than an existing key |
| Common.NextIdAfterAppend | Ario.API/Repositories/UsersRepository.cs:398-406 | after appending a row that took the next id, the next id is one more than that row's id |
| Common.CreatesStayConsecutive | Ario.API/Repositories/BusinessesRepository.cs:275-283 | a table built only by "largest + 1" inserts keeps its ids consecutive |
| Common.Find | Ario.API/Repositories/BusinessesRepository.cs:175 | `SingleOrDefault` lookup: the first row with the key, or none exactly when no row has it |
| Common.FindUnique | Ario.API/Repositories/BusinessesRepository.cs:390 | with unique keys, the lookup returns the one row that has the key |
| Common.DeleteEachRemoves | Ario.API/Repositories/TeamsRepository.cs:381-392 | deleting rows one save at a time: nothing outside the doomed list is lost; once every save succeeds, every doomed row is gone |
| Models.FromDisplayFields | Ario.API/Models/Nodes.cs:31-42 | a row built from a display copies id, parent, business and name; it copies the coordinates when a position is present and leaves them 0 otherwise |
| Models.NodeRoundTrip | Ario.API/Models/DisplayModels/NodesDisplay.cs:28-41 | converting a row to a display and back gives the same row |
| Models.DisplayRoundTrip | Ario.API/Models/Nodes.cs:31-42 | a display with a position converts to a row and back unchanged, except that teams and components come back as empty lists |
| Tables.Store.constructor | Ario.API/Repositories/NodesRepository.cs:57-70 | a fresh store has empty tables, no saves, and satisfies both table invariants |
| Tables.Store.SaveChanges | Ario.API/Repositories/BusinessesRepository.cs:284-293 | each save advances the save counter, and it fails exactly when the new ordinal is in the fault plan |
| Tables.Store.MembershipOf | Ario.API/Repositories/BusinessesRepository.cs:96 | the (user, business) membership lookup finds a matching row, or none exactly when none exists |
| Tables.Store.MembershipIsUnique | Ario.API/Repositories/BusinessesRepository.cs:96 | with unique (user, business) pairs, the lookup returns the one membership row |
| Tables.Store.UserById | Ario.API/Repositories/UsersRepository.cs:150 | the user lookup finds the user with that id, or none exactly when there is none |
| Tables.Store.BusinessById | Ario.API/Repositories/BusinessesRepository.cs:188 | the business lookup finds the business with that id, or none exactly when there is none |
| Tables.Store.TeamJoinOf | Ario.API/Repositories/UsersRepository.cs:553 | the (user, team) lookup finds a matching join, or none exactly when none exists |
| Filter.TextValue | Ario.API/Repositories/NodesRepository.cs:96 | a text property reads as null exactly when it is absent |
| Filter.ObjValue | Ario.API/Repositories/NodesRepository.cs:96 | an object property reads as null exactly when it is absent |
| Filter.MatchFields | Ario.API/Repositories/NodesRepository.cs:92-115 | the per-property loop matches exactly when every constrained property (not null, not "0") is not blacklisted, is non-null on the entity and equals the query's value |
| Filter.TextField | Ario.API/Repositories/BusinessesRepository.cs:220-236 | a text property accepts exactly when the query leaves it null or the entity has the same string |
| Filter.NumField | Ario.API/Repositories/BusinessesRepository.cs:220-236 | a number property accepts exactly when the query is 0 or the entity has the same number |
| Filter.ObjField | Ario.API/Repositories/NodesRepository.cs:108 | a reference-typed property accepts only when the query leaves it null; a fresh display object is never `Equals` to the query's |
| Filter.UnconstrainedAccepts | Ario.API/Repositories/NodesRepository.cs:88-116 | a query that constrains nothing matches every entity |
| Filter.BlacklistedRejects | Ario.API/Repositories/NodesRepository.cs:98-102 | constraining a blacklisted property matches nothing |
| Businesses.BusinessMatch | Ario.API/Repositories/BusinessesRepository.cs:213-240 | a business display matches a query exactly when id, industry, name, address, phone and website agree where given and no owner is given |
| Businesses.MatchingMembers | Ario.API/Repositories/BusinessesRepository.cs:240 | the matched list holds exactly the displays that pass the filter |
| Businesses.BlankMatchesAll | Ario.API/Repositories/BusinessesRepository.cs:206-243 | the blank query keeps every display, in order |
| Businesses.NewBusiness | Ario.API/Models/Businesses.cs:23-30 | a new business takes the next id and every field of the display except the owner |
| Businesses.NewOwner | Ario.API/Repositories/BusinessesRepository.cs:294-301 | the owner takes the next user id and the current time as last-modified, and keeps every other field |
| Businesses.PatchBusiness | Ario.API/Repositories/BusinessesRepository.cs:353-367 | the id never changes; each given string and a non-zero industry replace the stored value, the others are kept; an all-blank patch changes nothing |
| Businesses.PatchIdempotent | Ario.API/Repositories/BusinessesRepository.cs:353-367 | applying the same patch twice equals applying it once |
| Businesses.BusinessesRepository.IsArio | Ario.API/Repositories/BusinessesRepository.cs:61-69 | allowed exactly for Ario employees; status 200 or 403 |
| Businesses.BusinessesRepository.IsBusinessOwner | Ario.API/Repositories/BusinessesRepository.cs:94-115 | allowed exactly for Ario employees and members of the business with role 2; status 200 or 403 |
| Businesses.BusinessesRepository.IsBusinessAdmin | Ario.API/Repositories/BusinessesRepository.cs:124-140 | allowed exactly for Ario employees and members with role 2 or 3; status 200 or 403 |
| Businesses.BusinessesRepository.IsBusinessUser | Ario.API/Repositories/BusinessesRepository.cs:149-166 | allowed exactly for Ario employees and any member of the business; status 200 or 403 |
| Businesses.BusinessesRepository.PrivilegeHierarchy | Ario.API/Repositories/BusinessesRepository.cs:94-166 | owner implies admin, admin implies user, and an Ario employee passes all three |
| Businesses.BusinessesRepository.BusinessExists | Ario.API/Repositories/BusinessesRepository.cs:187-194 | true exactly when a business has the id |
| Businesses.BusinessesRepository.CreateDisplay | Ario.API/Repositories/BusinessesRepository.cs:253-265 | the display copies the business row; only the owner is added |
| Businesses.BusinessesRepository.DisplayOwner | Ario.API/Repositories/BusinessesRepository.cs:257-261 | an owner shown is a stored user who holds role 2 in the business; none is shown without a role-2 member; one is shown when role-2 members exist and all of them are stored users |
| Businesses.BusinessesRepository.Find | Ario.API/Repositories/BusinessesRepository.cs:173-180 | null exactly when no business has the id; otherwise the display of that business |
| Businesses.BusinessesRepository.SelectedMembers | Ario.API/Repositories/BusinessesRepository.cs:210-242 | the selection holds exactly the displays of stored rows that pass the filter |
| Businesses.BusinessesRepository.BlankSelectsAll | Ario.API/Repositories/BusinessesRepository.cs:201-246 | the blank query selects the display of every business, in table order |
| Businesses.BusinessesRepository.GetSelect | Ario.API/Repositories/BusinessesRepository.cs:201-246 | a null query gives an empty list; otherwise the filtered displays of the business table, in order |
| Businesses.BusinessesRepository.SelectFrom | Ario.API/Repositories/BusinessesRepository.cs:210-242 | the loop over the rows builds exactly the filtered display list |
| Businesses.BusinessesRepository.Add | Ario.API/Repositories/BusinessesRepository.cs:272-341 | the business row is appended with the next id; with an owner, the owner user and then a role-2 membership follow, each after its own save; a failed save returns 507 and keeps the earlier saves; success returns 201; the invariants hold |
| Businesses.BusinessesRepository.AddOwner | Ario.API/Repositories/BusinessesRepository.cs:294-338 | appends the owner with the next user id, then the role-2 membership with the next membership id; each is committed only after its own save |
| Businesses.BusinessesRepository.Update | Ario.API/Repositories/BusinessesRepository.cs:348-381 | unknown id: 200 with nothing saved; otherwise one save, which either patches exactly that row (200) or changes nothing (507) |
| Businesses.BusinessesRepository.Remove | Ario.API/Repositories/BusinessesRepository.cs:388-409 | unknown id: 400 with nothing saved; otherwise one save, after which exactly the businesses with another id remain (200), or nothing changes (507) |
| Users.TeamMemberDisplay | Ario.API/Repositories/UsersRepository.cs:299-307 | a team member display exists exactly when the user has both a membership in the business and a join to the team, and then carries their roles; otherwise it is a null dereference |
| Users.PatchUserFields | Ario.API/Repositories/UsersRepository.cs:441-482 | id and the Ario flag never change; last-modified becomes the current time; each given name, email, phone, photo, company and non-zero industry replaces the stored value, the others are kept |
| Users.PatchUserIdempotent | Ario.API/Repositories/UsersRepository.cs:443-482 | applying the same user patch twice equals applying it once |
| Users.PatchUserBlank | Ario.API/Repositories/UsersRepository.cs:443-482 | a blank patch only refreshes last-modified |
| Users.NewUser | Ario.API/Models/Users.cs:34-44 | a new user takes the next id, the business's industry and name as its company, the current time, and the display's names, email, phone, photo and Ario flag |
| Users.UsersRepository.UserExists | Ario.API/Repositories/UsersRepository.cs:148-155 | true exactly when a user has the id; the business argument is ignored |
| Users.UsersRepository.CreateDisplay | Ario.API/Repositories/UsersRepository.cs:163-176 | 200 with a membership's business and role exactly when the user has a membership; otherwise 400 with the plain user display |
| Users.UsersRepository.MemberDisplaysExact | Ario.API/Repositories/UsersRepository.cs:242-250 | the member list holds exactly the displays of each membership whose user is stored |
| Users.UsersRepository.MemberDisplaysListed | Ario.API/Repositories/UsersRepository.cs:242-250 | the same, stated through the per-membership user lookup |
| Users.UsersRepository.GetByBusiness | Ario.API/Repositories/UsersRepository.cs:235-253 | the displays of the business's memberships with a stored user, in membership order |
| Users.UsersRepository.ListMembers | Ario.API/Repositories/UsersRepository.cs:242-250 | the loop builds exactly the member display list |
| Users.UsersRepository.MemberResults | Ario.API/Repositories/UsersRepository.cs:266-272 | one display attempt per team join, in order |
| Users.UsersRepository.MemberOf | Ario.API/Repositories/UsersRepository.cs:268-269 | a join's display succeeds exactly when the user is stored and is a member of both the business and the team; otherwise it throws a null reference |
| Users.UsersRepository.TeamMembersFacts | Ario.API/Repositories/UsersRepository.cs:261-275 | the team listing succeeds exactly when every join is displayable, and then it has one display per join with that join's user and the business |
| Users.UsersRepository.GetUsersOnTeam | Ario.API/Repositories/UsersRepository.cs:261-275 | the result is the team listing over the team's joins, or the first null dereference |
| Users.UsersRepository.AddByBusiness | Ario.API/Repositories/UsersRepository.cs:315-379 | an existing email gives 409 and a missing business gives 400, both with no change; otherwise the user is appended, then a role-5 membership, each only after its own save; a failed save gives 507; success gives 201 |
| Users.UsersRepository.SaveMember | Ario.API/Repositories/UsersRepository.cs:337-375 | appends the user, then the membership, each committed only after its own save |
| Users.UsersRepository.AddUserToTeam | Ario.API/Repositories/UsersRepository.cs:388-424 | no membership in the business gives 400 with no change; otherwise one save appends a role-3 team join with the next id (201) or changes nothing (507) |
| Users.UsersRepository.Update | Ario.API/Repositories/UsersRepository.cs:433-499 | no membership: 400 and no change; member but unknown user: 200 and no change; otherwise the role is saved first when one is given, then the patched user; each failed save gives 507 and keeps the earlier saves |
| Users.UsersRepository.SaveUpdate | Ario.API/Repositories/UsersRepository.cs:469-494 | the role save, when a role is given, comes before the user save; each change is committed only after its own save |
| Users.UsersRepository.RemoveByBusiness | Ario.API/Repositories/UsersRepository.cs:509-544 | unknown user or no membership: 400 and no change; otherwise the membership is removed, then the user, each after its own save (200), or 507 keeping the earlier removal |
| Users.UsersRepository.RemoveUserFromTeam | Ario.API/Repositories/UsersRepository.cs:552-571 | no such join: 400 and no change; otherwise one save removes exactly that join (200) or changes nothing (507) |
| Teams.TeamJoinsCascade | Ario.API/Repositories/TeamsRepository.cs:381-392 | deleting a team's user joins keeps every other join and ids stay unique; once every save succeeds, exactly the other teams' joins remain |
| Teams.TeamsRepository.TeamExists | Ario.API/Repositories/TeamsRepository.cs:78-85 | true exactly when a team with that id belongs to the business |
| Teams.TeamsRepository.IsTeamOnBusiness | Ario.API/Repositories/TeamsRepository.cs:94-107 | allowed exactly when the team with that id belongs to the business; status 200 or 400 |
| Teams.TeamsRepository.UserIsMember | Ario.API/Repositories/TeamsRepository.cs:117-126 | true exactly when the user is a member of the business and has a join to the team |
| Teams.TeamsRepository.MemberDisplaysThrow | Ario.API/Repositories/TeamsRepository.cs:229-238 | building a team's user list throws exactly when some join's stored user lacks the business membership or the team join |
| Teams.TeamsRepository.MemberDisplaysExact | Ario.API/Repositories/TeamsRepository.cs:229-238 | when it succeeds, the user list holds exactly the member displays of the joins whose user is stored |
| Teams.TeamsRepository.TeamDisplayOf | Ario.API/Repositories/TeamsRepository.cs:225-240 | a team display copies the team row and adds its users, or throws a null reference |
| Teams.TeamsRepository.CreateDisplay | Ario.API/Repositories/TeamsRepository.cs:225-240 | the loop builds exactly the team display |
| Teams.TeamsRepository.TeamDisplaysThrow | Ario.API/Repositories/TeamsRepository.cs:190-197 | listing teams throws exactly when some listed team's display throws |
| Teams.TeamsRepository.TeamDisplaysExact | Ario.API/Repositories/TeamsRepository.cs:190-197 | when it succeeds, the list holds exactly the displays of the listed teams |
| Teams.TeamsRepository.DisplayAll | Ario.API/Repositories/TeamsRepository.cs:190-197 | the loop builds exactly the team listing, or its first null dereference |
| Teams.TeamsRepository.GetUserTeams | Ario.API/Repositories/TeamsRepository.cs:186-198 | the displays of the business's teams that the user has joined |
| Teams.TeamsRepository.GetByBusiness | Ario.API/Repositories/TeamsRepository.cs:205-218 | the displays of all of the business's teams |
| Teams.TeamsRepository.AddByBusiness | Ario.API/Repositories/TeamsRepository.cs:269-296 | one save appends a team with the next id, the business, the creator and the name (201), or changes nothing (507) |
| Teams.TeamsRepository.Update | Ario.API/Repositories/TeamsRepository.cs:305-321 | no team with that id on the business: 400; otherwise one save renames the team when a name is given (200), or the uncaught storage exception escapes with no change |
| Teams.TeamsRepository.ResolvedRole | Ario.API/Repositories/TeamsRepository.cs:333-350 | a non-zero role id is used as given; otherwise the id of a stored role with the given name, or none |
| Teams.TeamsRepository.EditRole | Ario.API/Repositories/TeamsRepository.cs:330-369 | no join or no resolvable role: 400 and no change; otherwise one save sets exactly that join's role (200) or changes nothing (507) |
| Teams.TeamsRepository.DropJoins | Ario.API/Repositories/TeamsRepository.cs:381-392 | removes the joins one by one, one save each, stopping at the first failed save |
| Teams.TeamsRepository.RemoveByBusiness | Ario.API/Repositories/TeamsRepository.cs:377-409 | no such team: 400 and no change; otherwise the team's user joins are deleted one save at a time, then the team; the first failed save gives 507 and keeps what was already saved |
| NodeSpec.AddJoinsFacts | Ario.API/Repositories/NodesRepository.cs:322-329 | creating node/team joins keeps every earlier join and only adds joins of this node to the listed teams; once all saves succeed, every listed team that was not kept has a join |
| NodeSpec.TeamIdsOf | Ario.API/Repositories/NodesRepository.cs:225-228 | the team list has one entry per join, in order |
| NodeSpec.TeamIdsMembers | Ario.API/Repositories/NodesRepository.cs:225-228 | a team is listed exactly when a join names it |
| NodeSpec.PruneLists | Ario.API/Repositories/NodesRepository.cs:586-603 | the pruned joins are exactly the node's joins to unlisted teams, and the kept teams are those of its listed joins |
| NodeSpec.Reconcile | Ario.API/Repositories/NodesRepository.cs:582-613 | once a save has failed, reconciling the teams does nothing more |
| NodeSpec.ReconcileSets | Ario.API/Repositories/NodesRepository.cs:582-613 | reconciling keeps other nodes' joins and the joins to listed teams, and adds only this node's joins to listed teams, never a second join for a team the node already had; once every save succeeds, the node's teams are exactly the requested list |
| NodeSpec.SideRowStep | Ario.API/Repositories/NodesRepository.cs:444-543 | a side-row insert leaves the nodes, components and joins alone, and an unknown type writes nothing |
| NodeSpec.AppendComponentValid | Ario.API/Repositories/NodesRepository.cs:410-436 | appending a component with the next id keeps the node tables valid |
| NodeSpec.SideRowStepValid | Ario.API/Repositories/NodesRepository.cs:444-543 | inserting the side row for a fresh component of the matching kind keeps the node tables valid |
| NodeSpec.SideRowStepFacts | Ario.API/Repositories/NodesRepository.cs:444-543 | the side-row step only appends; on success the table of the component's kind grows by one, by the row with that table's next id, the component's id and the payload's content, and the other tables keep their size |
| NodeSpec.ComponentStepRows | Ario.API/Repositories/NodesRepository.cs:391-402 | adding one component only appends and leaves nodes and joins alone; on success the component row with the next id is appended and the side row carrying its content is present |
| NodeSpec.AddCompsGrows | Ario.API/Repositories/NodesRepository.cs:331-345 | adding a list of components only appends and leaves nodes and joins alone; on success one component row per listed component and one side row per listed component of each kind are added |
| NodeSpec.AddCompsPresent | Ario.API/Repositories/NodesRepository.cs:331-345 | once every save of the list succeeds, every listed component has a row on the node with a side row carrying its content |
| NodeSpec.AppendedKeepsComponent | Ario.API/Repositories/NodesRepository.cs:331-345 | a component and its side row, once present, survive later appends |
| NodeSpec.AddSpecRows | Ario.API/Repositories/NodesRepository.cs:299-348 | creating a node only appends to the component and side tables and keeps every old join; on success every listed component has a row on the new node with a side row carrying its content |
| NodeSpec.AppendLabelValid | Ario.API/Repositories/NodesRepository.cs:449-478 | a label row with the next id for a label component keeps the tables valid |
| NodeSpec.AppendQRAnchorValid | Ario.API/Repositories/NodesRepository.cs:480-508 | a QR-anchor row with the next id for a QR-anchor component keeps the tables valid |
| NodeSpec.AppendPdfValid | Ario.API/Repositories/NodesRepository.cs:510-539 | a PDF row with the next id for a PDF component keeps the tables valid |
| NodeSpec.ComponentStepValid | Ario.API/Repositories/NodesRepository.cs:391-402 | adding one component keeps the tables valid and only appends to the component and side tables; on success the new component row, with the next id, is present together with the side row carrying its content |
| NodeSpec.AddCompsFacts | Ario.API/Repositories/NodesRepository.cs:331-345 | adding a list of components keeps the tables valid and only appends to the component and side tables; on success every listed component has a row on the node with a side row carrying its content |
| NodeSpec.AddSpecFacts | Ario.API/Repositories/NodesRepository.cs:299-348 | creating a node keeps the tables valid and every old node, join, component and side row; on success the node row, a join for every team, and for every listed component a component row with a side row carrying its content exist |
| NodeSpec.PatchNode | Ario.API/Repositories/NodesRepository.cs:555-572 | a non-zero parent or business id overwrites; a present name overwrites; a present position replaces x, y and z; the id never changes; an all-blank display leaves the node as it was |
| NodeSpec.PatchNodeIdempotent | Ario.API/Repositories/NodesRepository.cs:555-572 | applying the same node patch twice equals applying it once |
| NodeSpec.NodeStep | Ario.API/Repositories/NodesRepository.cs:555-580 | the node save touches only the node table |
| NodeSpec.TeamsStep | Ario.API/Repositories/NodesRepository.cs:582-613 | team reconciliation touches only the join table |
| NodeSpec.PatchStep | Ario.API/Repositories/NodesRepository.cs:615-704 | a component patch touches only the side rows; a component with id 0 or an unknown type is skipped |
| NodeSpec.PatchComps | Ario.API/Repositories/NodesRepository.cs:615-704 | patching the components touches only the side rows |
| NodeSpec.PatchLabel | Ario.API/Repositories/NodesRepository.cs:626-637 | a present colour, description or screenshot replaces the stored style, text or screenshot; the row's ids are kept; an all-blank payload changes nothing |
| NodeSpec.PatchQRAnchor | Ario.API/Repositories/NodesRepository.cs:656-658 | a non-zero anchor id replaces the stored one; the row's ids are kept |
| NodeSpec.PatchPdf | Ario.API/Repositories/NodesRepository.cs:675-686 | a present link, title or description replaces the stored one; the row's ids are kept; an all-blank payload changes nothing |
| NodeSpec.LabelAfter | Ario.API/Repositories/NodesRepository.cs:615-650 | a label's edit by the listed components keeps its ids, and a label no listed component names is unchanged |
| NodeSpec.QRAnchorAfter | Ario.API/Repositories/NodesRepository.cs:615-671 | a QR anchor's edit by the listed components keeps its ids, and one no listed component names is unchanged |
| NodeSpec.PdfAfter | Ario.API/Repositories/NodesRepository.cs:615-700 | a PDF's edit by the listed components keeps its ids, and one no listed component names is unchanged |
| NodeSpec.PatchStepLabels | Ario.API/Repositories/NodesRepository.cs:622-650 | one listed component edits the label of the component it names, if any, and no other label; a failed save edits none |
| NodeSpec.PatchStepQRAnchors | Ario.API/Repositories/NodesRepository.cs:651-671 | one listed component edits the QR anchor of the component it names, if any, and no other; a failed save edits none |
| NodeSpec.PatchStepPdfs | Ario.API/Repositories/NodesRepository.cs:672-700 | one listed component edits the PDF of the component it names, if any, and no other; a failed save edits none |
| NodeSpec.PatchCompsLabels | Ario.API/Repositories/NodesRepository.cs:615-704 | the component loop neither adds nor removes a label, keeps every label's ids, leaves unnamed labels alone, and on success applies exactly the listed edits in order |
| NodeSpec.PatchCompsQRAnchors | Ario.API/Repositories/NodesRepository.cs:615-704 | the same for QR anchors |
| NodeSpec.PatchCompsPdfs | Ario.API/Repositories/NodesRepository.cs:615-704 | the same for PDFs |
| NodeSpec.PatchStepValid | Ario.API/Repositories/NodesRepository.cs:620-700 | patching one component's side row keeps the tables valid |
| NodeSpec.PatchLabelValid | Ario.API/Repositories/NodesRepository.cs:622-650 | patching a label row keeps the tables valid |
| NodeSpec.PatchQRAnchorValid | Ario.API/Repositories/NodesRepository.cs:651-671 | patching a QR-anchor row keeps the tables valid |
| NodeSpec.PatchPdfValid | Ario.API/Repositories/NodesRepository.cs:672-700 | patching a PDF row keeps the tables valid |
| NodeSpec.PatchCompsValid | Ario.API/Repositories/NodesRepository.cs:615-704 | patching all the given components keeps the tables valid |
| NodeSpec.NodeStepFacts | Ario.API/Repositories/NodesRepository.cs:555-580 | the node save keeps ids unique and every other node; on success the node with the id is the patched one |
| NodeSpec.UpdateSpecFacts | Ario.API/Repositories/NodesRepository.cs:553-706 | an update keeps the tables valid, keeps the component table and every other node; on success the node is patched |
| NodeSpec.UpdateSideRows | Ario.API/Repositories/NodesRepository.cs:615-704 | an update never creates or deletes a label, QR anchor or PDF row; rows of unlisted components stay as they were even after a failed save; on success every side row is its old row edited by exactly the listed components that name it |
| NodeSpec.UpdateTeams | Ario.API/Repositories/NodesRepository.cs:582-613 | without a team list the joins are untouched; with one, other nodes' joins survive, only listed teams the node did not already have are added, and on success the node's teams are exactly the list |
| NodeSpec.DropSide | Ario.API/Repositories/NodesRepository.cs:789-850 | dropping a side row touches only the side-row tables |
| NodeSpec.DropStep | Ario.API/Repositories/NodesRepository.cs:789-864 | dropping a component leaves nodes and joins alone |
| NodeSpec.DropAll | Ario.API/Repositories/NodesRepository.cs:743-749 | dropping the node's components leaves nodes and joins alone |
| NodeSpec.RemoveTail | Ario.API/Repositories/NodesRepository.cs:751-776 | once a save has failed, the join and node removal does nothing |
| NodeSpec.SideRowOwner | Ario.API/Repositories/NodesRepository.cs:233-286 | in valid tables, a side row belongs to a component of its own kind |
| NodeSpec.DropSideFacts | Ario.API/Repositories/NodesRepository.cs:789-850 | dropping a component's side row keeps the tables valid and every other side row; on success no side row refers to the component |
| NodeSpec.RemoveLabelFacts | Ario.API/Repositories/NodesRepository.cs:792-810 | removing a component's label keeps the tables valid and every other label, and leaves no label for it |
| NodeSpec.RemoveQRAnchorFacts | Ario.API/Repositories/NodesRepository.cs:812-831 | the same for the QR-anchor row |
| NodeSpec.RemovePdfFacts | Ario.API/Repositories/NodesRepository.cs:832-850 | the same for the PDF row |
| NodeSpec.DropRowFacts | Ario.API/Repositories/NodesRepository.cs:852-862 | deleting a component row with no side rows left keeps the tables valid and every other component; on success the component is gone |
| NodeSpec.DropStepFacts | Ario.API/Repositories/NodesRepository.cs:789-864 | dropping a component keeps the tables valid, every other component and every unrelated side row; on success the component and its side rows are gone |
| NodeSpec.DropAllKeeps | Ario.API/Repositories/NodesRepository.cs:743-749 | dropping the node's components keeps the tables valid, every other component and every side row of other components |
| NodeSpec.DropAllClears | Ario.API/Repositories/NodesRepository.cs:743-749 | on success no dropped component and none of their side rows remain |
| NodeSpec.DropAllFacts | Ario.API/Repositories/NodesRepository.cs:743-749 | both of the above together |
| NodeSpec.RemoveTailFacts | Ario.API/Repositories/NodesRepository.cs:751-776 | removing joins and the node keeps the tables valid and every other node and join; on success neither the node nor any of its joins remains |
| NodeSpec.RemoveKeeps | Ario.API/Repositories/NodesRepository.cs:738-782 | removing a node keeps the tables valid and everything that does not belong to it |
| NodeSpec.RemoveCascade | Ario.API/Repositories/NodesRepository.cs:738-782 | on success the node, its components, their side rows and its team joins are all gone |
| Nodes.ComponentDataOf | Ario.API/Repositories/NodesRepository.cs:233-287 | component data is produced only for a recognised type |
| Nodes.ComponentDataShown | Ario.API/Repositories/NodesRepository.cs:233-287 | a component is shown exactly when it has a side row of its kind, and then with its id, node and type |
| Nodes.ComponentDataContent | Ario.API/Repositories/NodesRepository.cs:237-284 | the shown data carries that side row's fields (label text, style and screenshot; QR anchor id; PDF link, title and description) |
| Nodes.ComponentDatasExact | Ario.API/Repositories/NodesRepository.cs:230-288 | the component list holds exactly the data of the node's components that are shown |
| Nodes.DisplayOfFacts | Ario.API/Repositories/NodesRepository.cs:221-291 | a node display converts back to the row; its teams are exactly the node's joined teams; its components are exactly the shown data of the node's components |
| Nodes.NodeMatch | Ario.API/Repositories/NodesRepository.cs:92-115 | a node display matches exactly when id, parent, business and name agree where given, and no position, team list or component list is given |
| Nodes.AllDisplaysMembers | Ario.API/Repositories/NodesRepository.cs:86-89 | the display list holds exactly the displays of the rows |
| Nodes.MatchingMembers | Ario.API/Repositories/NodesRepository.cs:116 | the matched list holds exactly the displays that pass the filter |
| Nodes.BlankMatchesAll | Ario.API/Repositories/NodesRepository.cs:82-118 | the blank query keeps every display, in order |
| Nodes.SelectedMembers | Ario.API/Repositories/NodesRepository.cs:84-118 | the selection holds exactly the displays of stored rows that pass the filter |
| Nodes.BlankSelectsAll | Ario.API/Repositories/NodesRepository.cs:77-122 | the blank query selects the display of every node, in order |
| Nodes.ByBusinessOnly | Ario.API/Repositories/NodesRepository.cs:131-135 | fixing a non-zero business id selects only that business's nodes |
| Nodes.TeamNodesExact | Ario.API/Repositories/NodesRepository.cs:170-183 | the team's node list holds exactly the displays of stored nodes that a join of the team names |
| Nodes.DroppedIsGone | Ario.API/Repositories/NodesRepository.cs:852-862 | with unique component ids, the only component carrying the chosen component's id is that component, so the delete by id meets no other row |
| Nodes.RemoveValid | Ario.API/Repositories/NodesRepository.cs:738-782 | a remove keeps the tables valid; on success no node, component or join with the id remains |
| Nodes.UpdateOutcome | Ario.API/Repositories/NodesRepository.cs:553-706 | an update keeps the tables valid and the side tables' sizes; on success the node is patched, its teams are exactly the requested list, and every side row is its old row edited by the listed components that name it |
| Nodes.NodesRepository.NodeExists | Ario.API/Repositories/NodesRepository.cs:190-197 | true exactly when a node has the id |
| Nodes.NodesRepository.TeamsOf | Ario.API/Repositories/NodesRepository.cs:225-228 | the loop lists the teams of the node's joins, in order |
| Nodes.NodesRepository.ComponentsOf | Ario.API/Repositories/NodesRepository.cs:230-288 | the loop lists the shown data of the node's components, in order |
| Nodes.NodesRepository.DataOf | Ario.API/Repositories/NodesRepository.cs:233-287 | the type switch yields exactly the component data of the specification |
| Nodes.NodesRepository.CreateDisplay | Ario.API/Repositories/NodesRepository.cs:221-291 | the display built is the specified node display |
| Nodes.NodesRepository.Find | Ario.API/Repositories/NodesRepository.cs:205-213 | null exactly when no node has the id; otherwise the display of that node |
| Nodes.NodesRepository.GetSelect | Ario.API/Repositories/NodesRepository.cs:77-122 | a null query gives an empty list; otherwise the filtered displays of the node table, in order |
| Nodes.NodesRepository.SelectFrom | Ario.API/Repositories/NodesRepository.cs:86-118 | the loop builds exactly the filtered display list |
| Nodes.NodesRepository.GetByBusiness | Ario.API/Repositories/NodesRepository.cs:131-135 | selection with the business id overwritten; with a non-zero id every result belongs to that business |
| Nodes.NodesRepository.GetChildren | Ario.API/Repositories/NodesRepository.cs:145-163 | a missing parent is a null dereference; a parent in another business gives 400 and no list; otherwise 200 and exactly the displays of the parent's children |
| Nodes.NodesRepository.GetNodesOnTeam | Ario.API/Repositories/NodesRepository.cs:170-183 | the displays of the stored nodes joined to the team, in join order |
| Nodes.NodesRepository.CreateTeamJoin | Ario.API/Repositories/NodesRepository.cs:355-381 | one save appends a join with the next id (200) or changes nothing (507) |
| Nodes.NodesRepository.CreateTeamJoins | Ario.API/Repositories/NodesRepository.cs:322-329 | joins for the listed teams, skipping kept ones, one save each, stopping at the first failure |
| Nodes.NodesRepository.CreateComp | Ario.API/Repositories/NodesRepository.cs:410-436 | one save appends a component with the next id and returns that id, or returns 0 and 507 |
| Nodes.NodesRepository.CreateCompType | Ario.API/Repositories/NodesRepository.cs:444-543 | the side tables are only appended to; on 200 exactly the table of the component's kind grew by one, by a row for the component carrying its content; an unknown type writes nothing |
| Nodes.NodesRepository.CreateSideRow | Ario.API/Repositories/NodesRepository.cs:444-543 | the side row of the component's kind is appended with the next id after one save, as the side-row step says; an unknown type saves nothing |
| Nodes.NodesRepository.AddComponent | Ario.API/Repositories/NodesRepository.cs:391-402 | the component row, then its side row; the tables stay valid and are only appended to; on 200 one component row was added, with the next id, on the node, and its side row carries the requested content |
| Nodes.NodesRepository.SaveComponent | Ario.API/Repositories/NodesRepository.cs:391-402 | the component row is saved, then, if that succeeded, its side row, as the component step says |
| Nodes.NodesRepository.CreateComponents | Ario.API/Repositories/NodesRepository.cs:331-345 | adds each component in order, stopping at the first failed save |
| Nodes.NodesRepository.Add | Ario.API/Repositories/NodesRepository.cs:299-348 | the node with the next id, then its team joins, then its components, as the creation plan says; the tables stay valid and old rows are kept; on 201 the node, a join for every team, and for every listed component a component row with a side row carrying its content exist |
| Nodes.NodesRepository.AddRows | Ario.API/Repositories/NodesRepository.cs:301-346 | the three stages of creation follow the creation plan exactly |
| Nodes.NodesRepository.ReconcileTeams | Ario.API/Repositories/NodesRepository.cs:582-613 | prunes then creates joins as the reconciliation plan says |
| Nodes.NodesRepository.DeleteJoin | Ario.API/Repositories/NodesRepository.cs:590-601 | one save removes the join with the id, or changes nothing |
| Nodes.NodesRepository.PruneJoins | Ario.API/Repositories/NodesRepository.cs:586-603 | deletes the node's joins to unlisted teams one save each; on success returns the teams it kept |
| Nodes.NodesRepository.PatchComponent | Ario.API/Repositories/NodesRepository.cs:617-702 | one component's side-row patch follows the patch step |
| Nodes.NodesRepository.PatchLabelRow | Ario.API/Repositories/NodesRepository.cs:622-650 | the label patch follows its step: only the matching label row changes, after one save |
| Nodes.NodesRepository.PatchQRAnchorRow | Ario.API/Repositories/NodesRepository.cs:651-671 | the QR-anchor patch follows its step |
| Nodes.NodesRepository.PatchPdfRow | Ario.API/Repositories/NodesRepository.cs:672-700 | the PDF patch follows its step |
| Nodes.NodesRepository.UpdateNode | Ario.API/Repositories/NodesRepository.cs:555-580 | the node patch and its save follow the node step |
| Nodes.NodesRepository.PatchComponents | Ario.API/Repositories/NodesRepository.cs:615-704 | each component is patched in order, stopping at the first failed save |
| Nodes.NodesRepository.Update | Ario.API/Repositories/NodesRepository.cs:553-706 | node, teams, then components, as the update plan says; the tables stay valid; on 200 the node is patched, its teams are exactly the requested list, no side row is created or deleted, and every side row is its old row edited by the listed components that name it |
| Nodes.NodesRepository.UpdateInOrder | Ario.API/Repositories/NodesRepository.cs:553-706 | the node, team and component stages run in order, as the update plan says, returning 507 at the first failing save |
| Nodes.NodesRepository.DropSideRow | Ario.API/Repositories/NodesRepository.cs:789-850 | removing a component's side row follows the drop step |
| Nodes.NodesRepository.DropLabelRow | Ario.API/Repositories/NodesRepository.cs:792-810 | removing a component's label follows its step |
| Nodes.NodesRepository.DropQRAnchorRow | Ario.API/Repositories/NodesRepository.cs:812-831 | removing a component's QR anchor follows its step |
| Nodes.NodesRepository.DropPdfRow | Ario.API/Repositories/NodesRepository.cs:832-850 | removing a component's PDF row follows its step |
| Nodes.NodesRepository.DropComponentType | Ario.API/Repositories/NodesRepository.cs:789-864 | the side row, then the component row, each after its own save |
| Nodes.NodesRepository.DropComponent | Ario.API/Repositories/NodesRepository.cs:716-729 | no such component on the node: 400 and no change; otherwise the drop step; the tables stay valid; on 200 neither the component nor any side row of it remains |
| Nodes.NodesRepository.DropComponents | Ario.API/Repositories/NodesRepository.cs:743-749 | drops each of the node's components in order, stopping at the first failed save |
| Nodes.NodesRepository.Remove | Ario.API/Repositories/NodesRepository.cs:738-782 | unknown node: 400 and no change; otherwise the removal plan; the tables stay valid; on 200 no node, component or join with the id remains |
| Nodes.NodesRepository.RemoveJoinsAndNode | Ario.API/Repositories/NodesRepository.cs:751-776 | the node's joins go in one save, then the node in another, as the plan says |

## Left out

**Not part of this model**
- Authentication: `AuthenticateUser` calls the identity provider over the network.
- `UsersRepository.GetAll` and `TeamsRepository.GetSelect` are left out. Their reflection loops read the properties of one type and apply them to another. What that does depends on .NET reflection.
- The private `UsersRepository.CreateDisplay(Users)` is left out; only `GetAll` uses it.
- `TeamsRepository.Find` is left out.
- The controllers, JSON converters, model binders, `ContextGenerator.c` and `RolesRepository` are not part of this model.

**Data representation**
- `Int64` ids and counters are unbounded integers. "Largest id + 1" never wraps.
- `decimal` positions are `real`.
- `DateTime.Now.ToString()` is a `now` string parameter.
- Console logging is dropped.

**Semantics that differ from the source**
- `SingleOrDefault` on a key that is not unique throws `InvalidOperationException` in the source. The model returns the first match. The store invariants keep primary keys unique. They do not keep the (user, business) pair of a membership unique. User/team joins are not kept unique either, because `AddUserToTeam` can add a duplicate.
- A failed save commits nothing in the model. Entity Framework would keep the rejected changes tracked, and a later `SaveChanges` on the same context could write them. Concurrent requests are not modelled.
- The model does not write back `item.id` and `data.nodeID`. The source assigns these on the caller's objects; only the stored rows are modelled.
- No display model in the source carries the `[BlackListed]` attribute, so every filter field is built with the flag off. The filter lemmas still cover the flag.
- A query that sets position, teams, components or owner selects nothing. Those are object references, and a display built fresh never `Equals` the query's object.
- `TeamsRepository.Update` does not catch a failing `SaveChanges`. The model returns this as the `DbUpdate` exception.
- `GetChildren`, and a team member whose membership is missing, dereference null in the source. The model returns this as the `NullReference` exception.

**Preconditions**
- Businesses.BusinessesRepository.IsBusinessOwner, IsBusinessAdmin, IsBusinessUser and PrivilegeHierarchy require that no user holds two membership rows for one business. With a duplicate, the source's `SingleOrDefault` throws `InvalidOperationException`; the model does not represent that exception.
- Nodes.NodesRepository.Add, Update, AddComponent, CreateComponents, CreateCompType, PatchComponent and PatchComponents require every component's data to match its type string. The JSON converter builds exactly that pairing; a mismatched pair cannot reach the repository.

**Deliberately weaker contracts**
- Nodes.NodesRepository.AddComponent, DropComponent and Remove do not check business ownership, and neither does the source. AddComponent does not check that the node exists, also like the source. No contract claims such a check.
- Nodes.NodesRepository.Add does not state the ids its component and side rows receive, only that each listed component has one on the new node carrying its content; the ids follow from the creation plan it is proved equal to.
