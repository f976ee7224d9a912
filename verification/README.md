# Granular, verified

This project models the permission broker in Dafny and proves what it is for: a request is answered
yes exactly when a human approved, in time, permissions that cover it, and the policies gathered for
its token parse.

Three layers meet in one decision.

- The authorization store. `Store` is the store as a class: three maps updated in place by
  scan-then-delete loops, the clock read where the code reads it. `StoreModel` says what each
  transaction does to the contents; `StoreLaws` proves laws of whole runs (the janitor cannot be
  noticed, grants and proposals are accounted for). `Handlers` interleaves the HTTP handlers as small
  programs of several transactions and proves safety of every run; `Activity` shows an approver their
  history, in the order of `Ordering`.
- The permission compiler and its evaluator. `Schemas`, `Compiler`, `Templates` and `Presentations`
  turn capabilities and templates into policies and consent text; `Cedar` gives policies their
  meaning and the decision procedure; `Reachability` is the hierarchy underneath. `CompilerLaws`
  proves that compilation preserves meaning, `Catalog` that the client's own group expansion agrees
  with the server (`Depth` measures the resource tree it prints), `Authorization` joins everything end to
  end, `Completeness` shows that what is signed and approved gets through, and `Sequential` that the
  handlers as methods and the handlers as interleaved programs are the same.
- The naming and matching algorithms: `GitHub`, `Routes`, `Substitution`, `MatchStrings`, `Labels`,
  `CommandTree` and `Commands`, over the string operations of `Strings`.

`dafny verify dfyconfig.toml` checks the whole project.

## Reading the model

- A policy is data (effect, principal, actions, scope, conditions). `in` is the reflexive-transitive
  closure of parents; a condition on a missing attribute, or on one of the wrong kind, is an error
  and the policy does not apply; a decision needs a satisfied permit and no satisfied forbid.
- The clock is nondecreasing and otherwise arbitrary; a creation reads it before its transaction
  begins, as the code does. Generated ids are consecutive numbers, which stands for their freshness;
  where the text of an id stands in a bucket's key order is an arbitrary ranking (`StoreModel.Rank`),
  and listings are scanned in that order. Random tokens are parameters. Every other iteration over a
  map or a bucket meets the keys in an arbitrary order, so every order is covered.
- The keyed hashes, the decoding of bodies, lower-casing of addresses, the printing of match maps and
  whether policy texts parse are arbitrary functions; the byte encoding of what is signed is taken to
  be faithful.
- The meaning theorem assumes what a resource server's author must see to: agent, action and
  resource entity types do not overlap, contain no NUL character, and references to one entity agree
  on its parents. `GitHub.GitHubIsWellFormed` discharges all of it for GitHub.
- The end-to-end theorems speak of runs in which resource servers sign only what their own schemas
  issue (`Authorization.SignsIssued`; `Authorization.HandleSign` shows it of the signing handler),
  nobody else made a submitted item verify (`Authorization.Unforged`), and no two resource servers act
  for one agent. `Completeness.CoveredGetsThrough` extends every such run to one in which a verification
  is answered yes, whenever the policies of one covering bundle parse, so they are not empty.

## Where the code and its text differ

- `renderSummary` depends on map order exactly when the value of a name used in the summary holds the
  placeholder of another name that stands for something else
  (`Substitution.RendersOnceExactly`). Set apart are values that refer back to what refers to them and
  to themselves as well: for those, different orders can agree by accident
  (`Substitution.EntangledCanRenderOnce`).
- The catalogue lists an action under the groups of every one of its declarations, while the server
  goes by the last one: nothing granted is hidden, and the listing is right exactly when the last
  declaration leads everywhere the others do (`Catalog.ListingIsRightExactly`).
- All of a token's policies are parsed together, so one grant whose policies keep the whole from
  parsing turns every verification for the token into an error, whatever else is approved
  (`Authorization.AllowedMeansApproved`).
- A match does not survive printing and reading when some key or value contains a comma, has white
  space around it, or a key contains an equals sign, and only then (`MatchStrings.ParseOfFormat`).
- The janitor is described as purely durable bookkeeping, yet a decision on a lapsed proposal reports
  "expired" before a purge and "already decided" after it
  (`StoreLaws.ErrorsDifferExactlyOnLapsed`).
- `applyAddRemove` is not idempotent when a value is both added and removed, unless the removed
  additions come last (`Labels.MergeIsIdempotent`).
- The shipped template for commenting on open issues carries conditions on attributes no GitHub
  reference has: it is issued whenever an owner is given, and authorizes nothing
  (`GitHub.CommentOnOpenIssuesIsIssued`, `GitHub.CommentOnOpenIssuesAllowsNothing`).

## Model

| member | source | states |
|---|---|---|
| `Reachability.Walk.Visit` | clientcli/run.go:313-322 | The recursive visit marks exactly what is reachable through unmarked nodes and leaves every newly marked node's parents marked; it terminates on cyclic hierarchies. |
| `Reachability.AncestorsOf` | clientcli/run.go:312-326 | The set returned is the node and everything above it in the reflexive-transitive closure of the parent relation, both directions. |
| `Cedar.EvalAllTrue` | resourceserver/template.go:108-110 | A conjunction of conditions lets a request through exactly when every single condition evaluates to true; errors and short-circuiting never do. |
| `Cedar.ConditionAsSent` | authserver/server/eval.go:88-131 | What each kind of condition says of an attribute as it was sent: text and other scalars compare as text, lists as sets of texts, a missing attribute or one of the wrong kind is an error. |
| `Cedar.GlobAtStar` | resourceserver/template.go:137-138 | A star in a pattern stands for any text; with `Cedar.GlobOfText`, every other character for itself. |
| `Cedar.BuildEntities` | authserver/server/eval.go:64-79 | The loop builds the map in which a later entity replaces an earlier one of the same reference. |
| `Cedar.LastOneCounts` | authserver/server/eval.go:64-79 | The last entity of a reference is the one found, with its parents and attributes. |
| `Cedar.LastWinsOfDistinct` | authserver/server/eval.go:64-79 | When no two entities share a reference, every entity is found with its own data and nothing else is in the map. |
| `Cedar.Authorize` | authserver/server/eval.go:46-51 | Allowed exactly when some permit applies and no forbid does: equal principal, the action and the resource at or below what is named, every condition true of the resource's attributes. |
| `Cedar.Evaluate` | authserver/server/eval.go:35-57 | Fails exactly when there are policies and questions and the policies do not parse; otherwise the early-exit loop answers yes exactly when there are policies and questions and every question is allowed. |
| `Schemas.ActionLattice` | resourceserver/schema.go:166-175 | The names are the declared ones; the last declaration of an action gives its groups, and the last declaration of a group, where no action hides it, its parents. |
| `Schemas.HasActionMeansDeclared` | resourceserver/schema.go:138-141 | A name is known exactly when some group or action declares it. |
| `Schemas.EntityTypeIsFirst` | resourceserver/schema.go:150-157 | The first resource type of a name gives its entity type; an unknown name has the empty type. |
| `Compiler.PoliciesFromCapabilities` | resourceserver/policy.go:22-50 | Succeeds exactly when there are capabilities and none has a fault, giving at each index the unconditional permit for the agent, the named actions and the resolved scope; otherwise the error is the first fault of the first faulty capability. |
| `Compiler.FaultsExactly` | resourceserver/policy.go:27-44 | When each fault is reported: no action, the first undeclared action, no resolver, the resolver's own error, in that order. |
| `Compiler.VerifyRequests` | resourceserver/policy.go:61-73 | One question per requirement, in order: the agent, the action, the resource under its entity type, and the requirement's context. |
| `Compiler.WorldBuilder.Add` | resourceserver/policy.go:88-95 | The sink keeps the first entity offered under each key. |
| `Compiler.WorldBuilder.AddResource` | resourceserver/policy.go:121-130 | The recursion offers a resource's whole chain, root first. |
| `Compiler.VerifyWorld` | resourceserver/policy.go:85-111 | For some iteration order of the lattice map, the world is the first-wins deduplication of agent, lattice and resource chains, the agent first. |
| `CompilerLaws.FirstWinsIsFirst` | resourceserver/policy.go:88-95 | An entity is kept exactly when it is the first offered under its key. |
| `CompilerLaws.DeduplicatedLookup` | authserver/server/eval.go:64-79 | First-wins deduplication and last-wins insertion agree: every kept entity is found in the map as it was offered, and only those. |
| `CompilerLaws.WorldIgnoresIterationOrder` | resourceserver/policy.go:99-105 | Two worlds built from the same schema and requirements in different map orders give the same entity map, with no assumption on names. |
| `CompilerLaws.WorldIsFaithful` | resourceserver/policy.go:85-130 | The world's hierarchy is the lattice on action entities and the parent chains on resources. |
| `CompilerLaws.WorldContainsAncestry` | resourceserver/policy.go:107-109 | Every requirement's resource and all its ancestors are in the world. |
| `CompilerLaws.HeadMeansCovers` | resourceserver/policy.go:45-47 | A policy's head is satisfied in the world exactly when its capability covers the requirement in the schema's own terms. |
| `CompilerLaws.CompilationPreservesMeaning` | resourceserver/policy.go:22-130 | The server's decision on a compiled bundle in the compiled world is yes exactly when there is a requirement and each is covered by some capability: a granted name above its action, a scope equal to or above its resource. |
| `Presentations.ActionLabels` | resourceserver/present.go:47-67 | One label per name, in order: the description, else the title, else the name of its last group declaration, failing that of its last action declaration, failing that the name. |
| `Presentations.TypeNameIsFirst` | resourceserver/present.go:101-111 | The first resource type with the key as its entity or name gives the human name: its title, else its name; an unknown key stands for itself. |
| `Presentations.BuildPresentation` | resourceserver/present.go:21-36 | One detail per capability at the same index: its actions' labels, and the resolved scope's type and caption, or the printed match; when the scope does not resolve, the selector's own type and match. |
| `Presentations.PresentationAligned` | resourceserver/present.go:8-12 | Presentation and policies compiled from one bundle are index-aligned: each detail's labels and type are those of its own permit's actions and scope, and its value is the resolver's caption, or the printed match when that is empty. |
| `Templates.BindParam` | resourceserver/template.go:58-84 | The pinned value counts, else the binding, else the default; it fills the parameter's placeholder and scope field or adds its condition with its wording; it fails exactly when a required value is missing or the operator is unknown. |
| `Templates.ConditionsInOrder` | resourceserver/template.go:56-84 | The conditions of a template are those of its parameters, in the order of declaration, none left out. |
| `Templates.FieldIsLast` | resourceserver/template.go:71-72 | The last parameter with a value for a scope field fills it. |
| `Templates.ValueIsLast` | resourceserver/template.go:65-65 | The last parameter of a name gives the value of its placeholder. |
| `Templates.FoundIsFirst` | resourceserver/template.go:19-26 | The first template bearing the name is found, and nothing exactly when none bears it. |
| `Templates.ExpansionFaultsExactly` | resourceserver/template.go:44-100 | An expansion fails for want of the template exactly when none bears the name, and succeeds exactly when the template is found, a resolver is set and succeeds, no parameter has a fault and all actions are declared. |
| `Templates.ExpandTemplate` | resourceserver/template.go:44-120 | Fails with the first applicable fault in the code's order; otherwise yields one permit of the template of that name, for the agent, its actions and its resolved scope, with the conditions in force, and a presentation that words them index by index. |
| `Templates.ExpansionRefinesFreeform` | resourceserver/template.go:33-35 | In any world an expanded template is satisfied exactly when the freeform permit is and all conditions hold, so it never authorizes more. |
| `Templates.UnconditionalExpansionIsFreeform` | resourceserver/template.go:105-111 | A successful expansion with an action is the freeform capability's own compiled permit exactly when no condition is in force. |
| `Templates.ExpansionDependsOnOpenParameters` | resourceserver/schema.go:95-107 | Bindings that agree on the parameters the author left open give the same success, failure and permit. |
| `Templates.ConditionedPermitMeaning` | resourceserver/template.go:105-111 | A permit with conditions is satisfied in the world exactly when its capability covers the requirement and its conditions hold of the resource's own attributes. |
| `Templates.ExpansionMeaning` | resourceserver/template.go:44-120 | What an expanded template allows, in the schema's terms: its freeform cover where its conditions hold. |
| `Templates.CompiledAreIssued` | resourceserver/policy.go:32-41 | Every compiled policy grants declared names only. |
| `Templates.ExpandedAreIssued` | resourceserver/template.go:95-100 | Every expanded policy grants declared names only. |
| `Substitution.RenderSummary` | resourceserver/template.go:152-157 | The loop over the map performs the replacements one after the other in some order of its names. |
| `Substitution.ReplaceFillsHoles` | resourceserver/template.go:154-154 | One replacement over a well-formed summary fills exactly the holes of that name. |
| `Substitution.RenderingIsSimultaneous` | resourceserver/template.go:152-157 | Confluence: for clean summaries, names and values every iteration order gives the simultaneous substitution. |
| `Substitution.OrderMatters` | resourceserver/template.go:152-157 | A used value that holds the placeholder of another name, one that stands for something else and is not entangled with it, gives two different renderings, whatever the other values are. |
| `Substitution.RendersOnceExactly` | resourceserver/template.go:152-157 | For values that are summaries themselves, chained or mutual references included, the rendering is independent of the order exactly when no used value refers to another name that stands for more than its own placeholder; only references to a value that refers back and to itself are set apart. |
| `Substitution.EntangledCanRenderOnce` | resourceserver/template.go:152-157 | For any two names there are such entangled values whose two orders give the same text. |
| `Substitution.BracesInValuesMakeOrderMatter` | resourceserver/template.go:152-157 | A concrete summary with two renderings. |
| `Catalog.GroupActions` | clientcli/run.go:306-339 | A group lists an action exactly when some declaration of the action is in a group that reaches it; lists are sorted and not empty. |
| `Catalog.ExpansionIsReachability` | clientcli/run.go:306-339 | For disjoint names, where the last declaration of an action leads everywhere the others do, the client's listing is reachability in the server's lattice. |
| `Catalog.NothingIsHidden` | clientcli/run.go:306-339 | For disjoint names, whatever the lattice rolls up into a group is listed there, however often actions are declared. |
| `Catalog.ListingIsRightExactly` | clientcli/run.go:306-339 | An action is listed rightly under every group exactly when its last declaration leads everywhere the others do. |
| `Catalog.DeclaredOnceLeads` | clientcli/run.go:306-339 | An action declared once, or always in the same groups, meets that condition. |
| `Catalog.RepeatedDeclarationIsOverstated` | clientcli/run.go:306-339 | An action declared in one group and then again in an unrelated one is listed under the first but not granted by it. |
| `Catalog.ShownIsGranted` | resourceserver/policy.go:99-105 | On a covered resource, what a permit for a group allows the client lists under the group; and it allows exactly what is listed where the action's last declaration leads everywhere the others do. |
| `Catalog.TemplateActions` | clientcli/run.go:483-502 | The list is sorted and duplicate-free and holds, for each name of the template, the actions listed under it, or the name itself where nothing is; for disjoint names it contains every declared action some name reaches, and only those where the action's last declaration leads everywhere the others do. |
| `Depth.ResourceDepth` | clientcli/run.go:284-297 | The number of proper ancestors of a resource type, or one more than the declared types exactly when walking up never ends. |
| `Depth.ParentIsLast` | clientcli/run.go:285-288 | The last declaration of a resource type gives its parent. |
| `Depth.GuardMeansCycle` | clientcli/run.go:292-294 | The loop's guard is exact: it trips only where the hierarchy goes round for ever, never on a long chain. |
| `GitHub.NumberedIdInjective` | resourceserver-github/internal/authz/capability.go:59-75 | Issue and pull request ids determine repository and number, for all strings and integers. |
| `GitHub.TargetOfEntity` | resourceserver-github/github.go:186-193 | The entity a GitHub reference is sent as determines the reference. |
| `GitHub.GitHubIsWellFormed` | resourceserver-github/internal/authz/capability.go:37-75 | Any requirements on GitHub references satisfy the assumptions of the meaning theorem, attributes included. |
| `GitHub.TargetAncestry` | resourceserver-github/internal/authz/capability.go:37-75 | A repository is above exactly itself, its issues and its pulls; an owner above exactly its own entity and the repositories, issues and pulls whose full name is the owner or begins with the owner and a slash. |
| `GitHub.ScopeIsExact` | resourceserver-github/github.go:71-84 | A capability covers a GitHub reference exactly when a granted name reaches and its selector picks it: the exact repository, or anything of the owner when the name is missing or a wildcard. |
| `GitHub.OwnerWideIsExact` | resourceserver-github/github.go:79-83 | A selector with an owner and no name, or a wildcard, covers a repository, issue or pull exactly when a granted name reaches and the full name is the owner or begins with the owner and a slash. |
| `GitHub.RepositoryIsExact` | resourceserver-github/github.go:79-82 | A selector with an owner and a name covers exactly that repository with its issues and pulls. |
| `GitHub.RepositoryIsWithinOwner` | resourceserver-github/github.go:71-84 | Whatever a selector for owner and name covers, the selector for the owner alone covers. |
| `GitHub.TargetsAsSent` | resourceserver-github/github.go:186-193 | The entity type and id under which each kind of reference is asked about. |
| `GitHub.GitHubDecision` | resourceserver-github/github.go:71-84 | The server's decision on a compiled GitHub bundle, said without policies or entities. |
| `GitHub.ConditionedTemplatesAllowNothing` | resourceserver-github/internal/authz/capability.go:37-75 | GitHub references carry no attributes, so an expanded template allows a requirement exactly when no condition is in force and its freeform capability covers it. |
| `GitHub.ConditionsOnOpenIssues` | resourceserver-github/templates.go:31-44 | The conditions of the shipped template for any bindings: the state is always in force, the label when one is given. |
| `GitHub.CommentOnOpenIssuesAllowsNothing` | resourceserver-github/templates.go:31-44 | Whatever it is bound to, the shipped template's permit is satisfied by no requirement on a GitHub target. |
| `GitHub.CommentOnOpenIssuesIsIssued` | resourceserver-github/templates.go:31-44 | It nevertheless expands without fault exactly when an owner is given. |
| `Routes.Segments` | resourceserver-github/restproxy.go:295-303 | The loop keeps the nonempty parts between slashes. |
| `Routes.SegmentsOfPath` | resourceserver-github/restproxy.go:295-303 | Segments come back unchanged from a path with any number of slashes around them. |
| `Routes.Match` | resourceserver-github/restproxy.go:187-216 | Returns the first row whose method, segment count and literal segments agree; each variable captures the segment at its last place, and nothing else is captured; no earlier row agrees, and nothing is returned exactly when none does. |
| `Routes.InstanceIsMatched` | resourceserver-github/restproxy.go:187-216 | A path instantiating a row's pattern, with no earlier row fitting, is matched by that row and gives back exactly the values put in. |
| `Routes.AtoiOfFormat` | resourceserver-github/restproxy.go:311-317 | Parsing undoes formatting for every 64-bit number. |
| `Routes.AtoiOtherwise` | resourceserver-github/restproxy.go:311-317 | What is not a 64-bit decimal number reads as zero; a plus sign changes nothing. |
| `Routes.RequirementFor` | resourceserver-github/restproxy.go:158-175 | The first agreeing row's action on its resource, bound to the body where the row says so; else reading for GET and HEAD and writing for the rest, on the repository, owner or whole interface the path names. |
| `Routes.TableIsUnambiguous` | resourceserver-github/restproxy.go:43-67 | No request fits two rows of the shipped table. |
| `Routes.ReviewRequirement` | resourceserver-github/restproxy.go:44-50 | A review needs pull.review on exactly that pull request, bound to the body. |
| `Routes.FirstRowInText` | resourceserver-github/restproxy.go:43-50 | Which requests the review row is for. |
| `Routes.OtherRowsInText` | resourceserver-github/restproxy.go:51-67 | Which requests the two other rows are for. |
| `Routes.OtherRequirements` | resourceserver-github/restproxy.go:51-67 | Creating an issue needs issue.create on its repository, bound to the body; listing pulls needs pull.list on its repository. |
| `Routes.UnmappedFailsClosed` | resourceserver-github/restproxy.go:168-174 | Over a vocabulary without the two coarse actions, no policies the resource server can issue ever authorize the default requirement of any method and path. |
| `MatchStrings.ParseMatch` | clientcli/run.go:42-54 | Of the comma-separated parts, each with an equals sign gives its trimmed key the trimmed text after the first equals sign, the last part of a key counting; no other part matters. |
| `Strings.TrimSpaceDrops` | clientcli/run.go:45-50 | Trimming takes away white space at both ends and nothing else. |
| `MatchStrings.FormatMatch` | clientcli/run.go:348-359 | All entries as key, equals sign, value, in dictionary order of the keys, commas between them; the same for every iteration order of the map. |
| `Strings.LeIsLexicographic` | clientcli/run.go:353-353 | The order of the keys is that of dictionaries. |
| `MatchStrings.ParseOfFormat` | clientcli/run.go:42-54 | Reading back what was printed gives the same match exactly when every key and value is trimmed and comma-free and no key contains an equals sign. |
| `MatchStrings.CommaDoesNotSurvive` | clientcli/run.go:42-54 | What is read back of a concrete value with a comma. |
| `Labels.ApplyAddRemove` | resourceserver-github/internal/operations/github/issue_edit.go:224-246 | The three loops give a duplicate-free list of exactly the current values not removed and the added ones, survivors first in first-occurrence order, then additions in order. |
| `Labels.MergedIs` | resourceserver-github/internal/operations/github/issue_edit.go:214-215 | The result is duplicate-free and, as a set, (current minus remove) plus add. |
| `Labels.DedupKeepsOrder` | resourceserver-github/internal/operations/github/issue_edit.go:230-244 | Kept values appear in the order of their first occurrences. |
| `Labels.MergeIsIdempotent` | resourceserver-github/internal/operations/github/issue_edit.go:224-246 | Repeating the edit changes nothing exactly when, among the additions, the removed values come last; in particular when nothing is both added and removed. |
| `Labels.OverlapBreaksIdempotence` | resourceserver-github/internal/operations/github/issue_edit.go:224-246 | For any two values, an edit adding both and removing the first moves it to the end when repeated. |
| `CommandTree.TreeIsExact` | rscli/cli.go:261-302 | Flattening the tree gives exactly the declared operations under their paths with multiplicity, and each distinct proper prefix has exactly one group node. |
| `CommandTree.FieldsOfSpaced` | rscli/cli.go:276-276 | The words of a path come back whatever white space separates and surrounds them. |
| `CommandTree.TopOrderIsFirstSeen` | rscli/cli.go:271-272 | Top-level commands appear in first-seen order. |
| `Commands.Builder.EnsureGroup` | rscli/cli.go:280-292 | A group is found under its key or made and attached; the printed tree gains at most that group. |
| `Commands.OperationCommands` | rscli/cli.go:270-302 | The command objects built in place print as the tree of the declared paths. |
| `Commands.KeyInjective` | rscli/cli.go:281-281 | Different path prefixes have different running keys. |
| `Store.Store.CreateSubject` | authserver/store/store.go:141-150 | Records the token with the time read, nothing else. |
| `Store.Store.CreateProposal` | authserver/store/store.go:182-198 | Adds one pending proposal under a fresh id with the token, approver, reason and items given, expiring ttl after the one clock reading. |
| `Store.Store.Approve` | authserver/store/store.go:234-283 | When each outcome occurs, and the new store field by field: on success the proposal is approved and there is one new grant per item, for the proposal's token and that item, created and expiring ttl after its two clock readings. |
| `Store.Store.Reject` | authserver/store/store.go:292-322 | When each outcome occurs, and the new status; no grant is ever attached. |
| `Store.Store.SubjectForToken` | authserver/store/store.go:333-367 | With one clock reading per grant of the token, returns exactly those read before their expiry and deletes exactly the others. |
| `Ordering.SortOrders` | authserver/store/store.go:429-431 | The sort of the listings gives the same members, newest first. |
| `Ordering.SortIsStable` | authserver/store/store.go:429-431 | Records created at the same moment stay in the order they came in. |
| `Ordering.SortOfScan` | authserver/store/store.go:404-431 | Sorting a scan in key order lists newest first, and by key among records of one moment. |
| `Ordering.ListingUnique` | authserver/store/store.go:404-431 | The records determine their listing. |
| `Store.Store.AllGrants` | authserver/store/store.go:376-396 | Exactly the grants read before their expiry, each once, newest first and by key among those of one moment; nothing is changed. |
| `Store.Store.AllProposals` | authserver/store/store.go:404-422 | Every proposal once with its stored status, newest first and by key among those of one moment; nothing is changed. |
| `Store.Store.DestroySubject` | authserver/store/store.go:441-452 | Removes the subject and exactly the token's grants, with an exact count. |
| `Store.Store.RevokeGrantsForToken` | authserver/store/store.go:465-473 | Removes exactly the token's grants, with an exact count, and keeps the subject. |
| `Store.Store.DeleteGrantsForToken` | authserver/store/store.go:486-509 | Scan then delete removes exactly the token's grants and counts them. |
| `Store.Store.PurgeExpired` | authserver/store/store.go:521-572 | At its one clock reading deletes exactly the grants at or past their expiry, marks exactly the pending proposals at or past their deadline, and counts both. |
| `StoreLaws.StepIgnoresPurge` | authserver/store/store.go:77-79 | Any transaction gives the same observations, and a store that agrees up to purging, whether or not the janitor ran before it. |
| `StoreLaws.SameViewMeans` | authserver/store/store.go:246-255 | What two equal observations share: success and its record, refusals up to the two kinds the janitor exchanges, the grants listed, and proposals up to lapsed ones being marked. |
| `StoreLaws.JanitorIsInvisible` | authserver/store/store.go:234-367 | Clean-ups inserted anywhere in any well-timed run change no success, no grants shown, no effective status, and no active grant or effective status from the end on. |
| `StoreLaws.RunsDifferingInCleanups` | authserver/store/store.go:521-572 | Two runs that differ only in clean-ups show the same and agree on every active grant and effective proposal. |
| `StoreLaws.JanitorChangesNoAnswer` | authserver/store/store.go:246-255 | With or without the clean-ups before it, a decision finds the proposal open or not, and a read finds a grant unexpired or not, alike. |
| `StoreLaws.ErrorsDifferExactlyOnLapsed` | authserver/store/store.go:246-255 | The janitor changes which error a decision returns exactly when the proposal had lapsed, and then from expired to already decided. |
| `StoreLaws.MovingClockRead` | authserver/store/store.go:333-367 | A read returns at least what is active at its end and at most what was active at its start; result and deletions partition the token's grants; other tokens are untouched. |
| `StoreLaws.ApprovalIsExact` | authserver/store/store.go:256-273 | A successful approval adds exactly one new grant per item, for that item, and removes none. |
| `StoreLaws.OnlyApprovalAdds` | authserver/store/store.go:256-273 | No other transaction adds a grant and none alters one. |
| `StoreLaws.RevocationIsExact` | authserver/store/store.go:441-473 | Destroy and revoke remove exactly the token's grants and report their number; only destroy removes the subject. |
| `StoreLaws.ProposalHistory` | authserver/store/store.go:182-198 | Over any run a proposal stays, changes nothing but its status, and leaves pending at most once. |
| `StoreLaws.RevokedUntilApproved` | authserver/store/store.go:465-473 | After a revocation the token holds nothing until a later successful approval of a proposal for it. |
| `Handlers.ActKeepsInvariant` | authserver/server/consent.go:260-304 | Every step of every handler, of the administrator and of the janitor keeps the system invariant. |
| `Handlers.AtMostOneDecision` | authserver/server/consent.go:205-216 | Under every interleaving a proposal is decided successfully at most once, before its deadline, with authentication on in a session of the lower-cased e-mail of the submission that created it, and the store agrees ever after. |
| `Handlers.EveryUseIsBacked` | authserver/server/server.go:467-491 | Whatever a verification uses is a grant of that token before its expiry, preceded in the log by the submission of its verified item and by the one approval, in a session of the approver named then, that attached it. |
| `Handlers.EveryUseReadsTheStore` | authserver/store/store.go:333-367 | Whatever a verification uses was read from the store standing right after the log so far: every grant of the token active when the read ended, and only ones stored and active when it began. |
| `Activity.BuildActivity` | authserver/server/consent.go:139-154 | One row per proposal in order: its status, expired when pending past its deadline, its first item's summary with the number of further items, its count and creation time. |
| `Activity.HandleHome` | authserver/server/server.go:618-641 | A signed-in approver gets exactly the proposals addressed to them, each once, newest first and by key among those of one moment; without a session, or with authentication off, nothing is listed. |
| `Activity.HistoryIgnoresJanitor` | authserver/store/store.go:77-79 | The history shown is the same row by row whether or not the janitor ran before. |
| `Authorization.HandleSign` | resourceserver/server.go:94-127 | Exactly one form is accepted, and a request of that form is signed exactly when its capabilities have no fault or its template expands, else the first fault is reported; what is signed was compiled or expanded from the request, carries its presentation, is aligned with its explanation, grants declared names only, and verifies. |
| `Authorization.CheckItems` | authserver/server/server.go:432-442 | Succeeds exactly when every item verifies, else names the first failing item and why. |
| `Authorization.HandleProposal` | authserver/server/server.go:414-454 | A proposal is recorded exactly when the subject is known, approver and items are given and every signature is the keyed hash under its server's secret; it carries the lower-cased e-mail, the reason, token and items submitted and the configured deadline; otherwise nothing changes and the first failing check is reported. |
| `Authorization.HandleApproveSubmit` | authserver/server/consent.go:260-304 | Denied exactly when authentication is on and the session is not the approver's; then the decision takes effect exactly on a pending proposal before its deadline; an approval's grants live the chosen time when it is positive and two minutes otherwise. |
| `Authorization.HandleVerify` | authserver/server/server.go:467-491 | A call is refused exactly when its server is unknown, its signature is not the keyed hash of its body, or the body cannot be read, and then nothing is read or changed; otherwise the token's grants before their expiry are used and its others deleted, and the answer is the decision on their policies, or a failure exactly when there are policies and questions and the policies do not parse. |
| `Authorization.TamperingNeedsCollision` | internal/proposal/proposal.go:94-111 | An item relayed under another's signature verifies, under the secret of the server it names, exactly when it is the same item or the keyed hash collides. |
| `Authorization.DecisionMeansAuthorized` | authserver/server/server.go:482-491 | Whatever other resource servers issued, the decision on one's questions says that each requirement is authorized, in its schema's terms, by some grant it signed itself. |
| `Authorization.UsedIsApproved` | authserver/server/server.go:432-444 | Every grant a verification uses is the token's and active, and its content was signed by its resource server before it was submitted, and then approved in time by the named approver. |
| `Authorization.AllowedMeansApproved` | authserver/server/server.go:467-491 | In any run of the handlers without forgeries the reply to a verification is yes exactly when there is a requirement, the policies gathered parse, and each requirement is authorized by a grant used that its own resource server signed, that was then submitted and approved in time by the named approver, and that is the token's and active. |
| `Authorization.HeldIsUsed` | authserver/server/server.go:467-491 | The reply is yes when the policies gathered parse and each requirement is authorized by a grant the token holds in the store to the end of the read, and only when they parse and each is authorized by one it held when the read began. |
| `Sequential.ProposalAlone` | authserver/server/server.go:414-454 | What the submission handler answers and does to the store is what its two transactions log and do when run without interleaving. |
| `Sequential.DecisionAlone` | authserver/server/consent.go:260-304 | The same for the decision handler. |
| `Sequential.VerificationAlone` | authserver/server/server.go:467-491 | The same for what the verification handler reads, uses and removes. |
| `Sequential.PurgeStep` | authserver/store/store.go:521-572 | What the store's clean-up does is the step the laws of runs speak of. |
| `Sequential.ReadStep` | authserver/store/store.go:333-367 | The same for reading a token. |
| `Sequential.SubjectSteps` | authserver/store/store.go:441-473 | The same for creating, destroying and revoking. |
| `Sequential.ListingSteps` | authserver/store/store.go:376-422 | The same for the two listings. |
| `Completeness.SignedGetsUsed` | authserver/server/server.go:414-491 | From any reachable state a verified item can be submitted, approved by its named approver and used by a verification, as the only grant of its token. |
| `Completeness.CoveredGetsThrough` | authserver/server/server.go:414-491 | Any run can be extended so that a compiled bundle whose policies parse is signed, approved and used, and the reply is yes to every operation whose requirements the bundle's capabilities cover. |

## Left out

- `Substitution.RendersOnceExactly`: does not cover values with stray or nested braces, nor references to a value that refers back and to itself, where equality of the renderings is a coincidence of their texts.
- `Catalog.GroupActions`: does not model how often an action in several groups with a common ancestor is repeated in a list.
- HTTP routing, cookies, the OAuth flow, HTML pages, command-line flags and YAML configuration: no invariant of their own.
- GitHub REST executors, the reverse-proxy transport, the git proxy and the system git invocation: calls into code outside the repository.
- Hash functions, random tokens and UUIDs: arbitrary functions and fresh values.
- The concrete syntax of policies and its quoting: the parser is not in the repository, so whether policies parse is an arbitrary property of them.
- Database pages, JSON encoding and I/O errors: each transaction is atomic and succeeds.
- The per-entry loops of `recordFrom` and `valueFrom`: written as comprehensions, entries being independent.
- The exact texts of error messages and of the human-readable times: error kinds are kept.
- `itoa` and the remaining page views: they would only add easy members.
- The individual GitHub operation factories and their descriptions: near-identical field validation.
- Content hashes of issue.create and issue.edit: lists are flattened before hashing, so no general claim about them holds.
