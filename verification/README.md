# Abstract accounts: module manager, sub-accounts, admin calls, upgrades and pool arithmetic

A Dafny model of the protocols an Abstract account takes part in, with proofs about all runs and all inputs.

- **Module manager** (`Cosmos`, `ModuleTypes`, `Whitelist`, `Dependents`, `ModuleManager`, `InstallChecks`, `ModuleRuns`,
  `ModuleUpgrades`, `UpgradeChecks`, `ModuleHistory`, `ModuleWhitelist`, `InstallOrder`, `ModuleProgress`, `ModuleGaps`,
  `AccountContract`). The account stores installed modules by id, an inverse index of their dependencies, and a bounded
  whitelist. The functions of `ModuleManager` are the operations on that storage, error cases included; `InstallChecks` and
  `UpgradeChecks` say in terms of the registry and the raw contract data what they demand. `ModuleRuns` to `ModuleProgress`
  prove what every run keeps. The class `AccountContract.ModuleStore` holds the same storage in fields, updates it with the
  contract's own loops, and its `Execute` is proved to be exactly one step of that state machine, with rollback.
- **Sub-accounts** (`SubAccounts`, `OwnershipRules`, `OwnedAccount`). Parents list the sequences of their sub-accounts and
  sub-accounts name their owner; messages keep the two in agreement.
- **Admin calls** (`AdminCalls`). An interpreter over trees of nested calls with rollback and caught failures, and the class
  that drives the stored flag.
- **Version paths** (`Semver`, `UpgradePath`). The route of an account upgrade through compatibility classes, and when an
  upgrade is breaking.
- **Pool arithmetic** (`OsmosisPool`, `AstrovaultOrder`). Shares, slippage and reordering of assets, with every floor.
- **Paging** (`Paging`) and **fees** (`InstantiateFees`).

`dafny verify dfyconfig.toml` checks everything.

## Assumptions

Each is a named predicate that the lemmas require, or a choice of type.

- `ModuleRuns.Untouched`: the cw2 and module data of an installed module change only in an upgrade that names the module.
- `ModuleHistory.Admissible`: the steps of the runs. A batch asks for each module once (`DistinctBatch`), and an upgrade is
  `Checked`: each request is for an app or adapter that was tracked and names each dependency once, or for a standalone
  whose dependents support the requested version, whose new code declares the old ids, and whose new requirements accept the
  installed or requested versions. None of this speaks of the index or of what is met afterwards; the exact conditions for
  one step are in `InstallIndexIff`, `UpgradeIndexIff` and `UpgradeClosedIff`.
- `ModuleHistory.Landed`: an upgraded module has the version the registry lists for the request. The account does not check
  this.
- `ModuleWhitelist.WhitelistFriendly`: the registry still classifies an uninstalled module as it was recorded, and upgrades
  do not change which addresses act for the account otherwise than by replacing adapters.
- Failing transactions change nothing; the replies of one transaction run after its messages, with the other contracts in an
  arbitrary state allowed by the predicates above.
- Version strings are values that have been parsed; a version that does not parse makes the contracts panic and is left out.
- The module list of the registry returns every registered higher version, and accounts are never removed from the registry.
- Authorization and expiry of ownership messages are not checked in `SubAccounts`: its runs are those of the contract and
  more, so what holds over all of them holds of the contract. In `AdminCalls` authorization is a flag of the call.

## Where the code does not keep the law

The code is modelled as it is; each gap has a concrete lemma, and each law is proved to hold exactly when a stated condition
does.

- Upgrading a standalone skips both the check of its dependents and the migrate context (`StandaloneUpgradeBreaksBoth`;
  `UpgradeIndexIff` and `UpgradeClosedIff` give the exact conditions).
- The registry does not compare the kinds of a module across its versions, and an upgrade does not touch the whitelist when
  the kind changes: a standalone that becomes an app acts without being listed and cannot be uninstalled
  (`StandaloneBecomesApp`, exact in `UpgradeWhitelistIff`). A service that becomes an app can make the reply panic
  (`ServiceBecomesAppPanics`, exact in `FinishFromIff`).
- The reply of an upgrade does not look at the version that a migrated module has: an app that reports another one than was
  registered and checked breaks its dependents (`UnlandedUpgradeBreaksClosure`, exact in `UpgradeClosedIff`).
- A dependency list that names a module twice can lose its index entry on an upgrade, since old and new entries are compared
  with their requirements (`DuplicateDependencyIsLost`, exact in `RetargetIff`).
- Two entries for one id in an install batch both pass the already-installed check; the first address stays whitelisted
  (`BatchOverwritesItself`, exact in `InstallWhitelistIff`), or the index keeps an entry for a module that is not tracked
  (`ServiceOverwritesAdapter`, exact in `InstallIndexIff`).
- Modules that depend on each other can be installed in one batch (`PairIsInstalled`) but never uninstalled
  (`MutualPairIsStuck`, exact in `EmptyableIff`).
- An admin call is refused while another one is open, but an upgrade overwrites and then clears the flag
  (`UpgradeUnlocksNestedAdminCall`). `ChainedIff` says exactly when an admin call opens inside another, and `FaithfulIff`
  exactly when the flag names the one open call throughout.
- The register and unregister handlers check that the sender has the given sequence, not that the receiver owns it
  (`RawRegisterBreaksAgreement`, exact in `RawMessageIff`).

## Model

| member | source | states |
|---|---|---|
| `Whitelist.UpdateWhitelistIff` | framework/contracts/account/src/modules.rs:306-341 | From a list without duplicates the update succeeds if and only if the additions are distinct and new, the removals are distinct members of old plus added, and the resulting length is at most 15; the result is then (old + added) minus removed, in order and without duplicates. |
| `Whitelist.UpdateWhitelistErrors` | framework/contracts/account/src/modules.rs:311-338 | Which of the three errors a refused update reports, for every input. |
| `Whitelist.KeptLengthIff` | framework/contracts/account/src/modules.rs:330-338 | The one length comparison after `retain` holds exactly when the removals are duplicate-free members of the list; proved by counting. |
| `Dependents.SetAsDependentExact` | framework/contracts/account/src/versioning.rs:72-85 | Recording adds the module under every declared id and changes no other entry; only those ids get a stored set. |
| `Dependents.RemoveAsDependentExact` | framework/contracts/account/src/versioning.rs:90-103 | Erasing takes the module out of every declared id and changes no other entry. |
| `Dependents.RemoveStoredExact` | framework/contracts/account/src/versioning.rs:168-178 | The removal during an upgrade panics exactly when some id has no stored set; otherwise it takes the module out of those ids only. |
| `Dependents.RetargetEffect` | framework/contracts/account/src/versioning.rs:160-203 | On any index, remove-old followed by add-new panics exactly when a removed id has no stored set; otherwise it takes the module out of the removed ids, puts it under the added ones, and changes no other entry. |
| `Dependents.RetargetIff` | framework/contracts/account/src/versioning.rs:160-203 | On an index exact for the old dependency list it never panics, leaves all other modules alone, and gives an index exact for the new list if and only if no entry is lost (an id whose surviving entries were all in the old list while another old entry for it was dropped). |
| `Dependents.MovedListing` | framework/contracts/account/src/versioning.rs:168-200 | The same for a module that was not recorded in the index before: exact if and only if no id of the new list has only old entries. |
| `Dependents.DistinctNeverLoses` | framework/contracts/account/src/versioning.rs:168-191 | With distinct ids in the old list no entry is lost, version-requirement changes included. |
| `Dependents.DuplicateDependencyIsLost` | framework/contracts/account/src/versioning.rs:168-191 | Counterexample family: any list naming one module twice, shrunk to one entry, leaves the module out of the index. |
| `ModuleManager.FirstUnmet` | framework/contracts/account/src/versioning.rs:130-146 | The check reports no error exactly when every dependency is installed at a version all its comparators accept. |
| `InstallChecks.LookupIff` | framework/packages/abstract-std/src/objects/registry.rs:88-144 | A request resolves to a module exactly when that version is registered and is the one asked for, or the newest release. |
| `InstallChecks.PlaceIff` | framework/contracts/account/src/modules.rs:95-137 | A request can be placed exactly when its id is not installed, its reference is not an account, and for an app or standalone the code is known, no contract is at the derived address and an init message is given; it is placed at the address of its reference, or the derived one. |
| `InstallChecks.PlaceErrors` | framework/contracts/account/src/modules.rs:97-135 | Which error each of these refusals reports, a reinstall among them. |
| `InstallChecks.ListedKinds` | framework/packages/abstract-std/src/objects/module.rs:371-381 | The whitelist receives adapters and apps, and of the natives only the IBC client. |
| `InstallChecks.CheckIff` | framework/packages/abstract-std/src/objects/module.rs:416-508 | The check of an entry passes exactly for a genuine contract: cw2 of a standalone or service, if present, has the registered version; cw2 of the other kinds has the registered id and version; module data of apps and adapters too. |
| `InstallChecks.CheckErrors` | framework/packages/abstract-std/src/objects/module.rs:416-508 | A refused entry lacks data its kind must have, or has unequal data, each with its error. |
| `ModuleRuns.InstallModulesEffect` | framework/contracts/account/src/modules.rs:95-146 | The first phase adds exactly the batch, none of whose ids was installed, and does not touch the index. |
| `ModuleRuns.RegisterFromExact` | framework/contracts/account/src/reply.rs:42-78 | The reply succeeds exactly when every entry of the context is genuine, apps and adapters have module data, and the dependencies of apps, adapters and standalones are met; the index has then gained exactly those dependencies. |
| `ModuleRuns.OpenInstallIndex` | framework/contracts/account/src/modules.rs:139-146 | Between the two phases the index is exact for every module outside the install context and silent about those inside. |
| `ModuleRuns.RegisterClosesGapIff` | framework/contracts/account/src/reply.rs:42-78 | The reply has checked the dependencies of the whole batch, and makes the index exact for every module if and only if no tracked entry with dependencies is overwritten by an untracked one with the same id. |
| `ModuleRuns.InstallIndexIff` | framework/contracts/account/src/modules.rs:67-165 | Every successful install keeps closure, and keeps the index exact if and only if it overwrites no such entry. |
| `ModuleRuns.DistinctOverwritesNothing` | framework/contracts/account/src/modules.rs:95-138 | A batch that asks for each module once overwrites none of its entries, tracked or acting. |
| `ModuleRuns.InstallKeepsValid` | framework/contracts/account/src/modules.rs:67-165 | Both phases of an install of such a batch keep index exactness and dependency closure. |
| `ModuleRuns.UninstallKeepsValid` | framework/contracts/account/src/modules.rs:190-237 | An uninstall, whatever it is asked for, keeps index exactness and dependency closure. |
| `UpgradeChecks.NamespacedIff` | framework/packages/abstract-std/src/objects/module.rs:96-110 | The name format accepted for cw2 data: a valid namespace, one colon, a name. |
| `UpgradeChecks.RequestIff` | framework/contracts/account/src/modules/migration.rs:107-208 | One request is taken up exactly when the module is installed and has a version, an explicit version is not below it, the registry knows the request, and: for an app or adapter every dependent is migrating or accepts the version and the data can be read; for an adapter also the old one answers and the new one can replace it on the whitelist; for a standalone a migrate message is given; no other kind. |
| `UpgradeChecks.RequestEffect` | framework/contracts/account/src/modules/migration.rs:158-224 | What taking it up changes: address and whitelist of an adapter, and the context of apps and adapters. |
| `UpgradeChecks.UpgradeModulesIff` | framework/contracts/account/src/modules/migration.rs:41-105 | The first phase succeeds exactly when something is asked for, nothing twice, the account only for a registered account that is not older, and every other module is accepted in its turn. |
| `UpgradeChecks.NeverOlder` | framework/contracts/account/src/modules.rs:258-270 | An upgrade that names a version never goes below the cw2 version the module has, or the one registered for its address, or the account itself. |
| `ModuleUpgrades.UpgradeModulesEffect` | framework/contracts/account/src/modules/migration.rs:41-155 | After a successful first phase the ids are distinct, exactly the requested apps and adapters are in the context with their old dependencies, and each was checked against every dependent that is not itself in the context. |
| `ModuleUpgrades.FinishFromIff` | framework/contracts/account/src/modules/migration.rs:309-326 | On any index the reply succeeds exactly when every migrated module can be read and has its requirements met, and every id an entry removes has a stored set, from the start or from an earlier entry. |
| `ModuleUpgrades.FinishFromEffect` | framework/contracts/account/src/modules/migration.rs:309-326 | A successful reply moves each migrated module by the comparison of its lists and no other module. |
| `ModuleUpgrades.FinishNeverPanics` | framework/contracts/account/src/versioning.rs:172-177 | In a valid state, when the requested apps and adapters were installed as tracked modules, the reply never hits the unwrap of a missing dependents set: it fails only on its own checks. |
| `ModuleUpgrades.UpgradeIndexIff` | framework/contracts/account/src/modules/migration.rs:107-326 | After a successful upgrade, whatever kinds the registry lists, the index is exact if and only if the comparison of old and new lists moves each app and adapter exactly and every upgraded standalone declares the ids it was listed for. |
| `ModuleHistory.UpgradeClosedIff` | framework/contracts/account/src/versioning.rs:37-66 | After a successful upgrade every dependency is met if and only if it is for what the account does not check: the dependents outside the request accept the standalones, and the apps and adapters that did not land on the version they were checked at, and the standalones meet their own requirements. Everything else follows from the check before the migration, the skip of migrating dependents, and the check in the reply. |
| `ModuleHistory.AcceptedIffSupported` | framework/contracts/account/src/versioning.rs:43-64 | A requested module at its registered version is accepted by the dependents outside the request exactly when the check made before the migration accepts it. |
| `ModuleHistory.UpgradeClosedIffSupported` | framework/contracts/account/src/versioning.rs:37-66 | When the modules land on their registered versions, closure holds if and only if the standalones pass the checks that apps and adapters have passed: dependents, known before the call, and own requirements. |
| `ModuleHistory.CheckedUpgradeKeepsValid` | framework/contracts/account/src/modules/migration.rs:41-326 | Upgrades that land on the registered versions keep both invariants when each request is for an app or adapter that was tracked and names each dependency once, or for a standalone that passes by itself, before the call, the checks made for others and keeps its declared ids. |
| `ModuleHistory.RunKeepsValid` | framework/contracts/account/src/modules.rs:42-237 | Index exactness and dependency closure hold after every admissible run: other contracts leave the data of installed modules alone, batches ask for each module once, and upgrades are checked as above. Uninstalls are unrestricted. |
| `ModuleHistory.FreshRunsAreValid` | framework/contracts/account/src/contract.rs:102-121 | The same after every admissible run from a fresh account, with both invariants written out. |
| `ModuleGaps.LibIsInstalled` | framework/contracts/account/src/modules.rs:67-165 | The accounts with one standalone, and with one service, that the next counterexamples start from are what one install makes of a fresh account. |
| `ModuleGaps.StandaloneUpgradeBreaksBoth` | framework/contracts/account/src/modules/migration.rs:143-149 | Counterexample: a standalone upgraded to code with an uninstalled dependency; the upgrade succeeds, closure and index fail. |
| `ModuleGaps.ServiceBecomesAppPanics` | framework/contracts/account/src/versioning.rs:172-177 | Counterexample: a service with a dependency, upgraded to a version registered as an app without it, passes every check and the reply hits the unwrap. |
| `ModuleGaps.AppsAreInstalled` | framework/contracts/account/src/modules.rs:67-165 | The account of the next counterexample, an app and a dependent app that needs ^1.0.0 of it, is what one install makes of a fresh account. |
| `ModuleGaps.UnlandedUpgradeBreaksClosure` | framework/contracts/account/src/modules/migration.rs:309-326 | Counterexample: the app is upgraded to a registered 1.1.0 that its dependent supports and reports 2.0.0 afterwards; every check passes and the requirement of the dependent is not met. |
| `ModuleGaps.ServiceOverwritesAdapter` | framework/contracts/account/src/modules.rs:95-112 | Counterexample: an adapter and a service under one id in one batch leave an index entry for a module that is not tracked. |
| `ModuleWhitelist.InstallWhitelistIff` | framework/contracts/account/src/modules.rs:95-146 | A successful install keeps the bijection between whitelist and acting modules if and only if no acting entry of the batch is overwritten by a later entry with the same id. |
| `ModuleWhitelist.UninstallWhitelistIff` | framework/contracts/account/src/modules.rs:216-232 | A successful uninstall keeps the bijection if and only if the registry classifies the module data it finds as the module was recorded. |
| `ModuleWhitelist.UpgradeWhitelistIff` | framework/contracts/account/src/modules/migration.rs:127-182 | A successful upgrade keeps the bijection if and only if, by the kinds the registry lists, the modules that start acting have the addresses of those that stop, one each; the length never changes. Replacing adapters neither makes nor breaks the bijection. |
| `ModuleWhitelist.UpgradeWhitelistByStatus` | framework/contracts/account/src/modules/migration.rs:127-182 | It holds when every requested module keeps its whitelist status, and only then where modules that do not act share no address with one that does. |
| `ModuleGaps.StandaloneBecomesApp` | framework/contracts/native/registry/src/commands.rs:154-212 | Counterexample: the registry does not compare the kinds of a module across versions; a standalone upgraded to an app acts without being whitelisted and cannot be uninstalled. |
| `ModuleWhitelist.RunKeepsWhitelist` | framework/contracts/account/src/modules.rs:42-237 | Bijection, bound and validity hold after every admissible run in which the registry classifies each uninstalled module as it was recorded, and each upgrade has as many modules start as stop acting, at the same addresses, or none. |
| `ModuleWhitelist.ActingBound` | framework/contracts/account/src/modules.rs:315-319 | There are as many acting modules as whitelist entries, hence at most 15. |
| `ModuleWhitelist.FreshRunsMatch` | framework/packages/abstract-std/src/objects/module.rs:371-381 | After every such run from a fresh account the whitelist is exactly the addresses of the acting modules, one each, at most 15. |
| `ModuleGaps.BatchOverwritesItself` | framework/contracts/account/src/modules.rs:95-99 | Counterexample: one adapter in two versions in a single batch passes the already-installed check twice; the first address stays whitelisted without being installed. |
| `InstallOrder.InstallOrderIrrelevant` | framework/contracts/account/src/modules.rs:67-165 | Every order of a batch that asks for each module once is accepted or refused alike, in both phases; modules, kinds and index are then the same, and the whitelist holds the same addresses. |
| `InstallOrder.InstallOkIff` | framework/contracts/account/src/modules.rs:84-146 | The first phase succeeds exactly when every request resolves, can be placed by the conditions above and has a name, and the whitelist takes the addresses they add. |
| `InstallOrder.InstallDone` | framework/contracts/account/src/modules.rs:95-146 | A batch that asks for each module once leaves each at its address and in the context of the reply, and nothing else in that context. |
| `InstallOrder.NativeListing` | framework/contracts/account/src/modules.rs:105-111 | Installing a native appends its address to the whitelist if it is the IBC client, and otherwise nothing. |
| `InstallOrder.RegisterOrderIrrelevant` | framework/contracts/account/src/reply.rs:42-78 | The reply accepts or refuses contexts with the same entries alike, and leaves the same stored index. |
| `ModuleProgress.UninstallRefusedIff` | framework/contracts/account/src/modules.rs:199-205 | Uninstalling is refused for dependents exactly when an installed tracked module declares the module. |
| `ModuleProgress.InstallUninstallRoundTrip` | framework/contracts/account/src/modules.rs:190-237 | Installing one module and uninstalling it restores modules and index (up to empty sets), and restores the whitelist sequence exactly when the registry, which may have changed in between, still classifies the module as recorded. |
| `ModuleProgress.AppRoundTripRestoresAll` | framework/contracts/account/src/modules.rs:190-237 | For an app or adapter that uninstall succeeds exactly when the module does not depend on itself and the registry still knows its version, and restores the whitelist exactly when it is still listed as one that belongs there. |
| `InstallOrder.InstalledIsGenuine` | framework/contracts/account/src/reply.rs:45-46 | After an install every module of the batch, of any kind, is genuine at the address the account uses for it. |
| `ModuleProgress.UninstallIff` | framework/contracts/account/src/modules.rs:190-237 | An uninstall succeeds exactly when nothing depends on the module, its data can be read, the registry knows that data, and its address is listed if its kind belongs on the whitelist; it removes the module, its index entries and that address, and nothing else. |
| `ModuleProgress.ReinstallIsProhibited` | framework/contracts/account/src/modules.rs:121-126 | An app that was installed and uninstalled cannot be installed again with the same code: its contract is still at the derived address. |
| `ModuleProgress.FreshUninstallIff` | framework/contracts/account/src/modules.rs:190-237 | Exactly when a module can be uninstalled right after its own install. |
| `ModuleProgress.AcyclicHasFree` | framework/contracts/account/src/modules.rs:199-210 | Without a dependency cycle some tracked module always passes the dependents guard. |
| `ModuleProgress.EmptyableIff` | framework/contracts/account/src/modules.rs:190-237 | Tracked modules with readable data that some registry state classifies as recorded can all be uninstalled, in some order, if and only if their dependencies have no cycle. |
| `ModuleProgress.EmptyAcyclic` | framework/contracts/account/src/modules.rs:190-237 | Without a cycle there is an order that empties the tracked modules with one uninstall each. |
| `ModuleProgress.CycleStays` | framework/contracts/account/src/modules.rs:199-205 | No sequence of uninstalls removes any module of a cycle, whatever the registry answers from one to the next. |
| `ModuleGaps.PairIsInstalled` | framework/contracts/account/src/reply.rs:42-78 | Two adapters that declare each other can be installed in one batch from a fresh account. |
| `ModuleGaps.MutualPairIsStuck` | framework/contracts/account/src/modules.rs:199-205 | Counterexample: the resulting account is valid, and no sequence of uninstalls, under any states of the registry, ever removes either of the two. |
| `AccountContract.ModuleStore.UpdateWhitelistedModules` | framework/contracts/account/src/modules.rs:306-341 | The push loop and `retain` over storage compute the whitelist update, and change nothing on an error. |
| `AccountContract.ModuleStore.UpdateModuleAddresses` | framework/contracts/account/src/modules.rs:169-187 | Saves in order, then removes; at an empty id it stops with what was saved before it. |
| `AccountContract.ModuleStore.AssertComparators` | framework/contracts/account/src/versioning.rs:105-125 | Accepts exactly the versions every comparator accepts. |
| `AccountContract.ModuleStore.AssertDependencyRequirements` | framework/contracts/account/src/versioning.rs:130-146 | The loop with early return finds the first unmet dependency. |
| `AccountContract.ModuleStore.RecordDependent` | framework/contracts/account/src/versioning.rs:72-85 | The loop over the stored index computes the recording whose effect is stated above. |
| `AccountContract.ModuleStore.EraseDependent` | framework/contracts/account/src/versioning.rs:90-103 | The same for the erasing loop. |
| `AccountContract.ModuleStore.MaybeRemoveOldDeps` | framework/contracts/account/src/versioning.rs:160-180 | The loop with the unwrap: its result, and that it fails exactly when the specification does. |
| `AccountContract.ModuleStore.MaybeAddNewDeps` | framework/contracts/account/src/versioning.rs:182-203 | The loop over the added dependencies. |
| `AccountContract.ModuleStore.AssertMigrateRequirements` | framework/contracts/account/src/versioning.rs:37-66 | Visiting the dependents in any order accepts the version exactly when each is migrating or supports it. |
| `AccountContract.ModuleStore.PlanInstall` | framework/contracts/account/src/modules.rs:90-138 | The loop filling the three vectors, with its early returns, computes the plan of the install. |
| `AccountContract.ModuleStore.BeginInstall` | framework/contracts/account/src/modules.rs:67-165 | Resolution, that loop, the whitelist update and the saves compute the first phase. |
| `AccountContract.ModuleStore.RegisterInstalled` | framework/contracts/account/src/reply.rs:42-78 | The loop of the reply computes the second phase. |
| `AccountContract.ModuleStore.PerformUninstall` | framework/contracts/account/src/modules.rs:190-237 | The guarded removal computes the uninstall. |
| `AccountContract.ModuleStore.HandleAdapterMigration` | framework/contracts/account/src/modules/migration.rs:158-282 | Check, address, context and whitelist of an adapter upgrade. |
| `AccountContract.ModuleStore.HandleAppMigration` | framework/contracts/account/src/modules/migration.rs:185-208 | Check and context of an app upgrade. |
| `AccountContract.ModuleStore.SetMigrateMsgsAndContext` | framework/contracts/account/src/modules/migration.rs:107-155 | The branch on the requested module reference, the standalone branch without check or context included. |
| `AccountContract.ModuleStore.BeginUpgrade` | framework/contracts/account/src/modules/migration.rs:41-105 | The loop over the requests with its duplicate check computes the first phase of an upgrade. |
| `AccountContract.ModuleStore.AssertModulesDependencyRequirements` | framework/contracts/account/src/modules/migration.rs:309-326 | The loop of the reply computes the second phase and clears flag and context. |
| `AccountContract.ModuleStore.Execute` | framework/contracts/account/src/contract.rs:257-381 | A transaction on the stored fields, rolled back on any error, is exactly one step of the state machine all invariants are about. |
| `OwnershipRules.DeliverIff` | framework/contracts/account/src/sub_account.rs:105-154 | A message is delivered exactly when the receiver acts and the sender has the number; it then adds or removes exactly that number, and otherwise reports the right error. |
| `OwnershipRules.AcceptIff` | framework/packages/abstract-std/src/objects/ownership/gov_ownable.rs:319-373 | Ownership is accepted exactly when a transfer is pending and the parents concerned can be told; the account then belongs to the pending owner, its number moves between the parents, and nothing else changes. |
| `OwnershipRules.RenounceIff` | framework/packages/abstract-std/src/objects/ownership/gov_ownable.rs:376-391 | Ownership is renounced exactly without sub-accounts and with a parent that can be told; the account is then nobody's, and nothing else changes. |
| `OwnershipRules.TransferIff` | framework/packages/abstract-std/src/objects/ownership/gov_ownable.rs:284-316 | A transfer is proposed exactly by an acting account to somebody known, and stores the pending owner only. |
| `OwnershipRules.StatusIff` | framework/contracts/account/src/config.rs:19-49 | Suspension can be set on any account and changes nothing else. |
| `OwnershipRules.RawIff` | framework/contracts/account/src/contract.rs:257-266 | When a raw message is delivered. |
| `OwnershipRules.CreateIff` | framework/contracts/native/registry/src/commands.rs:84-123 | An account is created exactly under a free address and id, a number below 2^31 being the next one, and under a parent only by that acting parent; what it and the others are afterwards. |
| `OwnershipRules.CreateSubIff` | framework/contracts/account/src/sub_account.rs:25-85 | A sub-account is created by an acting parent under the number asked for or the next one. |
| `SubAccounts.CreateKeepsValid` | framework/contracts/account/src/contract.rs:123-216 | Creating an account, with registration at its parent, keeps both sides in agreement. |
| `SubAccounts.OwnershipKeepsValid` | framework/contracts/account/src/sub_account.rs:157-255 | Accepting and renouncing ownership, with the messages they send, keep agreement, also for a transfer to the same parent. |
| `SubAccounts.MessagesMove` | framework/contracts/account/src/sub_account.rs:166-196 | Unregister followed by register moves exactly one sequence, even when both go to the same account. |
| `SubAccounts.RawMessageIff` | framework/contracts/account/src/sub_account.rs:105-154 | A register or unregister message that an account sends by itself keeps agreement if and only if it says what is already so. |
| `SubAccounts.RawRegisterBlocksRenounce` | framework/contracts/account/src/sub_account.rs:133-154 | Any account can register itself with an account that is not its owner; the two then disagree and the other can no longer renounce. |
| `SubAccounts.RawRegisterBreaksAgreement` | framework/contracts/account/src/sub_account.rs:133-154 | The concrete instance on two independent accounts. |
| `SubAccounts.StepKeepsValid` | framework/contracts/account/src/contract.rs:307-327 | Every action keeps agreement, raw messages when they are truthful. |
| `SubAccounts.RunKeepsValid` | framework/contracts/account/src/contract.rs:257-328 | Agreement after every run in which the delivered raw messages are truthful. |
| `SubAccounts.RunsAgree` | framework/contracts/account/src/sub_account.rs:105-232 | After every such run from an empty chain: owner is SubAccount(p) exactly when p lists the sequence. |
| `SubAccounts.RenouncedOwnsNobody` | framework/contracts/account/src/sub_account.rs:206-215 | At a successful renounce no account is owned by the renouncing one, before or after. |
| `OwnedAccount.OwnerStore.HandleSubAccountAction` | framework/contracts/account/src/sub_account.rs:87-154 | The handler on stored fields agrees with message delivery on every chain state in which the account looks so. |
| `OwnedAccount.OwnerStore.MaybeUpdateSubAccountGovernance` | framework/contracts/account/src/sub_account.rs:157-199 | The pushed messages are leave-old then join-new; no pending owner is an error. |
| `OwnedAccount.OwnerStore.RemoveAccountFromContracts` | framework/contracts/account/src/sub_account.rs:203-255 | Refused with sub-accounts; otherwise the message to leave the parent, and the last of the namespaces the registry lists is given up. |
| `OwnedAccount.OwnerStore.UpdateOwnership` | framework/contracts/account/src/contract.rs:308-327 | Messages are built from the old owner, then the new owner is stored; only a renounce gives up a namespace. |
| `AdminCalls.FlagNeverLeft` | framework/contracts/account/src/execution.rs:86-109 | Over any tree of nested calls, a call that succeeds leaves the flag as it was or clear. |
| `AdminCalls.TransactionEndsClear` | framework/contracts/account/src/reply.rs:35-39 | A finished transaction leaves the flag clear. |
| `AdminCalls.LastPoint` | framework/contracts/account/src/execution.rs:86-109 | A call that succeeds ends at a recorded point with the final flag and its own frames. |
| `AdminCalls.LocksIsFlag` | framework/contracts/account/src/execution.rs:94-97 | Whether a call succeeds, and whether a flag is stored afterwards, can be read off the tree with one bit. |
| `AdminCalls.FaithfulIff` | framework/contracts/account/src/execution.rs:94-106 | From a faithful point, at every point below the flag is set exactly while one admin call or upgrade is open and names its target or is the wildcard, if and only if no authorized upgrade starts inside an open one. |
| `AdminCalls.TransactionFaithfulIff` | framework/contracts/account/src/modules/migration.rs:56-59 | The same for whole transactions. |
| `AdminCalls.ChainedIff` | framework/contracts/account/src/execution.rs:94-97 | From any point, an admin call opens inside another admin call or upgrade if and only if the tree reaches an authorized one there after the account has been unlocked. |
| `AdminCalls.TransactionChainedIff` | framework/contracts/account/src/execution.rs:94-97 | The same for whole transactions. |
| `AdminCalls.ChainingNeedsNestedUpgrade` | framework/contracts/account/src/modules/migration.rs:56-59 | Without a nested upgrade admin calls never chain. |
| `AdminCalls.UpgradeUnlocksNestedAdminCall` | framework/contracts/account/src/modules/migration.rs:56-59 | Counterexample: an upgrade inside an admin call clears the flag, and a second admin call then nests in the first; the upgrade alone chains nothing, and without it the second call is refused. |
| `AdminCalls.Gate.BeginAdminCall` | framework/contracts/account/src/execution.rs:86-109 | Refused without authorization or while a flag is stored; otherwise stores the target. |
| `AdminCalls.Gate.Run` | framework/contracts/account/src/execution.rs:86-109 | Driving the stored flag over a tree with rollback and caught failures computes success, final flag and every point of the interpreter the properties are about. |
| `AdminCalls.Gate.RunOpened` | framework/contracts/account/src/reply.rs:35-39 | The messages of an open call and its reply, with the points passed. |
| `AdminCalls.Gate.RunSubs` | framework/contracts/account/src/contract.rs:370-381 | The same for a list of messages, stopping at an uncaught failure, with the points passed. |
| `Semver.VersionLessStrictTotal` | framework/packages/abstract-interface/src/account.rs:645-655 | Precedence (section 11 of SemVer 2.0.0) is a strict total order, pre-releases included. |
| `Semver.PrecedenceRules` | framework/packages/abstract-interface/src/account.rs:645-655 | The rules of section 11 of SemVer 2.0.0: fields in order, a release above its pre-releases, numeric below alphanumeric identifiers, a longer list above its prefix. |
| `Semver.ComparatorIntervals` | framework/contracts/account/src/versioning.rs:112-123 | Over a full version every comparator accepts an interval of that order, caret the part of the compatibility class from the base on, without the pre-releases not named by the base. |
| `Semver.MinorComparatorRanges` | framework/contracts/account/src/versioning.rs:112-123 | Every comparator without a patch accepts a range of releases and no pre-release. |
| `Semver.MajorComparatorRanges` | framework/contracts/account/src/versioning.rs:112-123 | The same for every comparator with a major version only. |
| `UpgradePath.NextVersion` | framework/packages/abstract-interface/src/account.rs:658-698 | Selects a listed newer version, and none exactly when none is newer; the unwrapped maximum always exists. |
| `UpgradePath.NextVersionRule` | framework/packages/abstract-interface/src/account.rs:658-698 | Which version that is, for all versions: where something newer would break, the highest of those that the lowest of them accepts; otherwise the newest. |
| `UpgradePath.WalkReachesNewest` | framework/packages/abstract-interface/src/account.rs:598-604 | For all lists and versions the loop ends, climbs strictly, and arrives at the greatest listed version; it moves exactly when something is newer. |
| `UpgradePath.UpgradeToNewest` | framework/packages/abstract-interface/src/account.rs:598-604 | The loop computes that walk and its flag tells whether anything was newer. |
| `UpgradePath.UpgradeAccount` | framework/packages/abstract-interface/src/account.rs:570-607 | Over a tree of accounts, sub-accounts first: every account ends at the newest version, and the result tells whether any of them was behind. |
| `UpgradePath.NextVersionEntersNextClass` | framework/packages/abstract-interface/src/account.rs:665-685 | With releases only, a step towards a higher compatibility class enters the next listed class at its newest version. |
| `UpgradePath.WalkVisitsEveryClass` | framework/packages/abstract-interface/src/account.rs:598-604 | When a higher class is listed the walk visits every listed class above the current one exactly once, ascending, each at its newest version. |
| `UpgradePath.WalkWithinClass` | framework/packages/abstract-interface/src/account.rs:686-698 | Otherwise it takes at most one step. |
| `UpgradePath.CaretIsClass` | framework/packages/abstract-interface/src/account.rs:662-669 | The caret requirement accepts exactly the same compatibility class from the base on, without the pre-releases not named by the base. |
| `UpgradePath.NonBreakingIff` | framework/packages/abstract-interface/src/migrate.rs:269-282 | An upgrade is not breaking exactly for equal versions or for a later release of the same class. |
| `UpgradePath.NonBreakingPartialOrder` | framework/packages/abstract-interface/src/migrate.rs:269-282 | Non-breaking is reflexive, antisymmetric and transitive, pre-releases included. |
| `UpgradePath.NonBreakingChain` | framework/packages/abstract-interface/src/migrate.rs:269-282 | A chain of non-breaking upgrades is non-breaking end to end. |
| `OsmosisPool.ShareOutIff` | integrations/osmosis-adapter/src/dex.rs:333-342 | The shares can be computed exactly for positive pool amounts of 128 bits and quotients of 128 bits. |
| `OsmosisPool.ShareOutGreatest` | integrations/osmosis-adapter/src/dex.rs:322-345 | The shares are the greatest number both deposits can pay for. |
| `OsmosisPool.TakenWithinDeposit` | integrations/osmosis-adapter/src/dex.rs:238-247 | The pro-rata amounts, rounded up, never exceed the deposits. |
| `OsmosisPool.SharesSuperadditive` | integrations/osmosis-adapter/src/dex.rs:322-345 | Two deposits made separately never earn more shares than the two together. |
| `OsmosisPool.RatioAccepted` | integrations/osmosis-adapter/src/dex.rs:348-382 | An accepted ratio comparison with all three floors undone. |
| `OsmosisPool.RatioNeverTooStrict` | integrations/osmosis-adapter/src/dex.rs:348-382 | The rounding never refuses a ratio that is within the tolerance exactly. |
| `OsmosisPool.SlippageIff` | integrations/osmosis-adapter/src/dex.rs:348-382 | The check passes exactly without a tolerance, or with one up to one when both 18-digit ratios exist and are kept; a tolerance above one is an error of its own. |
| `OsmosisPool.WithinIsTolerated` | integrations/osmosis-adapter/src/dex.rs:369-372 | Ratios that are within the tolerance exactly always pass. |
| `OsmosisPool.SlippageAndShares` | integrations/osmosis-adapter/src/dex.rs:229-239 | With accepted tolerance t and s shares the unused part of each deposit is below t*d_i + 2*d_j/10^18 + p_i/T. |
| `OsmosisPool.PrepareTokens` | integrations/osmosis-adapter/src/dex.rs:145-201 | More than two assets, or a non-empty offer of zeros, are refused; otherwise the tokens ascend by denom and are the offer itself or half of the one non-zero amount with the simulated return. |
| `OsmosisPool.ComputeJoin` | integrations/osmosis-adapter/src/dex.rs:205-239 | Goes through exactly for two assets of equal weight, a deposit of each, shares that can be computed and a tolerated deposit, and is then fair. |
| `OsmosisPool.ProvideLiquidity` | integrations/osmosis-adapter/src/dex.rs:136-251 | The whole operation: its two early refusals; without a tolerance it goes through exactly when prepared tokens can be joined with, above one it is refused, and up to one it goes through for all that is within it exactly; the join message then asks for the most shares its caps pay for with a bounded rest. |
| `OsmosisPool.BalancedJoin` | integrations/osmosis-adapter/src/dex.rs:205-247 | Ten of each asset into a balanced pool of a hundred of each and a hundred shares earns ten shares under any tolerance. |
| `AstrovaultOrder.NormalizeOrder` | integrations/astrovault-adapter/src/dex.rs:598-621 | Succeeds if and only if no asset info occurs more often than the pool order has places for it; then result i has the info of place i and the result is the input plus zero amounts. An error names a surplus asset. |
| `AstrovaultOrder.SwapRemoveInfos` | integrations/astrovault-adapter/src/dex.rs:604-612 | The shuffle of `swap_remove` does not show in the multiset of infos. |
| `AstrovaultOrder.TakeOrFill` | integrations/astrovault-adapter/src/dex.rs:604-612 | One place is filled from the rest by an asset taken out of it, or by a zero amount. |
| `Paging.NextPage` | framework/contracts/account/src/queries.rs:69-77 | A page behind an exclusive cursor is the next stretch of the ordered map, cut at the limit. |
| `Paging.ModuleInfos` | framework/packages/abstract-client/src/account.rs:597-610 | The client loop returns the whole map in order, after one query per five entries begun and one empty one. |
| `Paging.SubAccountIds` | framework/packages/abstract-client/src/account.rs:685-700 | The loop with the cursor of the last page returns every id in order; only a limit of zero would return nothing. |
| `Paging.WalkReadsRest` | framework/contracts/account/src/queries.rs:99-113 | Paged reading from any cursor returns the whole rest if and only if the limit is positive or nothing is left. |
| `InstantiateFees.Collect` | framework/contracts/account/src/contract.rs:196-196 | Conversion to a normalised collection fails exactly for a repeated denom and keeps every total. |
| `InstantiateFees.Add` | framework/contracts/account/src/contract.rs:226-228 | Adding a coin changes one denom by its amount, or overflows. |
| `InstantiateFees.Subtract` | framework/contracts/account/src/contract.rs:244-245 | Subtracting succeeds exactly when the denom is covered. |
| `InstantiateFees.TotalFee` | framework/contracts/account/src/contract.rs:187-228 | The total is the namespace fee plus all required funds in every denom. |
| `InstantiateFees.PayAll` | framework/contracts/account/src/contract.rs:244-251 | The loop succeeds exactly when every denom is covered and keeps the difference. |
| `InstantiateFees.InstantiateFunds` | framework/contracts/account/src/contract.rs:187-253 | Instantiation passes the fee check exactly when the received funds, in normal form, cover namespace fee plus install funds in every denom; attached and kept funds then sum to the received ones. |

## Left out

- RunKeepsValid: a module that calls back into the account between the two phases of an install or upgrade is not modelled; the other contracts act only on their own data in between.
- InstallOrderIrrelevant: which error a refused batch reports may depend on the order.
- WalkVisitsEveryClass: covers releases only, since the caret rule does not split pre-releases into classes; WalkReachesNewest covers all versions.
- NextVersionEntersNextClass: covers releases only, for the same reason.
- WalkWithinClass: covers releases only, for the same reason.
- SubAccountIds: the client never passes a limit; the limit is a parameter to state what a limit of zero would do.
- ProvideLiquidity: the swap message and the simulation of the swap are outside; the simulated amount is a parameter. Parsing of pool data is outside; missing pool assets and unknown denoms are panics.
- NamespacedIff: names are ASCII and in lower case; the source lowers the part behind the colon and counts bytes.
- StatusIff: a status message without a value is an error of its own and left out.
- CreateIff: that a remote id is only accepted from the IBC host is left out, as is the check of the account's code.
- UpgradeAccount: a query or upgrade that fails on the way is outside; the module list is the same for every account of the tree.
- Semver: the crate is not part of the repository; its documented behaviour is modelled, build metadata left out.
- RemoveAccountFromContracts: what the registry does with the namespace given up is outside.
- HandleAppMigration: the migrate message itself is outside; its effect is the later state of the contract.
- HandleAdapterMigration: the messages moving authorized addresses are outside; only whether the old adapter answers the query matters.
- The owner overrides `UpdateModuleAddresses` and `UpdateWhitelist` as steps of runs: they bypass the bookkeeping on purpose. `UpdateWhitelistIff` covers the whitelist itself.
- Governance verification of NFTs and nested owners, and the account's own migration: no part in the invariants.
- Registry, module factory, IBC host and client, ICA client: read-only functions or not modelled.
- In `AdminCalls` the suspension of the account and calls that fail inside the reply: the replies cannot fail there, and a failing upgrade check is a failing call.
- Message construction, events, attributes, JSON, address derivation, name and link validation: plumbing.
- Staking, money-market and swap adapters, deployment scripts and generated interfaces: translation to contracts that cannot be seen.
