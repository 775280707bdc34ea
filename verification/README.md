# Models of the Business Lab control plane and its apps

A Dafny 4.11 model of the parts of the repository that carry an argument: small protocols that must survive
crashes, texts that are generated and read again, and state that several requests change. Verify it with
`dafny verify dfyconfig.toml`. Code that changes state step by step is a class or a method with loops, each
proved equal to a specification function; what the code promises is then proved about those functions, over
every input, every run or every reachable state.

- **ComposeScanner**: the brace-depth scan for `${VAR:-default}` in compose files. It inverts a template
  printer at any nesting.
- **SsoUsers**, **AccessPolicy**, **AccessText**: dashboard roles, grants and exposures become user groups and a
  first-match rule list. Evaluating the output gives back exactly what the dashboard state says, and the rule lines
  read back.
- **TextSearch**, **ConfigSplice**, **SplicePlaces**, **SpliceCommute**, **AutheliaConfig**, **ConfigHistory**, **ClientText**, **ConfigSyncs**: two
  generators each own a marked block of one live configuration file. The last splice wins, repeating one is a fixed
  point, and the two commute, although one end marker is a substring of the other and either block may be missing.
  After any run of them, the file means what the dashboard said last; syncs that overlap may undo one another.
- **BackupSchedule**: "claim as failed, overwrite on success", with the process dying anywhere, also between
  single row writes.
- **Watchdog**, **WatchdogRun**: critical-service restarts, with a quantitative bound over all runs.
- **EditLock**, **Shares**, **ProductRefresh**, **Ranking**: Price Compare's lease lock, sharing grants, the bulk refresh
  among user edits, and the choice of one product among a store's results.
- **Ingress**: the tunnel's first-match routing table and the DNS records behind it.
- **EnvText**, **EnvMerge**, **EnvFile**, **AppEnv**, **Passwords**: saving an app's `.env` and generating its secrets.
- **Common**, **Strings**: the vocabulary the others share.
- **ImagePins**: image references and the pins in an override file.
- **GuestExport**, **ReservationSync**: the hotel agent's guest export, with crashes and a server whose guests edit their
  data online, and its reservation batching.

Time is an integer number of milliseconds, prices and sizes are reals, strings are sequences of characters.
JavaScript between two waits is one atomic step. Clocks, random draws, remote answers and the moment a process
dies are parameters, so the theorems hold for every choice of them.

## Where the code and its description differ

These came out of the proofs. Each names the lemmas that say when the code does what its comments say, and when not.

- A secret that holds a real value is "never rotated" before a start (`appEnv.ts:385-387`), except that a hidden
  secret taken from `.env.example` is replaced when the app has no `.env` yet and another secret is generated:
  the save reads the current values from `.env` alone (`AppEnv.RealSecretIsKeptIff`).
- A saved value reads back only if its key stood on at most one line, or its last line said the same already: the
  first line is rewritten, the last one is read (`EnvFile.WrittenKeyReadsBackIff`, `EnvFile.KeyOnTwoLinesKeepsLast`).
- "Every other existing line" is preserved, but not every other value. A submitted value may hold line breaks
  (`backend/src/middleware/validation.ts:193`), and its further lines are lines of the file: it never reads back,
  changes the file at every save, and can set a key nobody submitted, a hidden secret or a managed one included
  (`EnvFile.UnwrittenKeyIsKeptIff`, `AppEnv.SetSecretIsKeptIff`, `AppEnv.ManagedKeyIsKeptIff`,
  `AppEnv.LineBreakOverwritesSecret`).
- A second identical save changes the file also when a line that is not rewritten ends in a carriage return before
  its line break, or a hidden secret's last line is blank (`AppEnv.SecondSaveIsIdleIff`).
- The override file is removed "when no pins remain" unless it holds service entries without an image, which an
  empty reference leaves, too (`ImagePins.FileRemovedIff`, `ImagePins.NoFileIffNothingPinned`,
  `ImagePins.LeftoverKeepsFile`, `ImagePins.EmptyReferenceKeepsFile`).
- On boot both generators are started at once "so every enabled hostname has its access_control rule + OIDC client"
  (`backend/src/index.ts:287-293`). Each reads the file, waits for Authelia's verdict and then writes what it had made
  of the text it read, so the one that ends last undoes the other: rules that end first are shown exactly when the file
  had them already or the clients had nothing to write (`ConfigSyncs.BootShowsRulesIff`, `ConfigSyncs.BootLosesRules`,
  `ConfigSyncs.PolicyIsSureIff`).
- Ensuring a route twice, and removing it again, finds its own DNS record exactly when the configured tunnel id
  has no capital letters: one side of the comparison is lower-cased and the other is not
  (`Ingress.DnsIsRepeatableIffLowerCase`).
- The bulk refresh never undoes a rename. An ordinary edit that waits for a store search still can: it saves the
  snapshot it began with, and undoes nothing exactly when the file's list still agrees with that snapshot
  (`ProductRefresh.StaleSaveUndoesNothingIff`, `ProductRefresh.StaleEditUndoesRename`).
- The agent marks a guest exported once its page was accepted, also when the server skipped the guest because of an
  online edit (`GuestExport.DetailsAreTheAgentsIff`, `GuestExport.PendingGuestIsSkipped`), or passed it over because
  it has no code (`GuestExport.NoGuestIsLost`, `GuestExport.CodelessGuestIsLost`).
- The retry budget is used up by the failure count, the third row written. A death just before it leaves the budget
  as it was (`BackupSchedule.CrashLoopBoundRowByRowIff`).
- Two attempts are sure to start an hour apart exactly while no success stamp waits to be written
  (`BackupSchedule.SpacingIsSureIff`). Written behind a younger claim it sets the stamp row back, and the next attempt may
  start a millisecond after that claim; behind a younger success it sets the last run before the last success
  (`BackupSchedule.SuccessOrderIsSureIff`).
- "Half-finished cleanup must be safe to re-run" (`cloudflareTunnelClient.ts:295-297`) holds, but a removal that had
  completed deletes another record when the name had several (`Ingress.RerunCompletesIff`,
  `Ingress.SecondRemovalDeletesTheOther`).
- A file without any access control gets the block "after the first line" (`autheliaAccessControl.ts:180`); it goes in
  front of it (`SplicePlaces.RulesOnTop`).
- Picking the cheapest plausible candidate fails on an emptied list exactly when every one of three or more
  values lies below half their median, which takes a negative median (`Ranking.NoPickIff`,
  `Ranking.EqualNegativePricesFail`).

## Model

| member | source | states |
|---|---|---|
| ComposeScanner.ScanInvertsPrint | backend/src/config/services.ts:1713-1760 | scanning the print of any well-formed template yields its keys in pre-order of first occurrence, required iff some occurrence has no default, with the first occurrence's printed default |
| ComposeScanner.ScanNeverRepeatsAKey | backend/src/config/services.ts:1702-1723 | on any text at all the result has one entry for every referenced key and none twice |
| ComposeScanner.ReferencesOfPrint | backend/src/config/services.ts:1725-1756 | the references found in a printed template followed by any text are the template's in pre-order, then those of the text |
| ComposeScanner.BodySkipsTemplate | backend/src/config/services.ts:1732-1745 | the brace counter passes over a whole printed default, at any depth, and stops where the enclosing body ends |
| ComposeScanner.ParseInnerOfRefOr | backend/src/config/services.ts:1699-1748 | the key pattern splits `KEY:-default` into exactly that key and that default, whatever the default holds |
| ComposeScanner.ParseInnerIff | backend/src/config/services.ts:1699-1748 | for every text, the key pattern matches exactly a name of capital letters, digits and underscores, alone or with a default behind `:-`, and gives that name and that default |
| ComposeScanner.VarTable.Record | backend/src/config/services.ts:1716-1723 | the table after recording one more occurrence is the summary of all occurrences so far |
| ComposeScanner.VarTable.Scan | backend/src/config/services.ts:1725-1756 | the scan terminates and appends exactly the references of its text to those seen |
| ComposeScanner.ExtractComposeEnvVars | backend/src/config/services.ts:1713-1760 | the returned list is the summary of all references of the text |
| AccessPolicy.CompiledPolicyMeansDashboardState | backend/src/services/autheliaAccessControl.ts:52-132 | rendered rules evaluated over rendered users: bypass exactly on the portal or a matching bypass path, one_factor exactly for eligible webmasters and users granted the app that owns the hostname, deny otherwise |
| AccessPolicy.GatedRulesMeanExposures | backend/src/services/autheliaAccessControl.ts:58-76 | also with shared hostnames, first-match evaluation of the rules decides as the first exposure of that hostname with a verdict does |
| AccessPolicy.AppRulesMeanVerdict | backend/src/services/autheliaAccessControl.ts:58-76 | the one or two rules of an app, bypass before one_factor, decide exactly that exposure's verdict |
| SsoUsers.GroupsAdmit | backend/src/services/autheliaSync.ts:89-105 | an account carries `admins` or the app's group iff it is a webmaster or was granted the app, as long as declared groups are neither `admins` nor `app-` groups |
| SsoUsers.EntryOfUser | backend/src/services/autheliaSync.ts:84-114 | a user is in the file iff its account has an email and a password, and then with that account's groups |
| SsoUsers.FileHolds | backend/src/services/autheliaSync.ts:84-114 | in plain words who is in the file, and that the entry has the account's address as email, its hash as password and the display name kept from before |
| SsoUsers.GroupIff | backend/src/services/autheliaSync.ts:75-105 | for every group: webmasters are in `admins` and every app's group, everyone in the groups of granted apps and in those the app's last option declares |
| SsoUsers.ExposedIff | backend/src/services/autheliaAccessControl.ts:82-132 | what is gated is exactly each grantable app with a hostname, and each hostname of a row whose app is protected and whose first extra of that name asks for the login |
| SsoUsers.SyncAutheliaUsers | backend/src/services/autheliaSync.ts:84-128 | the loops over accounts, grants and declared groups build the specified file, which is left alone when no account is eligible |
| AccessPolicy.GetGatedSecondaryExposures | backend/src/services/autheliaAccessControl.ts:109-132 | the loop keeps exactly the opted-in secondaries of protected apps, each gated by its app's group |
| AccessText.RenderAccessControl | backend/src/services/autheliaAccessControl.ts:52-79 | the pushed lines are those of the rule list, portal first and each app's bypass before its one_factor rule |
| AccessText.BlockToWrite | backend/src/services/autheliaAccessControl.ts:208-227 | a block is written iff there is a rule to put in it |
| AccessText.ReadRulesInvertsRendering | backend/src/services/autheliaAccessControl.ts:52-79 | read by Authelia's own words, `policy: bypass` and `policy: one_factor` among them, the rendered lines give back the rule list exactly when no value in it holds a quote, which is rendered as it is |
| TextSearch.FindMeaning | backend/src/services/autheliaAccessControl.ts:162-174 | the search for a marker or an anchored key returns its first occurrence, and nothing iff there is none |
| TextSearch.FindConcat | backend/src/services/autheliaAccessControl.ts:162-174 | searching two texts joined at a line start is searching the first, then the second |
| ConfigSplice.MarkedSiteOfBlock | backend/src/services/autheliaOidcClients.ts:132-151 | a well-formed block is found exactly from its begin to its end marker, whatever follows |
| ConfigSplice.LastAccessSpliceWins | backend/src/services/autheliaAccessControl.ts:161-182 | splicing twice is splicing the second block only, also from a file with an unmarked or no block; with equal blocks this is the fixed point |
| ConfigSplice.LastOidcSpliceWins | backend/src/services/autheliaOidcClients.ts:145-157 | the same for the client block, also when the file has no client list |
| ConfigSplice.RefillReplaces | backend/src/services/autheliaAccessControl.ts:173-175 | a block put in at a clean site is found again and replaced by the next with nothing else touched |
| SplicePlaces.BlockIsReplaced | backend/src/services/autheliaAccessControl.ts:161-175 | a block in its place is replaced with everything before and behind it kept, by either generator its own |
| SplicePlaces.RulesOverKey | backend/src/services/autheliaAccessControl.ts:176-179 | without a block the rules replace the `access_control:` line and exactly the blank, indented and comment lines under it |
| SplicePlaces.RulesOnTop | backend/src/services/autheliaAccessControl.ts:180-181 | without a block and without that key they go on top, with an empty line behind them |
| SplicePlaces.ClientsBehindKey | backend/src/services/autheliaOidcClients.ts:145-156 | without a block the clients go right behind the `clients:` line |
| SplicePlaces.ClientsNowhere | backend/src/services/autheliaOidcClients.ts:145-157 | without a block and without that line the text stays as it is |
| SplicePlaces.BlockWithoutBreak | backend/src/services/autheliaOidcClients.ts:132-146 | a block that ends the file without a line break is still replaced by new rules, but not known again by the clients |
| SpliceCommute.SplicesCommute | backend/src/services/autheliaOidcClients.ts:132-157 | access-control and client splices give the same file in either order, in whichever of its possible places each block is, as long as the two stretches of text they replace are separate |
| SpliceCommute.AccessSpliceStaysApart | backend/src/services/autheliaAccessControl.ts:161-182 | after an access-control splice the two stretches are separate again |
| SpliceCommute.OidcSpliceStaysApart | backend/src/services/autheliaOidcClients.ts:145-157 | after a client splice the two stretches are separate again |
| SpliceCommute.SpanIsMaximal | backend/src/services/autheliaAccessControl.ts:176-179 | the structural span ends only before a line that is not blank, indented or a comment |
| SpliceCommute.SpanEndsBeforeBlock | backend/src/services/autheliaAccessControl.ts:176-179 | a structural span never ends right where a client block begins |
| SpliceCommute.AccessSiteStays | backend/src/services/autheliaAccessControl.ts:161-182 | replacing inert text elsewhere only shifts the site of the access-control splice |
| SpliceCommute.OidcSiteStays | backend/src/services/autheliaOidcClients.ts:145-157 | replacing inert text elsewhere only shifts the site of the client splice |
| AutheliaConfig.AccessBlockIsInert | backend/src/services/autheliaAccessControl.ts:34-79 | a rendered rule block is well formed and holds neither the other generator's markers nor its key, if no value in it holds a line break or one of the two texts the markers are made of |
| AutheliaConfig.OidcBlockIsInert | backend/src/services/autheliaOidcClients.ts:105-130 | a rendered client block is well formed and holds neither the other generator's markers nor its key, although its end marker contains the other's, if no value in it holds a line break or one of the two texts the markers are made of |
| AutheliaConfig.RegenerationsCommute | backend/src/services/autheliaOidcClients.ts:211-243 | regenerating such rules and clients in either order leaves the same configuration |
| AutheliaConfig.SettledBySync | backend/src/services/autheliaAccessControl.ts:229-233 | after both syncs of such rules and clients neither finds anything to change |
| AutheliaConfig.RenderOidcClients | backend/src/services/autheliaOidcClients.ts:105-130 | the pushed lines are each client's in order |
| AutheliaConfig.ConfigFile.SyncAccessControl | backend/src/services/autheliaAccessControl.ts:229-247 | a restart happens exactly when the text changed, and a rejected text is not written |
| AutheliaConfig.ConfigFile.SyncOidcClients | backend/src/services/autheliaOidcClients.ts:224-243 | the same for the client block |
| ConfigHistory.TidyStays | backend/src/services/autheliaOidcClients.ts:145-157 | every regeneration keeps both markers in their places and the two blocks apart |
| ConfigHistory.OnlyTheLastShow | backend/src/services/autheliaAccessControl.ts:205-247 | after any run of regenerations the file is the one the last rules and the last clients alone would leave |
| ConfigHistory.WrittenPolicyReadsBack | backend/src/services/autheliaAccessControl.ts:161-182 | the rules just spliced in are read back from the file, wherever the block went |
| ConfigHistory.ConfigurationMeansDashboardState | backend/src/services/autheliaAccessControl.ts:205-247 | after any run of regenerations, reading the file's managed block and evaluating it over the users file decides every request as the dashboard state did when the rules were last rendered |
| ClientText.ReadClientsInvertsRendering | backend/src/services/autheliaOidcClients.ts:105-130 | read by Authelia's own words, the rendered client lines give back every field of every client, one-factor login and no consent screen included, exactly when no value holds a quote |
| ClientText.WrittenClientsReadBack | backend/src/services/autheliaOidcClients.ts:145-157 | the clients just spliced in are read back from the file, if it has a list to put them in |
| ClientText.RulesLeaveClients | backend/src/services/autheliaAccessControl.ts:161-182 | a splice of rules leaves the clients as they are read, and the place for them |
| ClientText.ClientsOfRun | backend/src/services/autheliaOidcClients.ts:211-243 | after any run of regenerations the file has the clients last rendered, or those it began with |
| ClientText.ClientsRestartIff | backend/src/services/autheliaOidcClients.ts:224-228 | in a file with a client list, clients synced behind earlier ones restart Authelia iff they are not the same |
| ConfigSyncs.RunSyncs | backend/src/services/autheliaAccessControl.ts:229-247 | syncs one after the other, some of them rejected, leave the history of the accepted ones, and restart Authelia once for each that changed the file |
| ConfigSyncs.RestartsOnlyForNews | backend/src/services/autheliaAccessControl.ts:229-247 | there are never more restarts than accepted syncs that render something else than the last of their kind |
| ConfigSyncs.RulesRestartIff | backend/src/services/autheliaAccessControl.ts:229-233 | rules synced behind earlier ones restart Authelia iff they are not the same |
| ConfigSyncs.ClientsLeavePolicy | backend/src/services/autheliaOidcClients.ts:145-157 | a client splice leaves the rules as they are read, wherever the two blocks are and also when there are no rules |
| ConfigSyncs.OverlappingSyncsShowAHistory | backend/src/services/autheliaAccessControl.ts:229-247 | however syncs overlap, are rejected or die, the file is well formed and the one that some of them in order would leave, with the rules of the last of those |
| ConfigSyncs.PolicyIsSureIff | backend/src/services/autheliaOidcClients.ts:224-243 | whichever of the syncs under way are then accepted, in whatever order, the rules stay iff each of them carries the rules the file shows |
| ConfigSyncs.BootShowsRulesIff | backend/src/index.ts:287-293 | with both generators started at once and the rules answered first, the file ends with the rules iff it showed them before or the clients had nothing to write |
| ConfigSyncs.BootLosesRules | backend/src/index.ts:287-293 | a file with a client list and no rules: two restarts later it still has no rules |
| BackupSchedule.CrashLoopBound | backend/src/services/backupScheduler.ts:81-133 | n attempts with no success among them span at least 3 hours and n - 4 days, with crashes anywhere and no assumption on the clock |
| BackupSchedule.FourAttemptsADay | backend/src/services/backupScheduler.ts:29-40 | five attempts with no success among them span more than a day |
| BackupSchedule.AttemptsSpacedThroughCrashes | backend/src/services/backup.ts:237-262 | any two attempts start an hour apart, though the process dies between single row writes and records interleave, as long as no write sets the stamp row back |
| BackupSchedule.UndisturbedClaim | backend/src/services/backup.ts:237-262 | row by row, a claim that nothing interrupts ends as the attempt of one whole record |
| BackupSchedule.UndisturbedSuccess | backend/src/services/backup.ts:237-262 | a success that nothing interrupts ends as one whole record |
| BackupSchedule.SpacingIsSureIff | backend/src/services/backup.ts:237-262 | with a monotone clock and success stamps written at once from now on, attempts are sure to stay an hour apart iff no earlier stamp still waits to be written |
| BackupSchedule.OvertakenStampSetsBack | backend/src/services/backup.ts:237-262 | the history in which a success stamp is written after a younger claim, and the next attempt starts too early |
| BackupSchedule.CountedCrashLoopBound | backend/src/services/backup.ts:244-261 | the crash-loop bound holds row by row if the first four attempts got their failure counts written |
| BackupSchedule.CrashLoopBoundRowByRowIff | backend/src/services/backup.ts:244-261 | by the number of rows each of five or more attempts got written, the bound is sure to hold iff the first four got as far as the failure count |
| BackupSchedule.FailuresSinceLastSuccess | backend/src/services/backup.ts:239-250 | after any history the failure count is the number of attempts since the last success |
| BackupSchedule.FailuresSinceLastSuccessIff | backend/src/services/backup.ts:239-262 | row by row, the count is the number of attempts since the last success iff each got its count written, if the success did; a success that died before its third row leaves the older failures in the count |
| BackupSchedule.CountNeverAboveAttempts | backend/src/services/backup.ts:237-262 | however records die and interleave, the failure count never grows by more than the attempts made |
| BackupSchedule.FailuresCountAttempts | backend/src/services/backup.ts:239-250 | without a success the failure count grows by exactly one per attempt |
| BackupSchedule.SuccessNeverAfterRun | backend/src/services/backup.ts:234-253 | in every run with a monotone clock the last success is not later than the last run |
| BackupSchedule.SuccessFollowsThroughCrashes | backend/src/services/backup.ts:234-262 | the same after any single row write, as long as no write sets the stamp row back |
| BackupSchedule.SuccessOrderIsSureIff | backend/src/services/backup.ts:234-262 | row by row, with success stamps written at once from now on, the last success is sure not to be later than the last run iff no earlier stamp still waits to be written |
| BackupSchedule.NextAttemptInTime | backend/src/services/backupScheduler.ts:70-103 | with hourly checks and a fixed offset, a schedule that has not failed lately starts its next attempt within a day of 24 hours (daily) or 168 hours (weekly) after its last run, or of the first check if there was none |
| BackupSchedule.RetryInTime | backend/src/services/backupScheduler.ts:89-102 | after a first, second or third failure in a row the next attempt starts within two hours, at any hour of the day |
| BackupSchedule.NoAttemptTooEarly | backend/src/services/backupScheduler.ts:19-102 | after a success no attempt starts before 24 hours (daily) or 168 hours (weekly) are over, whatever checks come and whatever the user saves but another period |
| BackupSchedule.AttemptsAfterSuccess | backend/src/services/backupScheduler.ts:19-102 | the same for the success that ends any history |
| BackupSchedule.ScheduleIsObeyed | backend/src/services/backupScheduler.ts:81-125 | whatever the rows say: after the user saves a schedule, a check makes an attempt iff it is enabled and, after at most three failures in a row, an hour has passed since the last run, else it is the chosen hour and 24 or 168 hours have passed |
| BackupSchedule.Settings.RecordBackupScheduleRun | backend/src/services/backup.ts:237-262 | the four row writes in order, or the prefix of them that happened before the process died |
| BackupSchedule.Settings.RunScheduledBackupCheck | backend/src/services/backupScheduler.ts:105-163 | an attempt is made iff due, claimed first, and success stamped only after clean work |
| Watchdog.RestartBound | backend/src/services/criticalServiceHealth.ts:209-294 | r restarts of a project in n passes satisfy 4 r <= n + 1, with the credit the open streak has earned |
| Watchdog.FourPassesPerRestart | backend/src/services/criticalServiceHealth.ts:209-294 | r restarts in n passes from a fresh start satisfy 4 r <= n + 1 |
| Watchdog.PassCredit | backend/src/services/criticalServiceHealth.ts:209-272 | one pass earns at most one step of credit and a restart costs four |
| Watchdog.RecoveryBetweenRestarts | backend/src/services/criticalServiceHealth.ts:212-237 | between any two restarts lies a pass with every probe healthy |
| Watchdog.RestartFollowsFailures | backend/src/services/criticalServiceHealth.ts:218-257 | each restart follows 3 consecutive failures (8 if the last was DNS) of a probe Uptime Kuma does not contradict |
| Watchdog.RestartIff | backend/src/services/criticalServiceHealth.ts:209-294 | over any run from a fresh start, a pass restarts a project iff the restart goes through, every earlier one was followed by an all-healthy pass, and some probe of which Uptime Kuma says nothing or 0 failed in 3 passes in a row, in 8 if for DNS |
| Watchdog.GaveUpIff | backend/src/services/criticalServiceHealth.ts:223-237 | a pass sends the give-up alert iff no all-healthy pass and no alert came since a restart and some probe failed in 3 passes in a row behind it, in 8 if for DNS |
| Watchdog.CountsAreStreaks | backend/src/services/criticalServiceHealth.ts:281-282 | a probe's count never exceeds its current streak of failed checks |
| Watchdog.OneAlertPerOutage | backend/src/services/criticalServiceHealth.ts:223-237 | between two give-up alerts lies a pass with every probe healthy |
| Watchdog.AlertFollowsRestart | backend/src/services/criticalServiceHealth.ts:223-237 | a give-up alert is sent only after a restart in the same outage |
| Watchdog.CountingIsLocal | backend/src/services/criticalServiceHealth.ts:277-287 | counting all probes in the shared map counts each project's own probes and no others |
| Watchdog.ViewAfterHandling | backend/src/services/criticalServiceHealth.ts:289-293 | handling one project decides by its own view and leaves every other project's view alone |
| Watchdog.Monitor.HandleProject | backend/src/services/criticalServiceHealth.ts:209-272 | the branches, the veto and the zeroed counts do what the decision function says |
| Watchdog.Monitor.CheckCriticalServices | backend/src/services/criticalServiceHealth.ts:274-294 | one pass over the shared maps is, for every project, one pass of that project's own machine |
| WatchdogRun.CountRestarts | backend/src/services/criticalServiceHealth.ts:274-299 | the monitor itself, started afresh and run over all projects for n passes, restarts each project r times with 4 r <= n + 1 |
| EditLock.LeaseExclusion | apps/price-compare/app/server.js:682-698 | two admitted claims on a shared list by different users are more than 90 seconds apart, with no release by the first, steal or restart between |
| EditLock.HolderIsReplacedOnlyBy | apps/price-compare/app/server.js:666-737 | a holder with a running lease loses the lock iff it releases it, another user steals it, or the server restarts |
| EditLock.RefusalHasRecentHolder | apps/price-compare/app/server.js:666-698 | every refusal is due to another user's admitted claim at most 90 seconds ago, so an untouched lock blocks nobody, and names that user, or gives the address for want of a name |
| EditLock.LookingIsHarmless | apps/price-compare/app/server.js:666-674 | deleting expired locks while looking never changes who is let in afterwards |
| EditLock.EditLocks.CurrentLock | apps/price-compare/app/server.js:666-674 | returns the lock whose lease is running, and forgets an expired one |
| EditLock.EditLocks.RequireEditLock | apps/price-compare/app/server.js:682-698 | refuses exactly while another user's lease runs on a shared list, naming that holder, and otherwise takes the lock for the full lease |
| EditLock.EditLocks.PutLock | apps/price-compare/app/server.js:715-731 | the same with a steal always granted |
| EditLock.ReleaseFreesOnlyOwn | apps/price-compare/app/server.js:733-737 | after a release the user does not hold that list, and every other lock is exactly as it was |
| Shares.GrantsRefineHistory | apps/price-compare/app/shares.js:136-146 | in every reachable table access is exactly an invite by the owner that the viewer accepted and nobody removed since; a list is shared iff somebody has access |
| Shares.RowsFollowHistory | apps/price-compare/app/shares.js:101-133 | for each invite, the table's accepted row and its owner are what the history says |
| Shares.ReachableIsValid | apps/price-compare/app/shares.js:69-98 | every reachable table has unique ids, at most one live invite per owner and address, and a bound invitee on accepted rows |
| Shares.HistoryEvolves | apps/price-compare/app/shares.js:101-133 | over any stretch of history rows are kept in place and status moves only pending to accepted or declined, and anything to revoked; a bound invitee and an answer's time stamp stay |
| Shares.BoundByAddress | apps/price-compare/app/shares.js:101-118 | whoever an invite is bound to has signed in or answered with the invited address |
| Shares.SharesFile.CreateInvite | apps/price-compare/app/shares.js:69-98 | the checks in their order, each with its refusal, then one pending row |
| Shares.InviteIsAdmittedIff | apps/price-compare/app/shares.js:69-98 | an invite is admitted iff its address is valid, not the owner's, and has no pending or accepted invite by the owner; every field of the new row |
| Shares.ValidEmailIff | apps/price-compare/app/shares.js:27-29 | an address is valid iff it is three pieces without blanks or at signs around an at sign and a dot |
| Shares.AnswerIsAdmittedIff | apps/price-compare/app/shares.js:101-118 | an answer is admitted iff its invite is pending and bound to the user, or bound to nobody and to the user's address; what becomes of the row, and that no other changes |
| Shares.LoginBindsIff | apps/price-compare/app/shares.js:157-168 | a login binds exactly the pending and accepted invites of the address that are bound to nobody |
| Shares.SharesFile.Answer | apps/price-compare/app/shares.js:101-118 | only the addressee of a pending invite changes its row |
| Shares.RemovalRevokes | apps/price-compare/app/shares.js:123-133 | either party and nobody else takes an invite down; it gives nobody access any more, keeps the time of its first answer, and no other row changes |
| Shares.SharesFile.BindPendingInvites | apps/price-compare/app/shares.js:157-168 | the loop binds exactly the live unbound rows of that address |
| ProductRefresh.RefreshDoesNotInterfere | apps/price-compare/app/server.js:1069-1087 | in any interleaving with edits, adds, deletes and stale saves, leaving out every refresh write gives the same file up to search results and timestamps |
| ProductRefresh.RefreshIsLocal | apps/price-compare/app/server.js:121-128 | a refresh write changes no other list, no other product and no other field, and does not bring back a deleted product |
| ProductRefresh.RefreshIsWritten | apps/price-compare/app/server.js:121-128 | a product in the list has exactly the search result and its time afterwards, and nothing else of it changes |
| ProductRefresh.RefreshWritesAll | apps/price-compare/app/server.js:1069-1087 | with nothing in between and unique ids, a refresh gives every product of the list what was found for it and changes no other list |
| ProductRefresh.StaleEditUndoesRename | apps/price-compare/app/server.js:775-807 | one history in which an edit waiting for a search undoes another product's rename |
| ProductRefresh.StaleSaveUndoesNothingIff | apps/price-compare/app/server.js:775-807 | the save leaves every other product of the list as the file held it just before iff the snapshot agrees with the file in length and at every place but the edited one; other lists never change |
| ProductRefresh.UndisturbedEditUndoesNothing | apps/price-compare/app/server.js:775-807 | if nothing was written to the list between the begin and the end of an edit, the list is the one it found with only the edited product changed |
| ProductRefresh.Server.UpdateOneProduct | apps/price-compare/app/server.js:121-128 | writes against the file as it is now, answers with the product that has the result and its time, and with none iff the product is gone |
| ProductRefresh.EditBeginsQuietly | apps/price-compare/app/server.js:775-807 | an edit either waits with its snapshot and writes nothing, or changes one product of its own list; no other list changes |
| ProductRefresh.EditMeaning | apps/price-compare/app/server.js:775-807 | an edit changes exactly the fields it names of the first such product of the own list, saves at once with its time, and goes to wait for a search instead iff its route asks for one or name or brand is another; with an empty name or no such product it does nothing |
| ProductRefresh.SaveBehindSearch | apps/price-compare/app/server.js:800-806 | the save behind a search makes the list the old snapshot with the result in it and changes no other list |
| ProductRefresh.DeleteTakesOnlyThat | apps/price-compare/app/server.js:809-814 | a delete takes exactly the products with that id out of the own list, in order, and changes no other list |
| ProductRefresh.Server.RefreshProductsForUser | apps/price-compare/app/server.js:1069-1087 | the loop is exactly the steps that came during each search, each followed by the write of what was found; up to search results and timestamps it is those steps alone; with none and unique ids the list has every result in it |
| Ranking.NarrowingIsLexicographicMinimum | apps/price-compare/app/scrapers.js:1085-1092 | the three stages keep, in order, exactly the minima of (processed form, extra words, head word), and never empty the pool |
| Ranking.SelectionMeaning | apps/price-compare/app/scrapers.js:964-986 | nothing is picked iff nothing is usable; a pick measures an eligible candidate, no pack unless all usable ones are, whose name no eligible one beats, and is the first of the cheapest that are plausible among the closest names |
| Ranking.SelectionByPrice | apps/price-compare/app/scrapers.js:964-1129 | in prices and sizes, by cross products: of three or more closest entries those at half of the middle one or more survive, by the unit if all have sizes of one kind; the pick is the first of the cheapest survivors, and selecting fails iff there is none |
| Ranking.SelectionNeverFails | apps/price-compare/app/scrapers.js:984-985 | without negative prices a selection from a non-empty pool succeeds |
| Ranking.PickIsPlausible | apps/price-compare/app/scrapers.js:1122-1129 | the pick is the first of the cheapest survivors and lies between half the median and the median |
| Ranking.HalfSurvive | apps/price-compare/app/scrapers.js:1125-1127 | at least half of three or more entries survive the cut, the median among them |
| Ranking.DroppedListingIsIgnored | apps/price-compare/app/scrapers.js:1122-1129 | moving an already dropped price anywhere below the cut changes neither the median of its pool nor the pick |
| Ranking.RepricingIsIgnored | apps/price-compare/app/scrapers.js:964-1129 | moving the price of a usable candidate changes nothing of the whole selection if its name is not among the closest, or if it is dropped there before and after |
| Ranking.NoPickIff | apps/price-compare/app/scrapers.js:1127-1128 | the reduction runs on an empty list iff all of three or more values are below half their median |
| Ranking.EqualNegativePricesFail | apps/price-compare/app/scrapers.js:1122-1129 | three or more unsized entries at one negative price, for which the reduction has nothing left |
| Ranking.MedianIsMedian | apps/price-compare/app/scrapers.js:1125-1126 | the middle of the sorted values has at most half of them below it and more than half at or below it |
| Ranking.SelectBestCandidate | apps/price-compare/app/scrapers.js:964-986 | the loop and the stages compute the specified selection |
| Ranking.CountExtraWords | apps/price-compare/app/scrapers.js:493-504 | counts the distinct words that nothing accounts for |
| Ranking.MeasureMeaning | apps/price-compare/app/scrapers.js:493-573 | every field of a measured candidate, an extra word being one that was not asked for, is in neither word list and is not all digits |
| Ranking.HasUnrequestedFormWord | apps/price-compare/app/scrapers.js:552-559 | true iff some word is a form or preparation the query did not ask for |
| Ranking.FindCrossStoreOutliers | apps/price-compare/app/scrapers.js:1141-1152 | flags a store iff three or more comparable picks of one kind exist, every other store's unit price is positive and one of them is exceeded more than threefold |
| Ranking.DoubtedIff | apps/price-compare/app/scrapers.js:1140-1152 | in prices and sizes: which picks can be compared, and that a store is doubted iff three or more are, all by one unit, the others' prices are positive, and its pick costs more than three times as much by the unit as one of theirs |
| Ranking.CheapestIsNeverOutlier | apps/price-compare/app/scrapers.js:1147-1150 | a store whose unit price nobody undercuts is never flagged |
| Ingress.TableRefinesMap | backend/src/services/cloudflareTunnelClient.ts:223-327 | after any run of requests stopped anywhere the table is well shaped, every hostname leads where the last request that reached the table said, the catch-all is the one it had, and an untouched empty table stays empty |
| Ingress.EnsureServes | backend/src/services/cloudflareTunnelClient.ts:235-275 | the hostname gets the requested origin and flags and no other hostname's destination changes |
| Ingress.NothingElseIsServed | backend/src/services/cloudflareTunnelClient.ts:249-318 | a first route, and the removal of the last one, leave a rule that answers everything else with status 404; the first route has an origin setting iff one was asked for |
| Ingress.EnsureKeepsOtherRoutes | backend/src/services/cloudflareTunnelClient.ts:249-271 | from a non-empty table the very rule that first matches another hostname is unchanged |
| Ingress.RemoveKeepsOtherRoutes | backend/src/services/cloudflareTunnelClient.ts:310-324 | removal sends the hostname to the catch-all and leaves every other first match |
| Ingress.EnsureTwiceUpdatesOnce | backend/src/services/cloudflareTunnelClient.ts:250-262 | on any table a repeated request finds nothing to update |
| Ingress.RemoveUndoesEnsure | backend/src/services/cloudflareTunnelClient.ts:289-324 | on a table without the hostname, removing undoes adding iff the table had a catch-all |
| Ingress.RerunCompletesIff | backend/src/services/cloudflareTunnelClient.ts:289-301 | repeating a request ends where one uninterrupted run would: always if it stopped before or between its writes and always for an added route; for a completed removal iff the name had at most one record of the tunnel |
| Ingress.SecondRemovalDeletesTheOther | backend/src/services/cloudflareTunnelClient.ts:289-301 | two records of the tunnel under one name, and a repeated removal that deletes both |
| Ingress.ForeignRecordsAreKept | backend/src/services/cloudflareTunnelClient.ts:299-301 | no run alters, drops or reorders a DNS record that leads elsewhere |
| Ingress.DnsIsRepeatableIffLowerCase | backend/src/services/cloudflareTunnelClient.ts:180-195 | a created record is found by a repeat and deleted by a removal iff the tunnel id is in lower case |
| Ingress.DnsRequestIsSafe | backend/src/services/cloudflareTunnelClient.ts:174-216 | no record is altered or dropped; afterwards there is one of that name; an own one is answered with, a foreign one refused, and only when there was none a proxied CNAME to the tunnel's domain is added |
| Ingress.Cloudflare.EnsureIngressRoute | backend/src/services/cloudflareTunnelClient.ts:223-279 | table edit then DNS, updated iff the hostname did not lead there before |
| Ingress.Cloudflare.RemoveIngressRoute | backend/src/services/cloudflareTunnelClient.ts:303-354 | table edit then DNS, each reported iff there was something of its own to remove |
| EnvText.UnescapeInvertsEscape | backend/src/utils/envFile.ts:16-22 | a value escaped for Compose reads back as itself |
| EnvText.EntryIff | backend/src/utils/envFile.ts:33-45 | a line holds an entry iff, trimmed, it is a text that is not empty, begins no comment and holds no `=`, that sign, and a text; both are trimmed |
| EnvText.KeyNameIff | backend/src/middleware/validation.ts:193 | the keys a save may name: a capital letter, then capital letters, digits and underscores |
| EnvText.AssignmentReadsBack | backend/src/utils/envFile.ts:33-45 | a written assignment parses to its key and value, whatever `=`, `#` or `$` the value holds |
| EnvText.WritingReadsParts | backend/src/services/appEnv.ts:344-370 | after writing lines, which may hold line breaks, and splitting the file again, every key reads as the lines they fall into say |
| EnvText.SplitFileText | backend/src/services/appEnv.ts:344-369 | a written file splits into its lines without trailing empty ones, one carriage return less each |
| EnvFile.SavedReads | backend/src/services/appEnv.ts:343-370 | what every key reads as after a save, for all submitted values: what lines inside the values say of it behind its last line, else the first line of its own value if it stood on at most one line, else what it read as before |
| EnvFile.UnwrittenKeyIsKeptIff | backend/src/services/appEnv.ts:343-370 | a key that is not written keeps its value iff no line inside a submitted value gives it another behind its last line |
| EnvFile.WrittenKeyReadsBackIff | backend/src/services/appEnv.ts:343-370 | a written key reads back iff no line inside a value overrides it otherwise, and it is one line that stood on at most one line before or its last line said the same |
| EnvFile.KeyOnTwoLinesKeepsLast | backend/src/services/appEnv.ts:343-370 | the files with a key on two lines, which reads as its second line says whatever is saved |
| EnvFile.ValueSetsAnotherKey | backend/src/services/appEnv.ts:325-370 | the family of saves in which the value of one key sets another |
| EnvFile.LineBreaksDoNotReadBack | backend/src/services/appEnv.ts:325-332 | a value that holds a line break never reads back |
| EnvMerge.OtherLinesStay | backend/src/services/appEnv.ts:345-362 | every line stays in its place and changes only if it is the first of a written key |
| EnvMerge.ReportedOnce | backend/src/services/appEnv.ts:343-367 | every written key is reported once and nothing else is |
| EnvFile.SecondSaveChangesNothingIff | backend/src/services/appEnv.ts:344-370 | a second save for the same keys changes nothing iff its values are single lines, are the ones written before, and no line that was not rewritten ended in a carriage return |
| EnvFile.LineBreakAlwaysChanges | backend/src/services/appEnv.ts:344-370 | saving a value that holds a line break changes the file every time |
| AppEnv.SaveMeaning | backend/src/services/appEnv.ts:281-370 | what each submitted key, each unset hidden secret and every other key reads as after a save, whatever the values hold |
| AppEnv.SaveIsRefusedIff | backend/src/services/appEnv.ts:291-312 | a save is refused iff a port is taken or it submits for a fixed port a value that is neither blank nor the one `.env` has; any other starts from `.env`, else from the example |
| AppEnv.SetSecretIsKeptIff | backend/src/services/appEnv.ts:334-341 | a hidden secret that is set in `.env` survives a save that does not submit it iff no line inside a submitted value gives it another value behind its last line |
| AppEnv.ManagedKeyIsKeptIff | backend/src/services/appEnv.ts:322-332 | a managed key is never taken from what was submitted for it; it keeps its value under the same condition |
| AppEnv.LineBreakOverwritesSecret | backend/src/services/appEnv.ts:325-370 | the saves that name one setting and overwrite a set hidden secret |
| AppEnv.SecondSaveIsIdleIff | backend/src/services/appEnv.ts:322-370 | saving the same values again leaves the file alone iff the values that count are single lines, no line of the base file that is not rewritten ends in a carriage return, and the generator offers the same again for every hidden secret whose last line is blank |
| AppEnv.RealSecretIsKeptIff | backend/src/services/appEnv.ts:385-418 | a secret with a real value is kept when others are generated iff the app has a `.env`, or the secret is not hidden, or stands on several lines, or the generator offers the value it had |
| AppEnv.SecretsAreGeneratedIff | backend/src/services/appEnv.ts:390-418 | values are generated for exactly the generatable secrets that are unset, blank or one of six placeholders, and nothing is written when there are none |
| AppEnv.ExampleSecretIsReplaced | backend/src/services/appEnv.ts:402-418 | the starts in which a hidden secret's value from the example file is replaced |
| AppEnv.EnsuredSecretIsSetIff | backend/src/services/appEnv.ts:390-418 | afterwards an unmanaged generatable secret is set iff it stood on at most one line or its last line held something, and one that needed a value has the generated one under the same condition |
| AppEnv.ParseEnv | backend/src/utils/envFile.ts:28-48 | the loop returns for each key the value of its last line |
| AppEnv.MergeLines | backend/src/services/appEnv.ts:343-367 | consuming the pending updates line by line, then appending the rest, is the specified merge |
| AppEnv.AppDir.SaveServiceEnv | backend/src/services/appEnv.ts:281-376 | a refused save leaves the file alone, any other writes the specified text and reports the specified keys |
| AppEnv.AppDir.EnsureGeneratedSecrets | backend/src/services/appEnv.ts:390-423 | writes nothing when nothing is unset, else saves exactly the generated values |
| Passwords.GenerateComplexPassword | backend/src/services/appEnv.ts:50-64 | for every draw, the 24 characters drawn in the order the swaps make of them: a small and a capital letter, a digit and one of ten special characters among them, and no quote, dollar, backslash, backtick or blank, so that they are written to a `.env` exactly as they are |
| Passwords.Shuffle | backend/src/services/appEnv.ts:59-62 | the in-place swaps from the last place down, each with the place drawn for it |
| Passwords.AnyOrderOfCharacters | backend/src/services/appEnv.ts:59-62 | every order of the characters comes out of some draws |
| ImagePins.ParseInvertsPrint | backend/src/services/composeOverride.ts:48-92 | every well-formed unpinned reference is parsed back from its printed form, a port colon never taken for a tag, with Docker Hub's `library/` |
| ImagePins.CanonicalIsStable | backend/src/services/composeOverride.ts:55-92 | any text that parses has a canonical spelling that parses to the same |
| ImagePins.ParsePinned | backend/src/services/composeOverride.ts:60-63 | a reference with a digest is split at its first `@` |
| ImagePins.WrittenPinsReadBack | backend/src/services/composeOverride.ts:130-169 | pins read back are the old ones overridden by the new |
| ImagePins.OtherServicesStay | backend/src/services/composeOverride.ts:149-155 | a service no pin names keeps its entry |
| ImagePins.FileRemovedIff | backend/src/services/composeOverride.ts:140-169 | for any pins, "no file iff nothing pinned" holds iff something stays pinned or no entry is left without an image: one that had none and is not named, or one whose last pin is an empty reference |
| ImagePins.LeftoverKeepsFile | backend/src/services/composeOverride.ts:140-169 | the file in which an entry with other settings keeps an override without pins |
| ImagePins.EmptyReferenceKeepsFile | backend/src/services/composeOverride.ts:149-169 | the write of an empty reference, after which there is a file with nothing pinned |
| ImagePins.NoFileIffNothingPinned | backend/src/services/composeOverride.ts:140-169 | over any number of writes to a file of pins, it holds only pins iff no service's last pin is an empty reference, and "no file iff nothing pinned" holds iff that is so or something is pinned |
| ImagePins.OverrideFile.WriteImagePins | backend/src/services/composeOverride.ts:145-169 | setting and deleting entries one by one and then writing or removing the file is the specified write |
| GuestExport.NoGuestIsLost | apps/hotel/agent/HotelSync.cs:75-135 | with deaths and lost answers at any step and guests editing online, once the marker exists the server has accepted a push of a guest marked exported, and knows it, iff the guest has a code |
| GuestExport.DetailsAreTheAgentsIff | apps/hotel/api/src/routes/ingest.ts:64-112 | after its last accepted push the server's details of a guest are the agent's iff the last check-in submitted since says the same, or, with none since, the guest was not pending at the push or had submitted the same |
| GuestExport.PendingIff | apps/hotel/api/src/routes/ingest.ts:64-109 | over any history a guest is pending iff a check-in it submitted has not been acknowledged since |
| GuestExport.IdleBetweenRuns | apps/hotel/agent/HotelSync.cs:75-123 | over any history the agent is idle iff every run started has ended, by its end, a death or a failed push |
| GuestExport.PendingGuestIsSkipped | apps/hotel/api/src/routes/ingest.ts:98-109 | the history in which a guest is marked exported and the server keeps what it submitted online |
| GuestExport.CodelessGuestIsLost | apps/hotel/api/src/routes/ingest.ts:77-79 | the history in which a guest without a code is marked exported and the server never hears of it |
| GuestExport.FinishedRunDeliversAll | apps/hotel/agent/HotelSync.cs:85-123 | a run that ends normally has had an eligible guest accepted by the server, whatever the runs before it did, iff the guest has a code |
| GuestExport.LoopMakesProgress | apps/hotel/agent/HotelSync.cs:86-121 | whatever page the database hands out, one turn of the loop strictly shrinks what is due |
| GuestExport.DueCodes | apps/hotel/agent/HotelSync.cs:127-135 | marking the first due guests leaves exactly the others due |
| GuestExport.DueIff | apps/hotel/agent/HotelSync.cs:89-92 | due are exactly the guests the hotel exports and has not marked |
| GuestExport.GuestJob.SyncGuests | apps/hotel/agent/HotelSync.cs:75-123 | the loop ends; the pages are the due guests in order, all full but the last, a prefix of them when a push fails; the server holds what upserting them makes of it, pending guests skipped; and it goes by the steps of the crash machine |
| ReservationSync.DedupOncePerKey | apps/hotel/agent/HotelSync.cs:192-193 | no key is pushed twice |
| ReservationSync.DedupKeepsFirst | apps/hotel/agent/HotelSync.cs:192-193 | what is kept of a key is the row scanned first |
| ReservationSync.ReservationJob.Flush | apps/hotel/agent/HotelSync.cs:168-178 | pushes what is waiting, if anything, and moves nothing on failure |
| ReservationSync.ReservationJob.Collect | apps/hotel/agent/HotelSync.cs:180-215 | pushed batches stay full and, with what is waiting, are the scan so far with repeats dropped |
| ReservationSync.ReservationJob.SyncReservations | apps/hotel/agent/HotelSync.cs:161-222 | the batches laid end to end are the scan of both windows with repeats dropped, all full but the last and none empty; after a failed push they are a beginning of it |

## Left out

- HTTP routing, rate limits, schemas, SQL text, Docker, mail, push and the store pages: only the state they read and write is modelled, failures as outcomes that may happen at any time.
- Regular expressions are modelled by what the patterns in question match; the engine itself, and matching bypass paths, is a parameter.
- The pbkdf2 digest in a client block is an opaque text without line breaks.
- `getAppAccessOptions`, the service registry and the word lists are arbitrary inputs; relevance of a name to a query is a given flag.
- Reading and writing YAML and JSON is taken as exact, and of the configuration file only the managed blocks are read.
- Groups of a user are a set; the sorted order in which the users file lists them is not stated.
- Lower-casing is modelled for the Latin letters only.
- BackupSchedule.NextAttemptInTime: fixed UTC offset and exactly hourly checks; daylight saving time is not modelled.
- BackupSchedule.CrashLoopBound: each record counts as one step there, as for FailuresSinceLastSuccess and SuccessNeverAfterRun; the row-by-row theorems named after them say what deaths between rows and interleaved records change.
- `pruneOldBackups`, `appendHistory` and the dump of app data: one sort and a slice, one bounded append, and file copies, which would add only easy members.
- Two overlapping monitor passes, and a restart that throws after it took effect.
- BackupSchedule.SpacingIsSureIff: a scheduled check is one step up to the first row of its claim; only a success waits between its stamp and its first row.
- BackupSchedule.FailuresSinceLastSuccessIff: one record at a time; of records that interleave only CountNeverAboveAttempts is stated.
- ConfigSyncs: what Authelia answers about a text is arbitrary, and a restart counts with the write it follows.
- A lock check and the write it admits are one step.
- Ingress: two requests at a time on one tunnel, wildcard hostnames and rules restricted to a path.
- The ports a save is checked against are one given answer; `.env` keys are those the routes accept.
- GuestExport: guests edited in the hotel's own system while a run is under way; of the check-in write-back only its acknowledgement is a step. The check-out write-back.
- Ranking: parsing of sizes, prices and names from store pages, and the retry that follows a doubted pick.
