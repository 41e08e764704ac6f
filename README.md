# Shiro configuration validation at Zeppelin server start-up

This project models `ShiroValidationService.init` of the Zeppelin server. This is the start-up guard that runs when a Shiro configuration path (`shiro.ini`) is set. It does two things:

1. **Readiness wait.** It polls for Shiro's security manager until one of two things happens. Either the thread-context manager is set, or a polled `DefaultWebSecurityManager` has a session manager. Only a poll that throws counts as a failure. After each counted failure the service waits 500. The eleventh counted failure aborts with "Could not initialize shiro.ini, failed after 11 tries".
2. **Realm exclusivity.** It fetches the security manager again and reads its realms. If more than one realm is configured, an `IniRealm` whose ini has a `users` section is an error: "IniRealm/password based auth mechanisms should be exclusive. …". An `UnavailableSecurityManagerException` from that fetch is rethrown.

An empty shiro path skips both parts.

Everything is in the module `ShiroValidationService` (`shiro_validation.dfy`). The Shiro library calls are replaced by inputs:

- The successive loop iterations are a finite sequence of `Poll` outcomes:
  - `CtxReady`: the loop guard sees a thread-context manager.
  - `Ready`: the polled manager has a session manager.
  - `NotReady`: a null manager or a null session manager, with no exception.
  - `Throws`: the poll raised any exception.
- The manager fetched for realm inspection is a `ManagerLookup`: `Unavailable`, `NoManager` or `Manager(realms)`.
- A realm is `IniRealm(usersSection)` or `OtherRealm`.

The polling loop (`AwaitSecurityManager`), the realm scan with its flag and `break` (`ScanForIniUsers`), and `init` itself (`Init`) are methods. Each is proved against a specification function: `Wait`, `RealmsConflict` and `InitSpec`. The lemmas characterise those functions independently of their step-by-step definitions. They relate the retry counter to the number of throwing polls, identify the poll that ends the wait, and state the error conditions of `init` as if-and-only-if statements.

The code behaves differently from what its names and messages might suggest in three ways, and the model follows the code:

- Only polls that throw are counted. A poll that sees a null manager or a null session manager is neither counted nor followed by a wait.
- An `UnavailableSecurityManagerException` raised inside the polling loop is caught by the loop's `catch (Exception e)` and counted as a retry. Only one raised by the lookup for realm inspection escapes.
- The conflict test is `getIni().get("users") != null`. This means "the ini has a `users` section", not "the section defines at least one user".

## Model

| member | source | states |
|---|---|---|
| `ShiroValidationService.AwaitSecurityManager` | zeppelin-server/src/main/java/org/apache/zeppelin/service/ShiroValidationService.java:48-67 | the polling loop with its `nosOfTry` counter and wait tally computes exactly the wait state machine `Wait(polls)` |
| `ShiroValidationService.WaitFromCharacterised` | zeppelin-server/src/main/java/org/apache/zeppelin/service/ShiroValidationService.java:50-64 | from any reachable state, the counter equals the throwing polls consumed; the wait stops at the first ready poll (counter ≤ 10) or at the eleventh throwing poll (counter 11); 500 is waited per counted failure that did not abort |
| `ShiroValidationService.WaitCharacterised` | zeppelin-server/src/main/java/org/apache/zeppelin/service/ShiroValidationService.java:50-66 | the same characterisation for the whole loop, starting from a counter of 0 |
| `ShiroValidationService.WaitBounds` | zeppelin-server/src/main/java/org/apache/zeppelin/service/ShiroValidationService.java:59-64 | the counter never exceeds 11; the wait gives up exactly when the counter exceeds 10; at most 10 waits of 500 happen |
| `ShiroValidationService.WaitProceedsIff` | zeppelin-server/src/main/java/org/apache/zeppelin/service/ShiroValidationService.java:51-57 | the wait proceeds iff some poll is a ready or context-ready one, no earlier poll was ready and at most 10 earlier polls threw; then exactly the polls up to it are consumed |
| `ShiroValidationService.WaitGivesUpIff` | zeppelin-server/src/main/java/org/apache/zeppelin/service/ShiroValidationService.java:58-62 | the wait gives up iff the eleventh throwing poll comes before any ready poll; then no later poll is observed |
| `ShiroValidationService.FailuresThenReady` | zeppelin-server/src/main/java/org/apache/zeppelin/service/ShiroValidationService.java:49-66 | k ≤ 10 throwing polls followed by a ready one: the wait proceeds after k+1 polls, with counter k and k waits of 500 |
| `ShiroValidationService.ElevenFailuresGiveUp` | zeppelin-server/src/main/java/org/apache/zeppelin/service/ShiroValidationService.java:58-62 | eleven throwing polls: the wait gives up after exactly 11 polls, with counter 11 and 10 waits of 500 |
| `ShiroValidationService.ScanForIniUsers` | zeppelin-server/src/main/java/org/apache/zeppelin/service/ShiroValidationService.java:72-78 | the flag-and-break loop sets `isIniRealmEnabled` iff some realm is an IniRealm with a `users` section |
| `ShiroValidationService.CheckRealms` | zeppelin-server/src/main/java/org/apache/zeppelin/service/ShiroValidationService.java:71-84 | the realm check fails iff more than one realm is configured and one of them is an IniRealm with a `users` section; with at most one realm it never fails |
| `ShiroValidationService.RealmsConflictPermutation` | zeppelin-server/src/main/java/org/apache/zeppelin/service/ShiroValidationService.java:71-83 | reordering the realms does not change whether the check fails |
| `ShiroValidationService.Init` | zeppelin-server/src/main/java/org/apache/zeppelin/service/ShiroValidationService.java:44-91 | `init` composes the skip on an empty path, the wait, the manager lookup and the realm check exactly as `InitSpec` describes |
| `ShiroValidationService.EmptyPathSkipsValidation` | zeppelin-server/src/main/java/org/apache/zeppelin/service/ShiroValidationService.java:46 | with an empty shiro path, `init` consumes no poll, waits nothing, does not inspect realms and succeeds |
| `ShiroValidationService.Decimal` | zeppelin-server/src/main/java/org/apache/zeppelin/service/ShiroValidationService.java:61-62 | the `%s` rendering of the counter is a non-empty string of decimal digits, without a leading zero, whose value is the counter |
| `ShiroValidationService.TimeoutMessageDeterminesTries` | zeppelin-server/src/main/java/org/apache/zeppelin/service/ShiroValidationService.java:61-62 | two timeout messages are equal only if they report the same number of tries |
| `ShiroValidationService.TimeoutReportsElevenTries` | zeppelin-server/src/main/java/org/apache/zeppelin/service/ShiroValidationService.java:59-62 | a timeout always carries 11 tries, follows 10 waits, skips realm inspection, and its `Message` reads "failed after 11 tries" |
| `ShiroValidationService.UnavailableOnlyFromInspection` | zeppelin-server/src/main/java/org/apache/zeppelin/service/ShiroValidationService.java:68-87 | `init` fails with `UnavailableSecurityManagerException` iff the path is non-empty, the wait proceeds and the inspection lookup is unavailable; polls that throw it are only counted |
| `ShiroValidationService.InitRejectsConflictIff` | zeppelin-server/src/main/java/org/apache/zeppelin/service/ShiroValidationService.java:68-84 | `init` fails with the "should be exclusive" error iff the path is non-empty, the wait proceeds, a manager is found, and among more than one realm some IniRealm has a `users` section |
| `ShiroValidationService.InitSucceedsIff` | zeppelin-server/src/main/java/org/apache/zeppelin/service/ShiroValidationService.java:44-91 | `init` returns normally iff the path is empty, or the wait proceeds and a manager without conflicting realms is found |
| `ShiroValidationService.SingleRealmNeverConflicts` | zeppelin-server/src/main/java/org/apache/zeppelin/service/ShiroValidationService.java:71 | with at most one realm, `init` never raises the exclusivity error and succeeds iff the path is empty or the wait proceeds |

## Left out

- The Shiro library calls (`ThreadContext.getSecurityManager`, `SecurityUtils.getSecurityManager`, `getSessionManager`, `getRealms`, `IniRealm.getIni`) are not modelled. Their results are inputs: a sequence of poll outcomes, a manager lookup and realm descriptors.
- `synchronized (this)` and `wait(waitTime)` are not modelled as monitor operations. Each wait is a counted step adding 500 to the wait tally. An `InterruptedException` from `wait` is not modelled.
- A `ClassCastException` from the casts inside the loop is folded into the `Throws` outcome. The same exception from the cast at line 69 is not modelled.
- A `getRealms` that returns null is not modelled.
- Termination of the loop is not modelled. When polls keep returning a null manager without throwing, the real loop can spin without bound. The model observes a finite sequence of polls and reports `StillPolling` (`Pending`) when they run out. No time bound is claimed.
- Logging (`LOGGER.info`, `LOGGER.error`) is not modelled.
- The Guice-injected constructor is not modelled separately; it only logs and calls `init`.
- How `ZeppelinConfiguration` loads the shiro path is not modelled. The path is a string input.
- The messages of `UnavailableSecurityManagerException` and of the `NullPointerException` raised on a null manager come from the JVM and Shiro. Only the error kinds are modelled.
