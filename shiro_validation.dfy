/** A model of Zeppelin's ShiroValidationService.init: the start-up guard that
    (1) waits, within a bounded number of counted failures, for Shiro's security
    manager to become available, and (2) refuses a configuration in which an
    IniRealm with a [users] section is configured next to other realms.

    The Shiro library is replaced by inputs: the results of successive polls of
    the security manager are a finite sequence of `Poll` values, and the
    security manager fetched for realm inspection is a `ManagerLookup`.
 */
module ShiroValidationService {

  /** Pause after every counted failure (`waitTime`). */
  const WaitTime: nat := 500

  /** Counted failures tolerated before the wait phase gives up. */
  const MaxTries: nat := 10

  // ---------------------------------------------------------------------------
  // Readiness wait
  // ---------------------------------------------------------------------------

  /** What one iteration of the polling loop observes. */
  datatype Poll =
    | CtxReady   // the thread-context security manager is non-null: the loop guard fails
    | Ready      // the polled manager has a non-null session manager: `break`
    | NotReady   // the polled manager, or its session manager, is null: no exception
    | Throws     // fetching or casting the polled manager threw

  predicate EndsWait(p: Poll) {
    p == CtxReady || p == Ready
  }

  /** No poll of `s` ends the wait. */
  predicate NoneReady(s: seq<Poll>) {
    forall j :: 0 <= j < |s| ==> !EndsWait(s[j])
  }

  /** Number of polls of `s` that threw. */
  function CountThrows(s: seq<Poll>): (n: nat)
    ensures n <= |s|
  {
    if s == [] then 0
    else CountThrows(s[..|s| - 1]) + (if s[|s| - 1] == Throws then 1 else 0)
  }

  /** How the wait phase ended. `Pending` means the observed polls ran out while
      the loop was still waiting. */
  datatype WaitEnd = Proceed | GaveUp | Pending

  /** The end of the wait phase, the number of polls consumed, the retry counter
      `nosOfTry` and the total time spent waiting. */
  datatype WaitResult = WaitResult(end: WaitEnd, consumed: nat, tries: nat, waited: nat)

  /** The wait phase as a state machine: in state (`tries`, `waited`) with
      `polls[i..]` still to be observed. */
  function WaitFrom(polls: seq<Poll>, i: nat, tries: nat, waited: nat): WaitResult
    requires i <= |polls|
    decreases |polls| - i
  {
    if i == |polls| then WaitResult(Pending, i, tries, waited)
    else
      match polls[i]
      case CtxReady => WaitResult(Proceed, i + 1, tries, waited)
      case Ready => WaitResult(Proceed, i + 1, tries, waited)
      case NotReady => WaitFrom(polls, i + 1, tries, waited)
      case Throws =>
        if tries + 1 > MaxTries then WaitResult(GaveUp, i + 1, tries + 1, waited)
        else WaitFrom(polls, i + 1, tries + 1, waited + WaitTime)
  }

  /** The wait phase, from a counter of 0. */
  function Wait(polls: seq<Poll>): WaitResult {
    WaitFrom(polls, 0, 0, 0)
  }

  /** The polling loop of `init`. */
  method AwaitSecurityManager(polls: seq<Poll>) returns (r: WaitResult)
    ensures r == Wait(polls)
  {
    var nosOfTry: nat := 0;
    var waited: nat := 0;
    var end := Pending;
    var i := 0;
    while i < |polls|
      invariant i <= |polls|
      invariant Wait(polls) == WaitFrom(polls, i, nosOfTry, waited)
    {
      var p := polls[i];
      i := i + 1;
      if p == CtxReady || p == Ready {
        end := Proceed;
        break;
      }
      if p == Throws {
        nosOfTry := nosOfTry + 1;
        if nosOfTry > MaxTries {
          end := GaveUp;
          break;
        }
        waited := waited + WaitTime;
      }
    }
    r := WaitResult(end, i, nosOfTry, waited);
  }

  lemma CountThrowsStep(s: seq<Poll>, k: nat)
    requires k < |s|
    ensures CountThrows(s[..k + 1]) == CountThrows(s[..k]) + (if s[k] == Throws then 1 else 0)
  {
    assert s[..k + 1][..k] == s[..k];
  }

  lemma {:induction false} CountThrowsMonotone(s: seq<Poll>, a: nat, b: nat)
    requires a <= b <= |s|
    ensures CountThrows(s[..a]) <= CountThrows(s[..b])
    decreases b - a
  {
    if a < b {
      CountThrowsStep(s, b - 1);
      CountThrowsMonotone(s, a, b - 1);
    }
  }

  lemma NoneReadyStep(s: seq<Poll>, k: nat)
    requires k < |s| && NoneReady(s[..k]) && !EndsWait(s[k])
    ensures NoneReady(s[..k + 1])
  {
    assert s[..k + 1] == s[..k] + [s[k]];
  }

  /** `r` is how the wait phase ends on `polls`, having started at poll `from`:
      the counter equals the polls that threw; the wait stops at the first
      ready poll or at the eleventh throwing poll, or runs out of polls; and
      500 is waited per counted failure except the last one of a give-up. */
  predicate WaitEndsProperly(polls: seq<Poll>, from: nat, r: WaitResult) {
    from <= r.consumed <= |polls| &&
    r.tries == CountThrows(polls[..r.consumed]) &&
    (r.end == Proceed ==>
      from < r.consumed && EndsWait(polls[r.consumed - 1]) && NoneReady(polls[..r.consumed - 1]) &&
      r.tries <= MaxTries && r.waited == WaitTime * r.tries) &&
    (r.end == GaveUp ==>
      from < r.consumed && polls[r.consumed - 1] == Throws && NoneReady(polls[..r.consumed]) &&
      r.tries == MaxTries + 1 && r.waited == WaitTime * MaxTries) &&
    (r.end == Pending ==>
      r.consumed == |polls| && NoneReady(polls) && r.tries <= MaxTries && r.waited == WaitTime * r.tries)
  }

  /** Starting earlier does not change how the wait ends. */
  lemma EndsProperlyFromEarlier(polls: seq<Poll>, a: nat, b: nat, r: WaitResult)
    requires a <= b && WaitEndsProperly(polls, b, r)
    ensures WaitEndsProperly(polls, a, r)
  {
  }

  /** The wait ends at a ready poll `i`. */
  lemma ReadyPollEndsProperly(polls: seq<Poll>, i: nat, tries: nat, waited: nat)
    requires i < |polls| && EndsWait(polls[i])
    requires tries == CountThrows(polls[..i]) && tries <= MaxTries
    requires waited == WaitTime * tries
    requires NoneReady(polls[..i])
    ensures WaitEndsProperly(polls, i, WaitResult(Proceed, i + 1, tries, waited))
  {
    CountThrowsStep(polls, i);
    assert polls[..i + 1 - 1] == polls[..i];
  }

  /** The wait gives up at a throwing poll `i` that makes the counter exceed 10. */
  lemma LastThrowEndsProperly(polls: seq<Poll>, i: nat, tries: nat, waited: nat)
    requires i < |polls| && polls[i] == Throws && tries == MaxTries
    requires tries == CountThrows(polls[..i])
    requires waited == WaitTime * tries
    requires NoneReady(polls[..i])
    ensures WaitEndsProperly(polls, i, WaitResult(GaveUp, i + 1, tries + 1, waited))
  {
    CountThrowsStep(polls, i);
    NoneReadyStep(polls, i);
  }

  /** The wait phase from any reachable state ends properly. */
  lemma {:induction false} WaitFromCharacterised(polls: seq<Poll>, i: nat, tries: nat, waited: nat)
    requires i <= |polls|
    requires tries == CountThrows(polls[..i]) && tries <= MaxTries
    requires waited == WaitTime * tries
    requires NoneReady(polls[..i])
    ensures WaitEndsProperly(polls, i, WaitFrom(polls, i, tries, waited))
    decreases |polls| - i
  {
    if i == |polls| {
      assert polls[..i] == polls;
    } else if EndsWait(polls[i]) {
      ReadyPollEndsProperly(polls, i, tries, waited);
    } else if polls[i] == Throws && tries + 1 > MaxTries {
      LastThrowEndsProperly(polls, i, tries, waited);
    } else {
      CountThrowsStep(polls, i);
      NoneReadyStep(polls, i);
      var step := if polls[i] == Throws then 1 else 0;
      var tries', waited' := tries + step, waited + WaitTime * step;
      assert WaitFrom(polls, i, tries, waited) == WaitFrom(polls, i + 1, tries', waited');
      WaitFromCharacterised(polls, i + 1, tries', waited');
      EndsProperlyFromEarlier(polls, i, i + 1, WaitFrom(polls, i + 1, tries', waited'));
    }
  }

  /** The whole wait phase, characterised without reference to its steps. */
  lemma WaitCharacterised(polls: seq<Poll>)
    ensures WaitEndsProperly(polls, 0, Wait(polls))
  {
    assert polls[..0] == [];
    WaitFromCharacterised(polls, 0, 0, 0);
  }

  /** The counter never exceeds 11, the wait phase fails exactly when it
      exceeds 10, and at most ten pauses of 500 happen. */
  lemma WaitBounds(polls: seq<Poll>)
    ensures Wait(polls).tries <= MaxTries + 1
    ensures Wait(polls).end == GaveUp <==> Wait(polls).tries > MaxTries
    ensures Wait(polls).waited <= WaitTime * MaxTries
    ensures Wait(polls).waited % WaitTime == 0
  {
    WaitCharacterised(polls);
  }

  /** Poll `k` ends the wait successfully: it is the first ready poll and at
      most ten polls before it threw. */
  ghost predicate ReadyAt(polls: seq<Poll>, k: nat) {
    k < |polls| && EndsWait(polls[k]) && NoneReady(polls[..k]) && CountThrows(polls[..k]) <= MaxTries
  }

  /** Poll `k` is the eleventh poll that threw, and no poll before it was ready. */
  ghost predicate GivesUpAt(polls: seq<Poll>, k: nat) {
    k < |polls| && polls[k] == Throws && NoneReady(polls[..k]) && CountThrows(polls[..k + 1]) == MaxTries + 1
  }

  /** The wait phase proceeds exactly when some poll ends it successfully, and
      then it has consumed the polls up to and including that one. */
  lemma WaitProceedsIff(polls: seq<Poll>)
    ensures Wait(polls).end == Proceed <==> exists k: nat :: ReadyAt(polls, k)
    ensures forall k: nat :: ReadyAt(polls, k) ==> Wait(polls).end == Proceed && Wait(polls).consumed == k + 1
  {
    var r := Wait(polls);
    WaitCharacterised(polls);
    if r.end == Proceed {
      assert polls[..r.consumed - 1] == polls[..r.consumed][..r.consumed - 1];
      CountThrowsMonotone(polls, r.consumed - 1, r.consumed);
      assert ReadyAt(polls, r.consumed - 1);
    }
    forall k: nat | ReadyAt(polls, k)
      ensures r.end == Proceed && r.consumed == k + 1
    {
      if r.end == GaveUp && r.consumed <= k {
        CountThrowsMonotone(polls, r.consumed, k);
      }
    }
  }

  /** The wait phase gives up exactly when the eleventh throwing poll comes
      before any ready poll, and then no poll after it is observed. */
  lemma WaitGivesUpIff(polls: seq<Poll>)
    ensures Wait(polls).end == GaveUp <==> exists k: nat :: GivesUpAt(polls, k)
    ensures forall k: nat :: GivesUpAt(polls, k) ==> Wait(polls).end == GaveUp && Wait(polls).consumed == k + 1
  {
    var r := Wait(polls);
    WaitCharacterised(polls);
    if r.end == GaveUp {
      assert polls[..r.consumed - 1] == polls[..r.consumed][..r.consumed - 1];
      assert polls[..r.consumed - 1 + 1] == polls[..r.consumed];
      assert GivesUpAt(polls, r.consumed - 1);
    }
    forall k: nat | GivesUpAt(polls, k)
      ensures r.end == GaveUp && r.consumed == k + 1
    {
      CountThrowsStep(polls, k);
      if r.end == Proceed && k < r.consumed {
        CountThrowsMonotone(polls, k + 1, r.consumed);
      } else if r.end == GaveUp {
        if r.consumed < k + 1 {
          CountThrowsStep(polls, r.consumed - 1);
          assert polls[..r.consumed - 1] == polls[..r.consumed][..r.consumed - 1];
          assert polls[..k][r.consumed - 1] == polls[r.consumed - 1];
          CountThrowsMonotone(polls, r.consumed, k);
        } else if r.consumed > k + 1 {
          CountThrowsStep(polls, r.consumed - 1);
          CountThrowsMonotone(polls, k + 1, r.consumed - 1);
        }
      } else {
        CountThrowsMonotone(polls, k + 1, |polls|);
      }
    }
  }

  /** `k` consecutive polls that threw. */
  function ThrowingPolls(k: nat): (s: seq<Poll>)
    ensures |s| == k && forall j :: 0 <= j < k ==> s[j] == Throws
  {
    seq(k, _ => Throws)
  }

  lemma {:induction false} CountThrowingPolls(k: nat)
    ensures CountThrows(ThrowingPolls(k)) == k
  {
    if k > 0 {
      assert ThrowingPolls(k)[..k - 1] == ThrowingPolls(k - 1);
      CountThrowingPolls(k - 1);
    }
  }

  /** `k` <= 10 failing polls followed by a ready one: the wait proceeds after
      `k` pauses of 500. */
  lemma FailuresThenReady(k: nat, p: Poll, rest: seq<Poll>)
    requires k <= MaxTries && EndsWait(p)
    ensures Wait(ThrowingPolls(k) + [p] + rest) == WaitResult(Proceed, k + 1, k, WaitTime * k)
  {
    var polls := ThrowingPolls(k) + [p] + rest;
    assert polls[..k] == ThrowingPolls(k);
    CountThrowingPolls(k);
    assert ReadyAt(polls, k);
    WaitProceedsIff(polls);
    WaitCharacterised(polls);
    CountThrowsStep(polls, k);
  }

  /** Eleven failing polls: the wait gives up reporting 11 tries after ten
      pauses, and observes nothing after them. */
  lemma ElevenFailuresGiveUp(rest: seq<Poll>)
    ensures Wait(ThrowingPolls(MaxTries + 1) + rest) ==
            WaitResult(GaveUp, MaxTries + 1, MaxTries + 1, WaitTime * MaxTries)
  {
    var polls := ThrowingPolls(MaxTries + 1) + rest;
    assert polls[..MaxTries + 1] == ThrowingPolls(MaxTries + 1);
    assert polls[..MaxTries] == ThrowingPolls(MaxTries);
    CountThrowingPolls(MaxTries + 1);
    CountThrowingPolls(MaxTries);
    assert GivesUpAt(polls, MaxTries);
    WaitGivesUpIff(polls);
    WaitCharacterised(polls);
  }

  // ---------------------------------------------------------------------------
  // Realm inspection
  // ---------------------------------------------------------------------------

  /** A configured realm, as far as the check looks at it: an IniRealm, and
      whether its ini has a `users` section, or any other kind of realm. */
  datatype Realm = IniRealm(usersSection: bool) | OtherRealm

  predicate DefinesUsers(realm: Realm) {
    realm.IniRealm? && realm.usersSection
  }

  predicate SomeIniRealmDefinesUsers(realms: seq<Realm>) {
    exists i :: 0 <= i < |realms| && DefinesUsers(realms[i])
  }

  /** The configuration is refused: several realms, one of which is an IniRealm
      with a `users` section. */
  predicate RealmsConflict(realms: seq<Realm>) {
    |realms| > 1 && SomeIniRealmDefinesUsers(realms)
  }

  /** The `for` loop that sets `isIniRealmEnabled` and stops at the first match. */
  method ScanForIniUsers(realms: seq<Realm>) returns (iniRealmEnabled: bool)
    ensures iniRealmEnabled <==> SomeIniRealmDefinesUsers(realms)
  {
    iniRealmEnabled := false;
    var i := 0;
    while i < |realms|
      invariant i <= |realms|
      invariant !iniRealmEnabled
      invariant forall j :: 0 <= j < i ==> !DefinesUsers(realms[j])
    {
      if DefinesUsers(realms[i]) {
        iniRealmEnabled := true;
        break;
      }
      i := i + 1;
    }
  }

  /** The realm check: the scan only runs when more than one realm is configured. */
  method CheckRealms(realms: seq<Realm>) returns (conflict: bool)
    ensures |realms| <= 1 ==> !conflict
    ensures conflict <==> |realms| > 1 && exists i :: 0 <= i < |realms| && DefinesUsers(realms[i])
  {
    conflict := false;
    if |realms| > 1 {
      conflict := ScanForIniUsers(realms);
    }
  }

  /** The realms' order, and which realm the scan stops at, do not matter. */
  lemma RealmsConflictPermutation(a: seq<Realm>, b: seq<Realm>)
    requires multiset(a) == multiset(b)
    ensures RealmsConflict(a) <==> RealmsConflict(b)
  {
    assert |a| == |multiset(a)| == |multiset(b)| == |b|;
    if SomeIniRealmDefinesUsers(a) {
      var i :| 0 <= i < |a| && DefinesUsers(a[i]);
      assert a[i] in multiset(b);
      var j :| 0 <= j < |b| && b[j] == a[i];
    }
    if SomeIniRealmDefinesUsers(b) {
      var j :| 0 <= j < |b| && DefinesUsers(b[j]);
      assert b[j] in multiset(a);
      var i :| 0 <= i < |a| && a[i] == b[j];
    }
  }

  // ---------------------------------------------------------------------------
  // init
  // ---------------------------------------------------------------------------

  /** What fetching the security manager for realm inspection yields. */
  datatype ManagerLookup =
    | Unavailable                    // UnavailableSecurityManagerException, rethrown
    | NoManager                      // a null manager: `getRealms` throws NullPointerException
    | Manager(realms: seq<Realm>)

  datatype InitError =
    | TriesExhausted(tries: nat)     // "failed after %s tries"
    | RealmsNotExclusive             // "should be exclusive"
    | SecurityManagerUnavailable     // UnavailableSecurityManagerException
    | NullSecurityManager            // NullPointerException

  /** `StillPolling`: the observed polls ran out before the loop ended. */
  datatype Status = Initialized | Failed(error: InitError) | StillPolling

  /** The outcome of `init`, the polls it consumed, its retry counter, the time
      it waited and whether it fetched the manager to inspect the realms. */
  datatype InitReport = InitReport(status: Status, consumed: nat, tries: nat, waited: nat, inspected: bool)

  function InspectRealms(lookup: ManagerLookup): Status {
    match lookup
    case Unavailable => Failed(SecurityManagerUnavailable)
    case NoManager => Failed(NullSecurityManager)
    case Manager(realms) => if RealmsConflict(realms) then Failed(RealmsNotExclusive) else Initialized
  }

  /** `init` as a function of the configured shiro path, the polls and the
      manager found for inspection. */
  function InitSpec(shiroPath: string, polls: seq<Poll>, lookup: ManagerLookup): InitReport {
    if |shiroPath| == 0 then InitReport(Initialized, 0, 0, 0, false)
    else
      var w := Wait(polls);
      match w.end
      case Pending => InitReport(StillPolling, w.consumed, w.tries, w.waited, false)
      case GaveUp => InitReport(Failed(TriesExhausted(w.tries)), w.consumed, w.tries, w.waited, false)
      case Proceed => InitReport(InspectRealms(lookup), w.consumed, w.tries, w.waited, true)
  }

  method Init(shiroPath: string, polls: seq<Poll>, lookup: ManagerLookup) returns (r: InitReport)
    ensures r == InitSpec(shiroPath, polls, lookup)
  {
    if |shiroPath| > 0 {
      var w := AwaitSecurityManager(polls);
      if w.end == Pending {
        return InitReport(StillPolling, w.consumed, w.tries, w.waited, false);
      }
      if w.end == GaveUp {
        return InitReport(Failed(TriesExhausted(w.tries)), w.consumed, w.tries, w.waited, false);
      }
      var status := Initialized;
      match lookup {
        case Unavailable =>
          status := Failed(SecurityManagerUnavailable);
        case NoManager =>
          status := Failed(NullSecurityManager);
        case Manager(realms) =>
          var conflict := CheckRealms(realms);
          if conflict {
            status := Failed(RealmsNotExclusive);
          }
      }
      return InitReport(status, w.consumed, w.tries, w.waited, true);
    }
    r := InitReport(Initialized, 0, 0, 0, false);
  }

  /** An empty shiro path: no poll, no pause, no inspection, no error. */
  lemma EmptyPathSkipsValidation(shiroPath: string, polls: seq<Poll>, lookup: ManagerLookup)
    requires |shiroPath| == 0
    ensures InitSpec(shiroPath, polls, lookup) == InitReport(Initialized, 0, 0, 0, false)
  {
  }

  predicate AllDigits(s: string) {
    forall i :: 0 <= i < |s| ==> '0' <= s[i] <= '9'
  }

  /** The number a string of decimal digits denotes. */
  function DigitsValue(s: string): nat
    requires AllDigits(s)
  {
    if s == [] then 0
    else DigitsValue(s[..|s| - 1]) * 10 + (s[|s| - 1] as int - '0' as int)
  }

  /** Decimal notation of `n`, as `String.format("%s", n)` prints an Integer. */
  function Decimal(n: nat): (s: string)
    ensures 0 < |s| && AllDigits(s)
    ensures DigitsValue(s) == n
    ensures s[0] == '0' ==> n == 0
  {
    if n < 10 then [DigitChar(n)]
    else
      var s := Decimal(n / 10) + [DigitChar(n % 10)];
      assert s[..|s| - 1] == Decimal(n / 10);
      s
  }

  function DigitChar(d: nat): (c: char)
    requires d < 10
    ensures '0' <= c <= '9' && c as int - '0' as int == d
  {
    "0123456789"[d]
  }

  function TimeoutMessage(tries: nat): string {
    "Could not initialize shiro.ini, failed after " + Decimal(tries) + " tries"
  }

  const NotExclusiveMessage: string :=
    "IniRealm/password based auth mechanisms should be exclusive. Consider removing [users] block from shiro.ini"

  /** The service writes its own message only for the two exceptions it
      raises; the others come from Shiro and the JVM. */
  predicate RaisedByService(e: InitError) {
    e.TriesExhausted? || e.RealmsNotExclusive?
  }

  function Message(e: InitError): string
    requires RaisedByService(e)
  {
    match e
    case TriesExhausted(tries) => TimeoutMessage(tries)
    case RealmsNotExclusive => NotExclusiveMessage
  }

  /** The timeout message identifies the try count it reports. */
  lemma TimeoutMessageDeterminesTries(a: nat, b: nat)
    requires TimeoutMessage(a) == TimeoutMessage(b)
    ensures a == b
  {
    var prefix := "Could not initialize shiro.ini, failed after ";
    assert TimeoutMessage(a)[|prefix|..|TimeoutMessage(a)| - 6] == Decimal(a);
    assert TimeoutMessage(b)[|prefix|..|TimeoutMessage(b)| - 6] == Decimal(b);
  }

  /** A timeout always reports 11 tries, after ten pauses, without inspecting
      the realms. */
  lemma TimeoutReportsElevenTries(shiroPath: string, polls: seq<Poll>, lookup: ManagerLookup)
    requires InitSpec(shiroPath, polls, lookup).status.Failed?
    requires InitSpec(shiroPath, polls, lookup).status.error.TriesExhausted?
    ensures var r := InitSpec(shiroPath, polls, lookup);
      r.status.error.tries == MaxTries + 1 && r.tries == MaxTries + 1 &&
      r.waited == WaitTime * MaxTries && !r.inspected &&
      Message(r.status.error) == "Could not initialize shiro.ini, failed after 11 tries"
  {
    WaitCharacterised(polls);
    assert Decimal(MaxTries + 1) == Decimal(1) + [DigitChar(1)] == "11";
  }

  /** UnavailableSecurityManagerException surfaces only from the lookup made
      for realm inspection; one thrown by a poll is counted as a retry. */
  lemma UnavailableOnlyFromInspection(shiroPath: string, polls: seq<Poll>, lookup: ManagerLookup)
    ensures InitSpec(shiroPath, polls, lookup).status == Failed(SecurityManagerUnavailable) <==>
            |shiroPath| > 0 && (exists k: nat :: ReadyAt(polls, k)) && lookup == Unavailable
  {
    WaitProceedsIff(polls);
  }

  /** `init` refuses the realms exactly when the wait succeeds, the manager is
      found, and an IniRealm with a `users` section sits among several realms. */
  lemma InitRejectsConflictIff(shiroPath: string, polls: seq<Poll>, lookup: ManagerLookup)
    ensures InitSpec(shiroPath, polls, lookup).status == Failed(RealmsNotExclusive) <==>
            |shiroPath| > 0 && (exists k: nat :: ReadyAt(polls, k)) && lookup.Manager? &&
            |lookup.realms| > 1 &&
            exists i :: 0 <= i < |lookup.realms| && DefinesUsers(lookup.realms[i])
  {
    WaitProceedsIff(polls);
  }

  /** `init` completes without error exactly when the path is empty, or the
      wait succeeds and a manager without conflicting realms is found. */
  lemma InitSucceedsIff(shiroPath: string, polls: seq<Poll>, lookup: ManagerLookup)
    ensures InitSpec(shiroPath, polls, lookup).status == Initialized <==>
            |shiroPath| == 0 ||
            ((exists k: nat :: ReadyAt(polls, k)) && lookup.Manager? && !RealmsConflict(lookup.realms))
  {
    WaitProceedsIff(polls);
  }

  /** With at most one realm the realm check never fails, whatever the realm. */
  lemma SingleRealmNeverConflicts(shiroPath: string, polls: seq<Poll>, realms: seq<Realm>)
    requires |realms| <= 1
    ensures InitSpec(shiroPath, polls, Manager(realms)).status != Failed(RealmsNotExclusive)
    ensures InitSpec(shiroPath, polls, Manager(realms)).status == Initialized <==>
            |shiroPath| == 0 || exists k: nat :: ReadyAt(polls, k)
  {
    WaitProceedsIff(polls);
  }
}
