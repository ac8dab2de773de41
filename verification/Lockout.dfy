/** Account lockout: the password state machine of one account, over whole runs of login attempts. */
module Lockout {
  import opened Common

  /** The columns the lockout reads and writes. Instants are on one clock. */
  datatype Account = Account(isActive: bool, failedAttempts: nat, lockedUntil: Option<int>)

  datatype Outcome = Refused | WrongPassword | Success

  predicate IsLocked(a: Account, now: int) {
    a.lockedUntil.Some? && now < a.lockedUntil.value
  }

  datatype Policy = Policy(threshold: int, lockout: nat)

  /** One login attempt. A refused attempt never looks at the password. */
  function Attempt(p: Policy, a: Account, matches: bool, now: int): (Account, Outcome) {
    if !a.isActive || IsLocked(a, now) then (a, Refused)
    else
      var served := if a.lockedUntil.Some? then a.(failedAttempts := 0, lockedUntil := None) else a;
      if matches then (served.(failedAttempts := 0, lockedUntil := None), Success)
      else
        var failed := served.failedAttempts + 1;
        (served.(failedAttempts := failed,
                lockedUntil := if failed >= p.threshold then Some(now + p.lockout) else None), WrongPassword)
  }

  class User {
    var isActiveFlag: bool
    var failedAttempts: nat
    var lockedUntil: Option<int>
    var lastLoginAt: Option<int>

    constructor (active: bool)
      ensures View() == Account(active, 0, None) && lastLoginAt == None
    {
      isActiveFlag, failedAttempts, lockedUntil, lastLoginAt := active, 0, None, None;
    }

    function View(): Account
      reads this
    {
      Account(isActiveFlag, failedAttempts, lockedUntil)
    }
  }

  /** Authenticates against the account found for the email, if any. `passwordMatches` is what the
      password check would answer; `checked` says whether it was asked. */
  method Authenticate(p: Policy, user: User?, passwordMatches: bool, now: int) returns (ok: bool, checked: bool)
    modifies user
    ensures user == null ==> !ok && !checked
    ensures user != null ==>
              var (account, outcome) := Attempt(p, old(user.View()), passwordMatches, now);
              && user.View() == account
              && ok == (outcome == Success)
              && checked == (outcome != Refused)
              && user.lastLoginAt == if ok then Some(now) else old(user.lastLoginAt)
  {
    ok, checked := false, false;
    if user == null || !user.isActiveFlag {
      return;
    }
    if user.lockedUntil.Some? && now < user.lockedUntil.value {
      return;
    }
    if user.lockedUntil != None {
      user.failedAttempts := 0;
      user.lockedUntil := None;
    }
    checked := true;
    if !passwordMatches {
      user.failedAttempts := user.failedAttempts + 1;
      if user.failedAttempts >= p.threshold {
        user.lockedUntil := Some(now + p.lockout);
      }
      return;
    }
    user.failedAttempts := 0;
    user.lockedUntil := None;
    user.lastLoginAt := Some(now);
    ok := true;
  }

  // ---------- Whole runs ----------

  datatype Event = Try(matches: bool, at: int) | SetActive(active: bool, at: int)

  ghost predicate Chronological(es: seq<Event>) {
    forall i, j :: 0 <= i < j < |es| ==> es[i].at <= es[j].at
  }

  function AccountAfter(p: Policy, start: Account, es: seq<Event>, n: nat): Account
    requires n <= |es|
  {
    if n == 0 then start
    else
      var a := AccountAfter(p, start, es, n - 1);
      match es[n - 1]
      case Try(matches, at) => Attempt(p, a, matches, at).0
      case SetActive(active, _) => a.(isActive := active)
  }

  function OutcomeAt(p: Policy, start: Account, es: seq<Event>, i: nat): Outcome
    requires i < |es|
  {
    match es[i]
    case Try(matches, at) => Attempt(p, AccountAfter(p, start, es, i), matches, at).1
    case SetActive(_, _) => Refused
  }

  /** Wrong-password checks among the first `n` events with an instant in `lo..hi`. */
  function WrongChecks(p: Policy, start: Account, es: seq<Event>, n: nat, lo: int, hi: int): nat
    requires n <= |es|
  {
    if n == 0 then 0
    else WrongChecks(p, start, es, n - 1, lo, hi)
         + if lo <= es[n - 1].at < hi && OutcomeAt(p, start, es, n - 1) == WrongPassword then 1 else 0
  }

  ghost predicate NoLogin(p: Policy, start: Account, es: seq<Event>, lo: int, hi: int) {
    forall i :: 0 <= i < |es| && lo <= es[i].at < hi ==> OutcomeAt(p, start, es, i) != Success
  }

  /** Wrong guesses the policy grants per lockout length. */
  function Budget(p: Policy): nat {
    Max(1, p.threshold)
  }

  /** How much of the budget the interval starting at `lo` has used, as the account columns show it. */
  ghost predicate Accounted(p: Policy, a: Account, wrong: nat, lo: int) {
    || wrong == 0
    || (a.lockedUntil.Some? && lo + p.lockout <= a.lockedUntil.value && wrong <= Budget(p))
    || (a.lockedUntil == None && wrong <= a.failedAttempts && wrong < Budget(p))
  }

  lemma {:induction false} WrongChecksAccounted(p: Policy, start: Account, es: seq<Event>, n: nat, lo: int)
    requires n <= |es| && Chronological(es) && NoLogin(p, start, es, lo, lo + p.lockout)
    requires n > 0 ==> es[n - 1].at < lo + p.lockout
    ensures Accounted(p, AccountAfter(p, start, es, n), WrongChecks(p, start, es, n, lo, lo + p.lockout), lo)
  {
    if n == 0 {
    } else {
      if n > 1 { assert es[n - 2].at <= es[n - 1].at; }
      WrongChecksAccounted(p, start, es, n - 1, lo);
      if es[n - 1].at < lo {
        NoneBefore(p, start, es, n, lo, lo + p.lockout);
      }
    }
  }

  lemma {:induction false} NoneBefore(p: Policy, start: Account, es: seq<Event>, n: nat, lo: int, hi: int)
    requires n <= |es| && Chronological(es) && (n > 0 ==> es[n - 1].at < lo)
    ensures WrongChecks(p, start, es, n, lo, hi) == 0
  {
    if n == 0 {
    } else {
      if n > 1 { assert es[n - 2].at <= es[n - 1].at; }
      NoneBefore(p, start, es, n - 1, lo, hi);
    }
  }

  lemma {:induction false} OneLockoutLength(p: Policy, start: Account, es: seq<Event>, n: nat, lo: int)
    requires n <= |es| && Chronological(es) && NoLogin(p, start, es, lo, lo + p.lockout)
    ensures WrongChecks(p, start, es, n, lo, lo + p.lockout) <= Budget(p)
  {
    if n == 0 {
    } else {
      if es[n - 1].at < lo + p.lockout {
        WrongChecksAccounted(p, start, es, n, lo);
      } else {
        OneLockoutLength(p, start, es, n - 1, lo);
      }
    }
  }

  lemma {:induction false} WrongChecksAdd(p: Policy, start: Account, es: seq<Event>, n: nat, lo: int, mid: int, hi: int)
    requires n <= |es| && lo <= mid <= hi
    ensures WrongChecks(p, start, es, n, lo, hi)
         == WrongChecks(p, start, es, n, lo, mid) + WrongChecks(p, start, es, n, mid, hi)
  {
    if n == 0 {
    } else {
      WrongChecksAdd(p, start, es, n - 1, lo, mid, hi);
    }
  }

  lemma OneMore(k: nat, x: nat)
    requires k > 0
    ensures k * x == (k - 1) * x + x && (k - 1) * x >= 0
  {
  }

  /** Over every run, from any account state, a stretch of `k` lockout lengths without a successful
      login holds at most `k` budgets of wrong-password checks. */
  lemma {:induction false} GuessingIsBounded(p: Policy, start: Account, es: seq<Event>, lo: int, k: nat)
    requires Chronological(es) && NoLogin(p, start, es, lo, lo + k * p.lockout)
    ensures WrongChecks(p, start, es, |es|, lo, lo + k * p.lockout) <= k * Budget(p)
    decreases k
  {
    if k == 0 {
      NoneInEmpty(p, start, es, |es|, lo);
    } else {
      var mid := lo + p.lockout;
      OneMore(k, p.lockout);
      OneMore(k, Budget(p));
      OneLockoutLength(p, start, es, |es|, lo);
      GuessingIsBounded(p, start, es, mid, k - 1);
      WrongChecksAdd(p, start, es, |es|, lo, mid, lo + k * p.lockout);
    }
  }

  lemma {:induction false} NoneInEmpty(p: Policy, start: Account, es: seq<Event>, n: nat, t: int)
    requires n <= |es|
    ensures WrongChecks(p, start, es, n, t, t) == 0
  {
    if n == 0 {
    } else {
      NoneInEmpty(p, start, es, n - 1, t);
    }
  }

  /** An account without a lock timestamp has spent less than its budget, in every reachable state. */
  lemma {:induction false} UnlockedMeansBelowThreshold(p: Policy, es: seq<Event>, n: nat, active: bool)
    requires n <= |es| && p.threshold >= 1
    ensures var a := AccountAfter(p, Account(active, 0, None), es, n);
            if a.lockedUntil == None then a.failedAttempts < p.threshold else a.failedAttempts == p.threshold
  {
    if n == 0 {
    } else {
      UnlockedMeansBelowThreshold(p, es, n - 1, active);
    }
  }

  /** A check that locks the account shuts out every attempt, right or wrong, for the whole lockout. */
  lemma {:induction false} LockHolds(p: Policy, start: Account, es: seq<Event>, i: nat, j: nat)
    requires i < j < |es| && Chronological(es) && es[i].Try?
    requires OutcomeAt(p, start, es, i) == WrongPassword
    requires AccountAfter(p, start, es, i + 1).lockedUntil.Some? && es[j].at < es[i].at + p.lockout
    ensures OutcomeAt(p, start, es, j) == Refused
    ensures AccountAfter(p, start, es, j).lockedUntil == Some(es[i].at + p.lockout)
    ensures AccountAfter(p, start, es, j + 1).lockedUntil == Some(es[i].at + p.lockout)
    decreases j
  {
    if j == i + 1 {
    } else {
      assert es[j - 1].at <= es[j].at;
      LockHolds(p, start, es, i, j - 1);
    }
  }

  function Guesses(n: nat, at: int): (es: seq<Event>)
    ensures |es| == n && forall i :: 0 <= i < n ==> es[i] == Try(false, at)
  {
    if n == 0 then [] else Guesses(n - 1, at) + [Try(false, at)]
  }

  /** The budget is really available: that many wrong guesses in a row are all checked. */
  lemma {:induction false} BudgetIsTight(p: Policy, es: seq<Event>, n: nat, at: int)
    requires p.threshold >= 1 && p.lockout > 0 && es == Guesses(p.threshold, at) && n <= p.threshold
    ensures WrongChecks(p, Account(true, 0, None), es, n, at, at + p.lockout) == n
    ensures AccountAfter(p, Account(true, 0, None), es, n)
         == Account(true, n, if n == p.threshold then Some(at + p.lockout) else None)
  {
    if n == 0 {
    } else {
      BudgetIsTight(p, es, n - 1, at);
    }
  }
}
