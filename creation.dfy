/** `create_accounts`: the walk over the desired accounts that creates every
    account the organization does not have yet, and the bounded poll of each
    creation request. */
module Creation {
  import opened Records

  /** The poll gives up after this many status queries (`maxtries`). */
  const MaxTries: nat := 5

  /** What the organization answers while one spec entry is processed: the
      in-flight creation requests of the re-scan made for that entry, the
      request id `create_account` returns, and the successive answers of
      `describe_create_account_status` (the remote always answers, so there are
      at least `MaxTries` of them). */
  datatype Remote = Remote(inFlight: seq<CreationRequest>, requestId: string, answers: seq<CreationState>)

  /** An account the walk decided to create, with the email it derived. */
  datatype NewAccount = NewAccount(name: string, email: string)

  /** The warnings and errors the walk logs about creations. */
  datatype Notice =
    | NotYetAvailable(name: string)
    | CreationFailed(name: string, reason: string)
    | StillPending(name: string)

  predicate WellFormed(spec: OrgSpec, remote: seq<Remote>) {
    |remote| == |spec.accounts| &&
    forall i :: 0 <= i < |remote| ==> |remote[i].answers| >= MaxTries
  }

  /** The email of a new account: the spec's `Email` when it is given and not
      empty, otherwise `Name@default_domain`. */
  function Email(a: AccountSpec, domain: string): (r: string)
    ensures r != ""
    ensures a.email.Some? && a.email.value != "" ==> r == a.email.value
    ensures !(a.email.Some? && a.email.value != "") ==>
              |r| == |a.name| + 1 + |domain| && r[..|a.name|] == a.name &&
              r[|a.name|] == '@' && r[|a.name| + 1..] == domain
  {
    if a.email.Some? && a.email.value != "" then a.email.value else a.name + "@" + domain
  }

  // ---------------------------------------------------------------------------
  // Polling one creation request

  /** The answers a poll of at most `budget` queries observes: it stops after
      the first answer that is not IN_PROGRESS. */
  function Observed(answers: seq<CreationState>, budget: nat): (r: seq<CreationState>)
    requires |answers| >= budget
    ensures |r| <= budget
    ensures budget > 0 ==> |r| > 0
  {
    if budget == 0 then []
    else if !answers[0].InProgress? then [answers[0]]
    else [answers[0]] + Observed(answers[1..], budget - 1)
  }

  /** A poll observes a prefix of the answers: every answer but the last is
      IN_PROGRESS, and a poll that stops before its budget stops on SUCCEEDED
      or FAILED. */
  lemma {:induction false} ObservedStops(answers: seq<CreationState>, budget: nat)
    requires |answers| >= budget
    ensures var r := Observed(answers, budget);
            r == answers[..|r|] &&
            (forall k :: 0 <= k < |r| - 1 ==> answers[k].InProgress?) &&
            (0 < |r| < budget ==> !answers[|r| - 1].InProgress?)
  {
    if budget > 0 && answers[0].InProgress? {
      ObservedStops(answers[1..], budget - 1);
      var r := Observed(answers[1..], budget - 1);
      assert forall k :: 1 <= k < |answers| ==> answers[k] == answers[1..][k - 1];
      assert [answers[0]] + answers[1..][..|r|] == answers[..|r| + 1];
    }
  }

  /** `n` status queries of one creation request. */
  function Describes(requestId: string, n: nat): (r: seq<Call>)
    ensures |r| == n
  {
    seq(n, _ => DescribeCreateAccountStatus(requestId))
  }

  /** The `while counter < maxtries` loop: query the status until it is
      SUCCEEDED or FAILED, at most `MaxTries` times; `pending` is the
      "still pending" warning. */
  method PollCreation(requestId: string, answers: seq<CreationState>)
    returns (calls: seq<Call>, last: CreationState, pending: bool)
    requires |answers| >= MaxTries
    ensures var seen := Observed(answers, MaxTries);
      calls == Describes(requestId, |seen|) && last == seen[|seen| - 1] &&
      pending == (|seen| == MaxTries && last.InProgress?)
    ensures 1 <= |calls| <= MaxTries
    ensures pending <==> forall k :: 0 <= k < MaxTries ==> answers[k].InProgress?
  {
    var counter := 0;
    calls := [];
    last := answers[0];  // overwritten by the first query
    while counter < MaxTries
      invariant 0 <= counter <= MaxTries
      invariant calls == Describes(requestId, counter)
      invariant forall k :: 0 <= k < counter ==> answers[k].InProgress?
      invariant counter > 0 ==> last == answers[counter - 1]
    {
      last := answers[counter];
      calls := calls + [DescribeCreateAccountStatus(requestId)];
      if last.InProgress? {
        // the source sleeps five seconds here
      } else if last.Succeeded? {
        break;
      } else if last.Failed? {
        break;
      }
      counter := counter + 1;
    }
    ghost var seen := Observed(answers, MaxTries);
    ObservedStops(answers, MaxTries);
    if counter < MaxTries {
      // the loop broke on a terminal answer
      assert calls == Describes(requestId, counter + 1);
      assert |seen| == counter + 1;
    } else {
      assert |seen| == MaxTries;
    }
    pending := counter == MaxTries && last.InProgress?;
  }

  // ---------------------------------------------------------------------------
  // The walk over the spec

  /** An entry that is missing from the organization but already being created
      stops the walk. */
  predicate Halts(deployed: seq<DeployedAccount>, a: AccountSpec, r: Remote) {
    !HasName(deployed, a.name) && InFlight(r.inFlight, a.name)
  }

  /** The state of the walk after some prefix of the spec. */
  datatype Progress = Progress(halted: bool, planned: seq<NewAccount>, calls: seq<Call>, notices: seq<Notice>)

  /** The calls made for one new account: the creation and its status queries,
      only in exec mode. */
  function EntryCalls(exec: bool, a: AccountSpec, domain: string, r: Remote): seq<Call>
    requires |r.answers| >= MaxTries
  {
    if exec then [CreateAccount(a.name, Email(a, domain))] + Describes(r.requestId, |Observed(r.answers, MaxTries)|)
    else []
  }

  /** The failure error or "still pending" warning logged for one new account. */
  function EntryNotices(exec: bool, a: AccountSpec, r: Remote): seq<Notice>
    requires |r.answers| >= MaxTries
  {
    var seen := Observed(r.answers, MaxTries);
    var last := seen[|seen| - 1];
    if !exec then []
    else if last.Failed? then [CreationFailed(a.name, last.reason)]
    else if |seen| == MaxTries && last.InProgress? then [StillPending(a.name)]
    else []
  }

  /** One iteration of the loop, on entry `a` with remote answers `r`. */
  function Step(deployed: seq<DeployedAccount>, exec: bool, domain: string, p: Progress, a: AccountSpec, r: Remote): Progress
    requires |r.answers| >= MaxTries
  {
    if p.halted || HasName(deployed, a.name) then p
    else if InFlight(r.inFlight, a.name) then
      p.(halted := true, notices := p.notices + [NotYetAvailable(a.name)])
    else
      p.(planned := p.planned + [NewAccount(a.name, Email(a, domain))],
         calls := p.calls + EntryCalls(exec, a, domain, r),
         notices := p.notices + EntryNotices(exec, a, r))
  }

  /** The walk over the first `k` spec entries, one loop iteration at a time. */
  function Walk(deployed: seq<DeployedAccount>, spec: OrgSpec, remote: seq<Remote>, exec: bool, k: nat): Progress
    requires WellFormed(spec, remote) && k <= |spec.accounts|
  {
    if k == 0 then Progress(false, [], [], [])
    else Step(deployed, exec, spec.defaultDomain, Walk(deployed, spec, remote, exec, k - 1), spec.accounts[k - 1], remote[k - 1])
  }

  // ---------------------------------------------------------------------------
  // Reference definitions

  /** The index of the first entry that halts the walk, searching from `i`
      (the number of entries when none does). */
  function HaltFrom(deployed: seq<DeployedAccount>, accounts: seq<AccountSpec>, remote: seq<Remote>, i: nat): (h: nat)
    requires |remote| == |accounts| && i <= |accounts|
    ensures i <= h <= |accounts|
    ensures forall j :: i <= j < h ==> !Halts(deployed, accounts[j], remote[j])
    ensures h < |accounts| ==> Halts(deployed, accounts[h], remote[h])
    decreases |accounts| - i
  {
    if i == |accounts| then i
    else if Halts(deployed, accounts[i], remote[i]) then i
    else HaltFrom(deployed, accounts, remote, i + 1)
  }

  function HaltIndex(deployed: seq<DeployedAccount>, spec: OrgSpec, remote: seq<Remote>): nat
    requires |remote| == |spec.accounts|
  {
    HaltFrom(deployed, spec.accounts, remote, 0)
  }

  /** The entries of `accounts` that are not deployed, in order, with their emails. */
  function Missing(deployed: seq<DeployedAccount>, accounts: seq<AccountSpec>, domain: string): (r: seq<NewAccount>)
    ensures |r| <= |accounts|
  {
    if accounts == [] then []
    else
      var a := accounts[0];
      (if HasName(deployed, a.name) then [] else [NewAccount(a.name, Email(a, domain))]) +
      Missing(deployed, accounts[1..], domain)
  }

  /** The account records among the calls, in order. */
  function Creations(calls: seq<Call>): seq<NewAccount> {
    if calls == [] then []
    else
      (if calls[0].CreateAccount? then [NewAccount(calls[0].accountName, calls[0].email)] else []) +
      Creations(calls[1..])
  }

  /** The calls of the entries below `k` that are not deployed, entry after
      entry, as if no entry halted the walk. */
  function CallsOf(deployed: seq<DeployedAccount>, exec: bool, spec: OrgSpec, remote: seq<Remote>, k: nat): seq<Call>
    requires WellFormed(spec, remote) && k <= |spec.accounts|
  {
    if k == 0 then []
    else
      var a := spec.accounts[k - 1];
      CallsOf(deployed, exec, spec, remote, k - 1) +
      (if HasName(deployed, a.name) then [] else EntryCalls(exec, a, spec.defaultDomain, remote[k - 1]))
  }

  // ---------------------------------------------------------------------------
  // Lemmas

  lemma {:induction false} MissingSnoc(deployed: seq<DeployedAccount>, accounts: seq<AccountSpec>, a: AccountSpec, domain: string)
    ensures Missing(deployed, accounts + [a], domain) ==
            Missing(deployed, accounts, domain) +
            (if HasName(deployed, a.name) then [] else [NewAccount(a.name, Email(a, domain))])
  {
    if accounts != [] {
      assert (accounts + [a])[1..] == accounts[1..] + [a];
      MissingSnoc(deployed, accounts[1..], a, domain);
    }
  }

  /** Every new account comes from an entry that is not deployed, and every
      entry that is not deployed yields its new account. */
  lemma {:induction false} MissingMembers(deployed: seq<DeployedAccount>, accounts: seq<AccountSpec>, domain: string)
    ensures forall x :: x in Missing(deployed, accounts, domain) ==>
              exists i :: 0 <= i < |accounts| && !HasName(deployed, accounts[i].name) &&
                          x == NewAccount(accounts[i].name, Email(accounts[i], domain))
    ensures forall i :: 0 <= i < |accounts| && !HasName(deployed, accounts[i].name) ==>
              NewAccount(accounts[i].name, Email(accounts[i], domain)) in Missing(deployed, accounts, domain)
  {
    if accounts != [] {
      MissingMembers(deployed, accounts[1..], domain);
      assert forall i :: 1 <= i < |accounts| ==> accounts[i] == accounts[1..][i - 1];
    }
  }

  lemma {:induction false} CreationsAppend(xs: seq<Call>, ys: seq<Call>)
    ensures Creations(xs + ys) == Creations(xs) + Creations(ys)
  {
    if xs != [] {
      assert (xs + ys)[0] == xs[0] && (xs + ys)[1..] == xs[1..] + ys;
      CreationsAppend(xs[1..], ys);
    } else {
      assert xs + ys == ys;
    }
  }

  lemma {:induction false} CreationsOfDescribes(requestId: string, n: nat)
    ensures Creations(Describes(requestId, n)) == []
  {
    if n > 0 {
      assert Describes(requestId, n)[1..] == Describes(requestId, n - 1);
      CreationsOfDescribes(requestId, n - 1);
    }
  }

  /** The calls for one new account: in exec mode its creation, then 1 to
      `MaxTries` status queries carrying its own request id; nothing in
      dry-run mode. */
  lemma EntryCallsShape(exec: bool, a: AccountSpec, domain: string, r: Remote)
    requires |r.answers| >= MaxTries
    ensures var e := EntryCalls(exec, a, domain, r);
            (!exec ==> e == []) &&
            (exec ==> exists n :: 1 <= n <= MaxTries &&
                        e == [CreateAccount(a.name, Email(a, domain))] + Describes(r.requestId, n)) &&
            Creations(e) == (if exec then [NewAccount(a.name, Email(a, domain))] else []) &&
            (exec ==> 2 <= |e| <= 1 + MaxTries)
  {
    if exec {
      var n := |Observed(r.answers, MaxTries)|;
      CreationsAppend([CreateAccount(a.name, Email(a, domain))], Describes(r.requestId, n));
      CreationsOfDescribes(r.requestId, n);
    }
  }

  /** One step of a walk that has not halted. */
  lemma StepEffect(deployed: seq<DeployedAccount>, exec: bool, domain: string, p: Progress, a: AccountSpec, r: Remote)
    requires |r.answers| >= MaxTries && !p.halted
    ensures var q := Step(deployed, exec, domain, p, a, r);
            q.halted == Halts(deployed, a, r) &&
            (HasName(deployed, a.name) ==> q == p) &&
            (Halts(deployed, a, r) ==> q.planned == p.planned && q.calls == p.calls) &&
            (!HasName(deployed, a.name) && !Halts(deployed, a, r) ==>
               q.planned == p.planned + [NewAccount(a.name, Email(a, domain))] &&
               q.calls == p.calls + EntryCalls(exec, a, domain, r))
  {
  }

  /** Once the walk has halted, later entries change nothing. */
  lemma {:induction false} WalkHaltStays(deployed: seq<DeployedAccount>, spec: OrgSpec, remote: seq<Remote>, exec: bool, k: nat, n: nat)
    requires WellFormed(spec, remote) && k <= n <= |spec.accounts|
    requires Walk(deployed, spec, remote, exec, k).halted
    ensures Walk(deployed, spec, remote, exec, n) == Walk(deployed, spec, remote, exec, k)
    decreases n - k
  {
    if k < n {
      WalkHaltStays(deployed, spec, remote, exec, k + 1, n);
    }
  }

  /** The walk halts exactly after the first entry that is missing and in
      flight. */
  lemma {:induction false} WalkHaltedIff(deployed: seq<DeployedAccount>, spec: OrgSpec, remote: seq<Remote>, exec: bool, k: nat)
    requires WellFormed(spec, remote) && k <= |spec.accounts|
    ensures Walk(deployed, spec, remote, exec, k).halted <==> k > HaltIndex(deployed, spec, remote)
  {
    if k > 0 {
      WalkHaltedIff(deployed, spec, remote, exec, k - 1);
      var p := Walk(deployed, spec, remote, exec, k - 1);
      if !p.halted {
        StepEffect(deployed, exec, spec.defaultDomain, p, spec.accounts[k - 1], remote[k - 1]);
      }
    }
  }

  /** While the walk has not halted, it has planned exactly the entries so far
      that are not deployed. */
  lemma {:induction false} WalkPlansMissing(deployed: seq<DeployedAccount>, spec: OrgSpec, remote: seq<Remote>, exec: bool, k: nat)
    requires WellFormed(spec, remote) && k <= |spec.accounts|
    requires !Walk(deployed, spec, remote, exec, k).halted
    ensures Walk(deployed, spec, remote, exec, k).planned == Missing(deployed, spec.accounts[..k], spec.defaultDomain)
  {
    if k > 0 {
      var p, a := Walk(deployed, spec, remote, exec, k - 1), spec.accounts[k - 1];
      assert !p.halted;
      WalkPlansMissing(deployed, spec, remote, exec, k - 1);
      StepEffect(deployed, exec, spec.defaultDomain, p, a, remote[k - 1]);
      assert spec.accounts[..k] == spec.accounts[..k - 1] + [a];
      MissingSnoc(deployed, spec.accounts[..k - 1], a, spec.defaultDomain);
    }
  }

  /** While the walk has not halted, its calls are those of each entry so far
      that is not deployed, entry after entry. */
  lemma {:induction false} WalkTraces(deployed: seq<DeployedAccount>, spec: OrgSpec, remote: seq<Remote>, exec: bool, k: nat)
    requires WellFormed(spec, remote) && k <= |spec.accounts|
    requires !Walk(deployed, spec, remote, exec, k).halted
    ensures Walk(deployed, spec, remote, exec, k).calls == CallsOf(deployed, exec, spec, remote, k)
  {
    if k > 0 {
      var p, a := Walk(deployed, spec, remote, exec, k - 1), spec.accounts[k - 1];
      assert !p.halted;
      WalkTraces(deployed, spec, remote, exec, k - 1);
      StepEffect(deployed, exec, spec.defaultDomain, p, a, remote[k - 1]);
    }
  }

  /** Up to the first halting entry, the walk has not halted, has planned
      exactly the entries that are not deployed, and has made their calls. */
  lemma WalkBeforeHalt(deployed: seq<DeployedAccount>, spec: OrgSpec, remote: seq<Remote>, exec: bool, k: nat)
    requires WellFormed(spec, remote) && k <= HaltIndex(deployed, spec, remote)
    ensures var p := Walk(deployed, spec, remote, exec, k);
            !p.halted &&
            p.planned == Missing(deployed, spec.accounts[..k], spec.defaultDomain) &&
            p.calls == CallsOf(deployed, exec, spec, remote, k)
  {
    WalkHaltedIff(deployed, spec, remote, exec, k);
    WalkPlansMissing(deployed, spec, remote, exec, k);
    WalkTraces(deployed, spec, remote, exec, k);
  }

  /** After the first halting entry, the walk has halted with what it had
      planned and called before that entry. */
  lemma WalkAfterHalt(deployed: seq<DeployedAccount>, spec: OrgSpec, remote: seq<Remote>, exec: bool, k: nat)
    requires WellFormed(spec, remote) && HaltIndex(deployed, spec, remote) < k <= |spec.accounts|
    ensures var h := HaltIndex(deployed, spec, remote);
            var p := Walk(deployed, spec, remote, exec, k);
            p.halted &&
            p.planned == Missing(deployed, spec.accounts[..h], spec.defaultDomain) &&
            p.calls == CallsOf(deployed, exec, spec, remote, h)
  {
    var h := HaltIndex(deployed, spec, remote);
    WalkBeforeHalt(deployed, spec, remote, exec, h);
    StepEffect(deployed, exec, spec.defaultDomain, Walk(deployed, spec, remote, exec, h), spec.accounts[h], remote[h]);
    WalkHaltStays(deployed, spec, remote, exec, h + 1, k);
  }

  /** The walk runs until the first halting entry and plans exactly the
      entries before it that are not deployed; its calls are those of each
      such entry, entry after entry. */
  lemma WalkFollowsHalt(deployed: seq<DeployedAccount>, spec: OrgSpec, remote: seq<Remote>, exec: bool, k: nat)
    requires WellFormed(spec, remote) && k <= |spec.accounts|
    ensures var h := HaltIndex(deployed, spec, remote);
            var m := if k <= h then k else h;
            var p := Walk(deployed, spec, remote, exec, k);
            p.halted == (k > h) &&
            p.planned == Missing(deployed, spec.accounts[..m], spec.defaultDomain) &&
            p.calls == CallsOf(deployed, exec, spec, remote, m)
  {
    if k <= HaltIndex(deployed, spec, remote) {
      WalkBeforeHalt(deployed, spec, remote, exec, k);
    } else {
      WalkAfterHalt(deployed, spec, remote, exec, k);
    }
  }

  /** In exec mode the walk creates exactly the accounts it plans, in order,
      each followed by at most `MaxTries` status queries; in dry-run mode it
      calls nothing. */
  lemma {:induction false} WalkCalls(deployed: seq<DeployedAccount>, spec: OrgSpec, remote: seq<Remote>, exec: bool, k: nat)
    requires WellFormed(spec, remote) && k <= |spec.accounts|
    ensures var p := Walk(deployed, spec, remote, exec, k);
            Creations(p.calls) == (if exec then p.planned else []) &&
            (!exec ==> p.calls == []) &&
            |p.calls| <= (1 + MaxTries) * |p.planned| &&
            (exec ==> 2 * |p.planned| <= |p.calls|)
  {
    if k > 0 {
      WalkCalls(deployed, spec, remote, exec, k - 1);
      var p := Walk(deployed, spec, remote, exec, k - 1);
      var a := spec.accounts[k - 1];
      var r := remote[k - 1];
      if !p.halted && !HasName(deployed, a.name) && !InFlight(r.inFlight, a.name) {
        EntryCallsShape(exec, a, spec.defaultDomain, r);
        CreationsAppend(p.calls, EntryCalls(exec, a, spec.defaultDomain, r));
      }
    }
  }

  /** A second run after a fully successful first one: when every spec name is
      deployed, the walk plans nothing, calls nothing and logs nothing. */
  lemma {:induction false} AllDeployedCreatesNothing(deployed: seq<DeployedAccount>, spec: OrgSpec, remote: seq<Remote>, exec: bool, k: nat)
    requires WellFormed(spec, remote) && k <= |spec.accounts|
    requires forall i :: 0 <= i < |spec.accounts| ==> HasName(deployed, spec.accounts[i].name)
    ensures Walk(deployed, spec, remote, exec, k) == Progress(false, [], [], [])
  {
    if k > 0 {
      assert HasName(deployed, spec.accounts[k - 1].name);
      AllDeployedCreatesNothing(deployed, spec, remote, exec, k - 1);
    }
  }

  /** What the whole walk plans and calls, against the reference definitions. */
  lemma WalkSummary(deployed: seq<DeployedAccount>, spec: OrgSpec, remote: seq<Remote>, exec: bool)
    requires WellFormed(spec, remote)
    ensures var p := Walk(deployed, spec, remote, exec, |spec.accounts|);
            var h := HaltIndex(deployed, spec, remote);
            p.planned == Missing(deployed, spec.accounts[..h], spec.defaultDomain) &&
            p.calls == CallsOf(deployed, exec, spec, remote, h) &&
            (exec ==> Creations(p.calls) == p.planned) &&
            (!exec ==> p.calls == []) &&
            |p.calls| <= (1 + MaxTries) * |p.planned|
  {
    var n := |spec.accounts|;
    if HaltIndex(deployed, spec, remote) == n {
      WalkBeforeHalt(deployed, spec, remote, exec, n);
    } else {
      WalkAfterHalt(deployed, spec, remote, exec, n);
    }
    WalkCalls(deployed, spec, remote, exec, n);
  }

  // ---------------------------------------------------------------------------
  // The operation

  /** One missing entry that is not being created yet: derive its email and,
      in exec mode, create the account, poll the creation, and log a failure
      or a creation that is still pending. */
  method CreateOne(exec: bool, a: AccountSpec, domain: string, r: Remote)
    returns (account: NewAccount, calls: seq<Call>, notices: seq<Notice>)
    requires |r.answers| >= MaxTries
    ensures account == NewAccount(a.name, Email(a, domain))
    ensures calls == EntryCalls(exec, a, domain, r)
    ensures notices == EntryNotices(exec, a, r)
  {
    var email := Email(a, domain);
    account := NewAccount(a.name, email);
    calls, notices := [], [];
    if exec {
      calls := calls + [CreateAccount(a.name, email)];
      var polls, last, pending := PollCreation(r.requestId, r.answers);
      calls := calls + polls;
      if last.Failed? {
        notices := notices + [CreationFailed(a.name, last.reason)];
      } else if pending {
        notices := notices + [StillPending(a.name)];
      }
    }
  }

  /** `create_accounts`: walk the spec in order; skip deployed names; stop at
      the first missing name that is still being created; otherwise create
      the account with `CreateOne`. */
  method CreateAccounts(exec: bool, deployed: seq<DeployedAccount>, spec: OrgSpec, remote: seq<Remote>)
    returns (planned: seq<NewAccount>, calls: seq<Call>, notices: seq<Notice>)
    requires WellFormed(spec, remote)
    ensures var p := Walk(deployed, spec, remote, exec, |spec.accounts|);
            planned == p.planned && calls == p.calls && notices == p.notices
    ensures var h := HaltIndex(deployed, spec, remote);
            planned == Missing(deployed, spec.accounts[..h], spec.defaultDomain) &&
            calls == CallsOf(deployed, exec, spec, remote, h)
    ensures exec ==> Creations(calls) == planned
    ensures !exec ==> calls == []
    ensures |calls| <= (1 + MaxTries) * |planned|
  {
    var n := |spec.accounts|;
    planned, calls, notices := [], [], [];
    var i := 0;
    while i < n
      invariant 0 <= i <= n
      invariant Walk(deployed, spec, remote, exec, i) == Progress(false, planned, calls, notices)
    {
      var a := spec.accounts[i];
      if !HasName(deployed, a.name) {
        // the in-flight requests are scanned again for every missing name
        if InFlight(remote[i].inFlight, a.name) {
          notices := notices + [NotYetAvailable(a.name)];
          WalkHaltStays(deployed, spec, remote, exec, i + 1, n);
          break;
        }
        var account, entryCalls, entryNotices := CreateOne(exec, a, spec.defaultDomain, remote[i]);
        planned := planned + [account];
        calls := calls + entryCalls;
        notices := notices + entryNotices;
      }
      i := i + 1;
    }
    WalkSummary(deployed, spec, remote, exec);
  }
}
