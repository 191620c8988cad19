/** `scan_invited_accounts` and `invite_account`: list the organization's
    invitation handshakes page by page, and invite one account unless a guard
    refuses it. */
module Invitations {
  import opened Records

  /** One answer of `list_handshakes_for_organization`. */
  datatype Page = Page(handshakes: seq<Handshake>, nextToken: Option<string>)

  /** Some answer carries no `NextToken`, so the listing ends. */
  predicate EndsPagination(pages: seq<Page>) {
    exists i :: 0 <= i < |pages| && pages[i].nextToken.None?
  }

  /** The index of the first answer without a `NextToken`: the last one requested. */
  function LastPage(pages: seq<Page>): (k: nat)
    requires EndsPagination(pages)
    ensures k < |pages| && pages[k].nextToken.None?
    ensures forall i :: 0 <= i < k ==> pages[i].nextToken.Some?
  {
    if pages[0].nextToken.None? then 0
    else
      assert forall i :: 1 <= i < |pages| ==> pages[1..][i - 1] == pages[i];
      1 + LastPage(pages[1..])
  }

  /** The handshakes of the pages, page after page. */
  function Concat(pages: seq<Page>): seq<Handshake> {
    if pages == [] then [] else Concat(pages[..|pages| - 1]) + pages[|pages| - 1].handshakes
  }

  /** Concatenation keeps every page whole and in page order. */
  lemma {:induction false} ConcatAppend(xs: seq<Page>, ys: seq<Page>)
    ensures Concat(xs + ys) == Concat(xs) + Concat(ys)
    decreases |ys|
  {
    if ys == [] {
      assert xs + ys == xs;
    } else {
      assert (xs + ys)[..|xs + ys| - 1] == xs + ys[..|ys| - 1];
      ConcatAppend(xs, ys[..|ys| - 1]);
    }
  }

  /** Every handshake of every page appears in the concatenation, right after
      the handshakes of the pages before it: nothing is lost or repeated. */
  lemma ConcatPlacement(pages: seq<Page>, i: nat, j: nat)
    requires i < |pages| && j < |pages[i].handshakes|
    ensures |Concat(pages[..i])| + j < |Concat(pages)|
    ensures Concat(pages)[|Concat(pages[..i])| + j] == pages[i].handshakes[j]
  {
    assert pages == pages[..i] + ([pages[i]] + pages[i + 1..]);
    ConcatAppend(pages[..i], [pages[i]] + pages[i + 1..]);
    ConcatAppend([pages[i]], pages[i + 1..]);
    assert Concat([pages[i]]) == Concat([]) + pages[i].handshakes;
  }

  /** One more page adds its handshakes at the end. */
  lemma ConcatSnoc(pages: seq<Page>, i: nat)
    requires i < |pages|
    ensures Concat(pages[..i + 1]) == Concat(pages[..i]) + pages[i].handshakes
  {
    assert pages[..i + 1][..i] == pages[..i];
  }

  /** `scan_invited_accounts`: request the first page, then follow `NextToken`
      until an answer has none; `requests` holds the token each request sent. */
  method ScanInvitedAccounts(pages: seq<Page>) returns (handshakes: seq<Handshake>, requests: seq<Option<string>>)
    requires EndsPagination(pages)
    ensures handshakes == Concat(pages[..LastPage(pages) + 1])
    ensures |requests| == LastPage(pages) + 1
    ensures requests[0] == None
    ensures forall i :: 1 <= i < |requests| ==> requests[i] == pages[i - 1].nextToken
  {
    ghost var last := LastPage(pages);
    var i := 0;
    var response := pages[0];
    requests := [None];
    handshakes := response.handshakes;
    ConcatSnoc(pages, 0);
    while response.nextToken.Some?
      invariant 0 <= i <= last
      invariant response == pages[i]
      invariant handshakes == Concat(pages[..i + 1])
      invariant |requests| == i + 1 && requests[0] == None
      invariant forall k :: 1 <= k < |requests| ==> requests[k] == pages[k - 1].nextToken
      decreases last - i
    {
      requests := requests + [response.nextToken];
      i := i + 1;
      response := pages[i];
      ConcatSnoc(pages, i);
      handshakes := handshakes + response.handshakes;
    }
  }

  /** Whether a handshake's ACCOUNT party is `id`. */
  predicate InvitesAccount(h: Handshake, id: string) {
    AccountPartyId(h.parties) == Some(id)
  }

  /** The handshakes that invite `id`, in listing order. */
  function InvitesFor(handshakes: seq<Handshake>, id: string): (r: seq<Handshake>)
    ensures forall h :: h in r <==> h in handshakes && InvitesAccount(h, id)
    ensures r != [] ==> exists i :: 0 <= i < |handshakes| && handshakes[i] == r[0] &&
                                   forall j :: 0 <= j < i ==> !InvitesAccount(handshakes[j], id)
  {
    if handshakes == [] then []
    else if InvitesAccount(handshakes[0], id) then [handshakes[0]] + InvitesFor(handshakes[1..], id)
    else
      var r := InvitesFor(handshakes[1..], id);
      assert forall i :: 1 <= i < |handshakes| ==> handshakes[1..][i - 1] == handshakes[i];
      r
  }

  /** What `invite_account` ends with: the two fatal exits, the three refusals,
      the dry run, or the new handshake. */
  datatype InviteOutcome =
    | MissingId
    | InvalidId
    | AlreadyMember
    | AlreadyAccepted
    | AlreadyInvited(state: HandshakeState)
    | NotExecuted
    | Invited(handshake: Handshake)

  /** The outcomes that exit the program with status 1. */
  predicate Fatal(o: InviteOutcome) {
    o.MissingId? || o.InvalidId?
  }

  /** The handshakes for `id` among all the listed pages. */
  function PriorInvites(pages: seq<Page>, id: string): seq<Handshake>
    requires EndsPagination(pages)
  {
    InvitesFor(Concat(pages[..LastPage(pages) + 1]), id)
  }

  /** A state of the first prior invitation that refuses a new one. */
  predicate Refuses(s: HandshakeState) {
    s == Accepted || s == Requested || s == Open
  }

  /** The guards before the listing let the invitation through: an id is
      given, it is a valid account id, and it is not already a member. */
  predicate Lists(invitedId: Option<string>, validAccountId: string -> bool, deployed: seq<DeployedAccount>) {
    invitedId.Some? && invitedId.value != "" && validAccountId(invitedId.value) &&
    !HasId(deployed, invitedId.value)
  }

  /** `invite_account`.  `invitedId` is the `--invited-account-id` option,
      `validAccountId` the account-id check, `pages` the handshake listing and
      `answer` the handshake the invitation call returns. */
  method InviteAccount(exec: bool, invitedId: Option<string>, validAccountId: string -> bool,
                       deployed: seq<DeployedAccount>, pages: seq<Page>, answer: Handshake)
    returns (outcome: InviteOutcome, requests: seq<Option<string>>, calls: seq<Call>)
    requires Lists(invitedId, validAccountId, deployed) ==> EndsPagination(pages)
    ensures invitedId.None? || invitedId.value == "" ==> outcome == MissingId
    ensures invitedId.Some? && invitedId.value != "" && !validAccountId(invitedId.value) ==> outcome == InvalidId
    ensures Fatal(outcome) <==> !(invitedId.Some? && invitedId.value != "" && validAccountId(invitedId.value))
    ensures (invitedId.Some? && invitedId.value != "" && validAccountId(invitedId.value) &&
             HasId(deployed, invitedId.value)) ==> outcome == AlreadyMember
    ensures !Lists(invitedId, validAccountId, deployed) ==> requests == [] && calls == []
    ensures Lists(invitedId, validAccountId, deployed) ==>
              |requests| == LastPage(pages) + 1 && requests[0] == None &&
              forall i :: 1 <= i < |requests| ==> requests[i] == pages[i - 1].nextToken
    ensures Lists(invitedId, validAccountId, deployed) ==>
              var prior := PriorInvites(pages, invitedId.value);
              (prior != [] && prior[0].state == Accepted ==> outcome == AlreadyAccepted && calls == []) &&
              (prior != [] && (prior[0].state == Requested || prior[0].state == Open) ==>
                 outcome == AlreadyInvited(prior[0].state) && calls == [])
    ensures Lists(invitedId, validAccountId, deployed) ==>
              var id := invitedId.value;
              var prior := PriorInvites(pages, id);
              (prior == [] || !Refuses(prior[0].state)) ==>
                outcome == (if exec then Invited(answer) else NotExecuted) &&
                calls == (if exec then [InviteAccountToOrganization(Target(id, AccountParty))] else [])
    ensures |calls| <= 1
    ensures calls != [] ==> exec && outcome == Invited(answer)
  {
    requests, calls := [], [];
    if invitedId.None? || invitedId.value == "" {
      outcome := MissingId;
      return;
    }
    var id := invitedId.value;
    if !validAccountId(id) {
      outcome := InvalidId;
      return;
    }
    if HasId(deployed, id) {
      outcome := AlreadyMember;
      return;
    }
    assert Lists(invitedId, validAccountId, deployed);
    var invited;
    invited, requests := ScanInvitedAccounts(pages);
    var accountInvite := InvitesFor(invited, id);
    assert accountInvite == PriorInvites(pages, id);
    if accountInvite != [] {
      var state := accountInvite[0].state;
      if state == Accepted {
        outcome := AlreadyAccepted;
        return;
      }
      if state == Requested || state == Open {
        outcome := AlreadyInvited(state);
        return;
      }
    }
    if exec {
      calls := [InviteAccountToOrganization(Target(id, AccountParty))];
      outcome := Invited(answer);
      return;
    }
    outcome := NotExecuted;
  }
}
