/** The entities the account manager reads from its specification document and
    from the remote organization, and the remote calls it issues.  The remote API
    itself is not modelled: what it answers is an input, what is asked of it is a
    `Call` record appended to a trace. */
module Records {

  datatype Option<+T> = None | Some(value: T)

  /** One entry of the `accounts` list of the specification document. */
  datatype AccountSpec = AccountSpec(name: string, email: Option<string>, alias: Option<string>)

  /** The specification document: the default mail domain and the desired accounts, in order. */
  datatype OrgSpec = OrgSpec(defaultDomain: string, accounts: seq<AccountSpec>)

  datatype AccountStatus = Active | Suspended

  /** An account the organization reports as a member. */
  datatype DeployedAccount = DeployedAccount(id: string, name: string, email: string, status: AccountStatus)

  /** The `State` of an asynchronous account-creation request, with its `FailureReason`. */
  datatype CreationState = InProgress | Succeeded | Failed(reason: string)

  /** An account-creation request the organization still reports. */
  datatype CreationRequest = CreationRequest(requestId: string, accountName: string, state: CreationState)

  datatype PartyType = AccountParty | OrganizationParty | EmailParty

  datatype Party = Party(id: string, partyType: PartyType)

  datatype HandshakeState = Requested | Open | Canceled | Accepted | Declined | Expired

  /** An invitation handshake between the organization and a prospective member. */
  datatype Handshake = Handshake(id: string, parties: seq<Party>, state: HandshakeState)

  /** The `Target` argument of an invitation. */
  datatype Target = Target(id: string, targetType: PartyType)

  /** A call to the remote organization or IAM API. */
  datatype Call =
    | CreateAccount(accountName: string, email: string)
    | DescribeCreateAccountStatus(requestId: string)
    | CreateAccountAlias(alias: string)
    | DeleteAccountAlias(alias: string)
    | InviteAccountToOrganization(target: Target)

  /** `lookup(deployed_accounts, 'Name', name)` is truthy. */
  predicate HasName(deployed: seq<DeployedAccount>, name: string) {
    exists i :: 0 <= i < |deployed| && deployed[i].name == name
  }

  /** `lookup(deployed_accounts, 'Id', id)` is truthy. */
  predicate HasId(deployed: seq<DeployedAccount>, id: string) {
    exists i :: 0 <= i < |deployed| && deployed[i].id == id
  }

  /** `lookup(created_accounts, 'AccountName', name)` is truthy. */
  predicate InFlight(requests: seq<CreationRequest>, name: string) {
    exists i :: 0 <= i < |requests| && requests[i].accountName == name
  }

  /** Whether some spec entry carries this name. */
  predicate InSpec(specs: seq<AccountSpec>, name: string) {
    exists i :: 0 <= i < |specs| && specs[i].name == name
  }

  /** `lookup(account_spec['accounts'], 'Name', name)`: the first spec entry with that name. */
  function FindSpec(specs: seq<AccountSpec>, name: string): (r: Option<AccountSpec>)
    ensures r.None? <==> !InSpec(specs, name)
    ensures r.Some? ==> exists i :: 0 <= i < |specs| && specs[i] == r.value && r.value.name == name &&
                                   forall j :: 0 <= j < i ==> specs[j].name != name
  {
    if specs == [] then None
    else if specs[0].name == name then Some(specs[0])
    else
      var r := FindSpec(specs[1..], name);
      assert forall i :: 0 <= i < |specs| - 1 ==> specs[1..][i] == specs[i + 1];
      if r.Some? then
        assert exists i :: 1 <= i < |specs| && specs[i] == r.value && r.value.name == name &&
                           forall j :: 0 <= j < i ==> specs[j].name != name;
        r
      else r
  }

  /** The entry at the first index that carries the name is the one found. */
  lemma {:induction false} FindSpecFirst(specs: seq<AccountSpec>, name: string, i: nat)
    requires i < |specs| && specs[i].name == name
    requires forall j :: 0 <= j < i ==> specs[j].name != name
    ensures FindSpec(specs, name) == Some(specs[i])
  {
    if i > 0 {
      assert specs[0].name != name;
      FindSpecFirst(specs[1..], name, i - 1);
    }
  }

  /** `lookup(parties, 'Type', 'ACCOUNT', 'Id')`: the id of the first ACCOUNT party. */
  function AccountPartyId(parties: seq<Party>): (r: Option<string>)
    ensures r.None? <==> forall i :: 0 <= i < |parties| ==> parties[i].partyType != AccountParty
    ensures r.Some? ==> exists i :: 0 <= i < |parties| && parties[i].partyType == AccountParty &&
                                   parties[i].id == r.value &&
                                   forall j :: 0 <= j < i ==> parties[j].partyType != AccountParty
  {
    if parties == [] then None
    else if parties[0].partyType == AccountParty then Some(parties[0].id)
    else
      var r := AccountPartyId(parties[1..]);
      assert forall i :: 0 <= i < |parties| - 1 ==> parties[1..][i] == parties[i + 1];
      if r.Some? then
        assert exists i :: 1 <= i < |parties| && parties[i].partyType == AccountParty &&
                           parties[i].id == r.value &&
                           forall j :: 0 <= j < i ==> parties[j].partyType != AccountParty;
        r
      else r
  }
}
