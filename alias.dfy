/** `set_account_alias`: fetch an account's IAM aliases, compare the first with
    the alias the spec proposes, and correct it. */
module Alias {
  import opened Records
  import opened Text

  /** The alias an account should carry: the `Alias` of the first spec entry
      with the account's name when that entry has the key, otherwise the
      lower-cased account name. */
  function ProposedAlias(account: DeployedAccount, specs: seq<AccountSpec>): (r: string)
    ensures forall i ::
              (0 <= i < |specs| && specs[i].name == account.name &&
               forall j :: 0 <= j < i ==> specs[j].name != account.name) ==>
              r == (if specs[i].alias.Some? then specs[i].alias.value else Lower(account.name))
    ensures !InSpec(specs, account.name) ==> r == Lower(account.name)
  {
    var s := FindSpec(specs, account.name);
    assert forall i :: (0 <= i < |specs| && specs[i].name == account.name &&
                        forall j :: 0 <= j < i ==> specs[j].name != account.name) ==> s == Some(specs[i]) by {
      forall i | 0 <= i < |specs| && specs[i].name == account.name &&
                 forall j :: 0 <= j < i ==> specs[j].name != account.name
        ensures s == Some(specs[i])
      {
        FindSpecFirst(specs, account.name, i);
      }
    }
    if s.Some? && s.value.alias.Some? then s.value.alias.value else Lower(account.name)
  }

  /** The effect of one IAM call on an account's alias list, for an account with
      at most one alias (AWS permits no more): a create on an account that has
      an alias fails, a delete removes the alias it names. */
  function ApplyIam(aliases: seq<string>, c: Call): seq<string> {
    match c
    case CreateAccountAlias(a) => if aliases == [] then [a] else aliases
    case DeleteAccountAlias(a) => if aliases != [] && aliases[0] == a then aliases[1..] else aliases
    case _ => aliases
  }

  /** The alias list after a sequence of IAM calls, applied in order. */
  function ApplyAll(aliases: seq<string>, calls: seq<Call>): seq<string>
    decreases |calls|
  {
    if calls == [] then aliases else ApplyAll(ApplyIam(aliases, calls[0]), calls[1..])
  }

  /** The calls that bring an alias list to `proposed`: none when the first
      alias already is `proposed`, a create when there is none, a delete of the
      first alias followed by a create otherwise. */
  function AliasCorrection(aliases: seq<string>, proposed: string): (calls: seq<Call>)
    ensures |calls| <= 2
    ensures calls == [] <==> aliases != [] && aliases[0] == proposed
    ensures |aliases| <= 1 ==> ApplyAll(aliases, calls) == [proposed]
  {
    if aliases == [] then [CreateAccountAlias(proposed)]
    else if aliases[0] != proposed then
      var calls := [DeleteAccountAlias(aliases[0]), CreateAccountAlias(proposed)];
      assert calls[1..] == [CreateAccountAlias(proposed)] && calls[1..][1..] == [];
      assert |aliases| <= 1 ==> ApplyIam(aliases, calls[0]) == [];
      assert ApplyAll(aliases, calls) == ApplyAll(ApplyIam(aliases, calls[0]), [CreateAccountAlias(proposed)]);
      assert ApplyAll([], [CreateAccountAlias(proposed)]) == [proposed];
      calls
    else []
  }

  /** Correcting an account twice: the second run issues no call. */
  lemma {:induction false} AliasCorrectionIdempotent(aliases: seq<string>, proposed: string)
    requires |aliases| <= 1
    ensures AliasCorrection(ApplyAll(aliases, AliasCorrection(aliases, proposed)), proposed) == []
  {
  }

  /** `set_account_alias` for one account.  `credentialsOk` says whether the
      role in the account could be assumed; `aliases` is what
      `list_account_aliases` answers there. */
  method SetAccountAlias(exec: bool, account: DeployedAccount, specs: seq<AccountSpec>,
                         credentialsOk: bool, aliases: seq<string>)
    returns (calls: seq<Call>)
    ensures !exec || account.status != Active || !credentialsOk ==> calls == []
    ensures exec && account.status == Active && credentialsOk ==>
              calls == AliasCorrection(aliases, ProposedAlias(account, specs))
    ensures exec && account.status == Active && credentialsOk && aliases == [] ==>
              calls == [CreateAccountAlias(ProposedAlias(account, specs))]
    ensures exec && account.status == Active && credentialsOk && aliases != [] &&
            aliases[0] != ProposedAlias(account, specs) ==>
              calls == [DeleteAccountAlias(aliases[0]), CreateAccountAlias(ProposedAlias(account, specs))]
    ensures aliases != [] && aliases[0] == ProposedAlias(account, specs) ==> calls == []
  {
    calls := [];
    if account.status == Active {
      var proposed := ProposedAlias(account, specs);
      if credentialsOk {
        if aliases == [] {
          if exec {
            calls := calls + [CreateAccountAlias(proposed)];
          }
        } else if aliases[0] != proposed {
          if exec {
            calls := calls + [DeleteAccountAlias(aliases[0])];
            calls := calls + [CreateAccountAlias(proposed)];
          }
        }
      }
    }
  }
}
