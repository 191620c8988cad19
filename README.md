# aws-orgs account reconciliation, modelled in Dafny

This project models the account-management core of aws-orgs (`awsorgs/accounts.py`).
That core diffs a declarative specification of an AWS Organization's accounts against
what the organization reports. It then issues the corrective API calls:

- it creates the missing accounts and polls each creation a bounded number of times;
- it sets each active account's IAM alias;
- it invites an outside account, unless a guard refuses;
- it lists the unmanaged accounts and the sorted account names a report shows.

The AWS APIs are not modelled. Everything the organization or IAM answers is an
input: the handshake pages, the creation states returned by successive polls, the
in-flight creation list re-scanned for each missing account, and an account's current
aliases. Every mutating call and every status query the code makes (`create_account`,
`describe_create_account_status`, `create_account_alias`, `delete_account_alias`,
`invite_account_to_organization`) is a `Call` record in a returned trace. The
handshake listing's requests are returned separately, as the token each request
sends. The other reads (`list_account_aliases`, `scan_created_accounts`,
`scan_deployed_accounts`) are not recorded; only their answers enter, as inputs. The
`--exec` flag is a boolean parameter.

Modules, one per component:

- `Records` (`records.dfy`): the entities and the `lookup` queries over them.
- `Text` (`text.dfy`): ASCII lower-casing and Python's code-point order on strings.
- `Creation` (`creation.dfy`): `create_accounts`, with `PollCreation` (the bounded
  poll loop), `CreateOne` (the work for one new account) and `CreateAccounts`
  (the walk over the spec). They are proved against the specification functions
  `Observed`, `EntryCalls` and `Walk`. The walk is also checked against the
  reference definitions `HaltFrom`, `Missing` and `CallsOf`.
- `Alias` (`alias.dfy`): `set_account_alias`. `AliasCorrection` is checked
  against a model of how IAM calls change an alias list (`ApplyIam`).
- `Invitations` (`invitations.dfy`): `scan_invited_accounts` (a pagination
  loop) and `invite_account` (the guard chain).
- `Report` (`report.dfy`): `unmanaged_accounts` and the status check, filter
  and sort of `display_provisioned_accounts`.

## Model

| member | source | states |
|---|---|---|
| Records.FindSpec | awsorgs/accounts.py:108 | the result is None exactly when no spec entry has the name; otherwise it is the first entry with that name |
| Records.FindSpecFirst | awsorgs/accounts.py:108 | the entry found is the one at the first index that carries the name |
| Records.AccountPartyId | awsorgs/accounts.py:169 | the result is the id of the first ACCOUNT party; it is None exactly when no party is an ACCOUNT |
| Creation.Email | awsorgs/accounts.py:67-70 | an Email that is given and non-empty is used as is; otherwise the email is the name, then '@', then the default domain; the email is never empty |
| Creation.Observed | awsorgs/accounts.py:80-97 | a poll with a budget of queries observes at most that many answers, and at least one |
| Creation.ObservedStops | awsorgs/accounts.py:80-97 | the states a poll observes are a prefix of the answers; every state but the last is IN_PROGRESS; a poll that stops before its budget stops on SUCCEEDED or FAILED |
| Creation.PollCreation | awsorgs/accounts.py:80-99 | the loop makes 1 to 5 status queries for the request id, the number `Observed` gives, and keeps the last answer; the "still pending" warning fires exactly when all 5 answers were IN_PROGRESS |
| Creation.EntryCallsShape | awsorgs/accounts.py:73-97 | for one new account, `--exec` makes its CreateAccount with the derived email, then 1 to 5 status queries carrying that account's own request id: 2 to 6 calls, one creation among them; without `--exec` there are none |
| Creation.CreateOne | awsorgs/accounts.py:66-99 | for one new account: the derived email; with `--exec`, the creation followed by the poll's status queries, and the failure error or still-pending warning, exactly as `EntryCalls` and `EntryNotices` give them |
| Creation.HaltFrom | awsorgs/accounts.py:59-65 | the index of the first entry that is missing from the organization but in the in-flight creation list, or the number of entries when no entry is |
| Creation.MissingMembers | awsorgs/accounts.py:59-70 | for any list of entries, every account `Missing` yields is an undeployed entry of that list with its derived email, and every undeployed entry of the list is yielded |
| Creation.StepEffect | awsorgs/accounts.py:59-99 | one iteration of a walk that has not halted: it halts exactly on an entry that is missing and in flight, keeping plan and calls; a deployed entry changes nothing; any other entry appends its new account and its calls |
| Creation.WalkHaltStays | awsorgs/accounts.py:63-65 | once the walk has stopped on an in-flight name, later entries change nothing |
| Creation.WalkHaltedIff | awsorgs/accounts.py:59-65 | the walk has halted after k entries exactly when k is past the first entry that is missing and in flight |
| Creation.WalkPlansMissing | awsorgs/accounts.py:59-70 | while the walk has not halted, it has planned exactly the undeployed entries so far, in spec order, with their emails |
| Creation.WalkTraces | awsorgs/accounts.py:59-99 | while the walk has not halted, its calls are the calls of each undeployed entry so far, one entry after another, in spec order |
| Creation.WalkBeforeHalt | awsorgs/accounts.py:59-99 | up to the first in-flight collision the walk has not halted; its plan and calls are those of the undeployed entries so far |
| Creation.WalkAfterHalt | awsorgs/accounts.py:59-99 | after the first in-flight collision the walk has halted, keeping the plan and calls of the undeployed entries before the collision |
| Creation.WalkFollowsHalt | awsorgs/accounts.py:59-99 | after k entries, the walk has halted exactly when k is past the first in-flight collision; it has planned and called for exactly the undeployed entries before k or before the collision, whichever comes first |
| Creation.WalkCalls | awsorgs/accounts.py:73-99 | with `--exec`, the creation calls in the trace are exactly the planned accounts, in order, and the trace holds 2 to 6 calls per planned account in total; without `--exec` there are no calls |
| Creation.AllDeployedCreatesNothing | awsorgs/accounts.py:59-60 | when every spec name is already deployed, the walk stays in its initial state: nothing planned, called or logged, so a repeated run after a fully successful one is a no-op |
| Creation.WalkSummary | awsorgs/accounts.py:54-99 | the whole walk plans the undeployed entries before the first in-flight collision, with their emails; its calls are those entries' calls, one entry after another; with `--exec` the creations match the plan; without it nothing is called; at most 6 calls per planned account |
| Creation.CreateAccounts | awsorgs/accounts.py:54-99 | the loop, with its `break`, computes `Walk`. The planned accounts are the undeployed entries before the first in-flight collision, with their emails. The calls are, entry after entry, each such entry's creation followed by its own 1 to 5 status queries. With `--exec` the creations match the plan; otherwise nothing is called |
| Alias.ProposedAlias | awsorgs/accounts.py:108-112 | the proposal is the `Alias` of the first spec entry with the account's name when that entry has the key, and otherwise the lower-cased account name |
| Alias.AliasCorrection | awsorgs/accounts.py:121-138 | at most two calls, and none exactly when the first alias already equals the proposal; on an account with at most one alias, the calls leave exactly the proposed alias |
| Alias.AliasCorrectionIdempotent | awsorgs/accounts.py:121-138 | correcting an account that was just corrected issues no call |
| Alias.SetAccountAlias | awsorgs/accounts.py:102-138 | nothing is called without `--exec`, for an account that is not ACTIVE, or when the role cannot be assumed; otherwise, with no alias, one create with the proposal; with a different first alias, a delete of that alias then one create; with a matching first alias, nothing |
| Invitations.LastPage | awsorgs/accounts.py:146-149 | the last page requested is the first answer without a NextToken, and every earlier answer has one |
| Invitations.ConcatAppend | awsorgs/accounts.py:145-150 | accumulating pages keeps each page whole and in page order: the handshakes of two runs of pages are the first run's followed by the second's |
| Invitations.ConcatSnoc | awsorgs/accounts.py:150 | one more page adds its handshakes at the end |
| Invitations.ConcatPlacement | awsorgs/accounts.py:145-150 | the j-th handshake of page i sits at position j after all the handshakes of the earlier pages, so nothing is omitted or duplicated |
| Invitations.ScanInvitedAccounts | awsorgs/accounts.py:141-152 | the result is the handshakes of every page up to the first one without a NextToken, concatenated in page order; one request per page; the first request carries no token, and each later one carries the previous answer's NextToken |
| Invitations.InvitesFor | awsorgs/accounts.py:168-169 | the kept handshakes are exactly those whose ACCOUNT party is the id; the first kept one precedes every other listed handshake for that id |
| Invitations.InviteAccount | awsorgs/accounts.py:155-187 | checks run in order. A missing id, then an invalid one, exits with status 1 (the fatal outcomes, exactly those). An id among the deployed account ids is refused. None of these lists or calls anything. Otherwise the pages are listed: one request per page, the first with no token, each later one with the previous NextToken. An ACCEPTED first handshake for the id refuses, as does a REQUESTED or OPEN one. Otherwise, only with `--exec`, exactly one invitation with Target {Id, ACCOUNT} is made and its handshake is returned |
| Report.UnmanagedMembers | awsorgs/accounts.py:234 | a name is unmanaged exactly when it is a deployed name and not a spec name |
| Report.UnmanagedCount | awsorgs/accounts.py:234 | each unmanaged name occurs as many times as among the deployed names, so duplicates are kept |
| Report.UnmanagedAppend | awsorgs/accounts.py:234 | the unmanaged names of two lists of deployed names are those of the first followed by those of the second, so deployed order is kept |
| Report.UnmanagedAccounts | awsorgs/accounts.py:229-234 | the unmanaged names are exactly the deployed names that no spec entry carries, with deployed multiplicities; the list is empty exactly when every deployed name is in the spec |
| Report.NamesWithStatus | awsorgs/accounts.py:212-213 | the selection holds at most one name per deployed account |
| Report.NamesWithStatusMembers | awsorgs/accounts.py:212-213 | a name is selected exactly when some deployed account with that name has the requested status |
| Report.NamesWithStatusOne | awsorgs/accounts.py:212-213 | one account contributes its name exactly when its status matches |
| Report.NamesWithStatusAppend | awsorgs/accounts.py:212-213 | the selection from two lists of accounts is the first's followed by the second's; with the one-account case this fixes the selection: deployed order and duplicate names are kept |
| Report.SortNames | awsorgs/accounts.py:212 | the sorted list is in code-point order and is a permutation of its input |
| Report.SortedPairwise | awsorgs/accounts.py:212 | in a sorted list every name is at most every later name, not only its neighbour |
| Report.SortedUnique | awsorgs/accounts.py:212 | two sorted lists of the same names are equal, so the report's order is fully determined by the names |
| Report.ProvisionedNames | awsorgs/accounts.py:210-213 | a status other than ACTIVE or SUSPENDED is an error; otherwise the result is the names with that status, sorted |
| Text.LessEqReflexive | awsorgs/accounts.py:212 | every name is at most itself in the order `sorted` uses |
| Text.LessEqTotal | awsorgs/accounts.py:212 | any two names are comparable in the order `sorted` uses |
| Text.LessEqTransitive | awsorgs/accounts.py:212 | that order is transitive |
| Text.LessEqAntisymmetric | awsorgs/accounts.py:212 | two names that are each at most the other are equal |
| Text.LowerChar | awsorgs/accounts.py:112 | an ASCII capital becomes its small letter (the same distance from 'a' as the capital is from 'A'); every other character is kept; no capital remains |
| Text.Lower | awsorgs/accounts.py:112 | lower-casing keeps the length |
| Text.LowerMaps | awsorgs/accounts.py:112 | lower-casing maps every ASCII capital of the name to its small letter, keeps every other character, and leaves no capital |

## Left out

- The boto3 clients and every remote call are not executed. Their answers are inputs and the calls are trace records. The five-second `time.sleep` that follows every IN_PROGRESS answer, the fifth one included, is a comment.
- `awsorgs/utils.py` is not part of this model. From it:
  - `lookup` is modelled as "the first element whose field has the value", and its truthiness as "some element has it". The natural keys (Name, Id) are unique in practice, so this is the one match.
  - `valid_account_id` is a function parameter.
  - `scan_created_accounts` and `scan_deployed_accounts` are inputs. Which creation states the in-flight scan lists is that helper's business.
- Credential acquisition (`get_assume_role_credentials`) is a boolean input. The failure path (lines 115-119) logs the error and then uses a client that was never bound. The model treats it as "no IAM calls for that account" rather than reproducing the crash.
- Raised API errors are not modelled. A failing `create_account_alias` is caught and logged by the source, and in the model the call is recorded either way. A failing `delete_account_alias` would raise out of the function, which the model does not capture.
- Creation.PollCreation: the remote is assumed to answer at least five status queries (`WellFormed`), and a state outside IN_PROGRESS, SUCCEEDED and FAILED cannot occur.
- Invitations.ScanInvitedAccounts: the model requires some answer without a `NextToken`. An endless listing would make the source loop forever.
- Invitations.InviteAccount: the same requirement holds only when the guards let the call reach the listing: an id is given, it is valid, and it is not a member.
- Alias.ApplyIam models IAM's effect only for accounts with at most one alias, which is the limit AWS enforces. A create on an account that already has an alias leaves it unchanged.
- Text.Lower lower-cases ASCII letters only. Python's `str.lower()` follows Unicode.
- Log output is mostly left out. The warnings of `create_accounts` that carry meaning are kept as `Notice` values: not yet available, creation failed, still pending. `invite_account`'s refusals are distinct `InviteOutcome` values, although the source returns None for all of them.
- Left out as presentation only: the report formatting of `display_provisioned_accounts` (lines 214-226) and `display_invited_accounts` (lines 190-202).
- Left out as command-line plumbing: `main` (docopt parsing, config and spec loading, spec validation, mode dispatch).
- The ten-thread fan-out of `set_account_alias` through `queue_threads` is left out; one account is modelled at a time.
- `setup.py` is packaging metadata.
- The model follows the code as written:
  - The walk stops at the first missing name found in the in-flight list, whatever that request's state.
  - Only the first handshake listed for the invited id decides a refusal.
  - A missing id is checked before an invalid one.
