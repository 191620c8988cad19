/** `unmanaged_accounts` and the name selection of
    `display_provisioned_accounts`. */
module Report {
  import opened Records
  import opened Text

  /** The names of the accounts, in order. */
  function Names(accounts: seq<DeployedAccount>): (r: seq<string>)
    ensures |r| == |accounts|
    ensures forall i :: 0 <= i < |accounts| ==> r[i] == accounts[i].name
  {
    seq(|accounts|, i requires 0 <= i < |accounts| => accounts[i].name)
  }

  /** The names of the spec entries, in order. */
  function SpecNames(specs: seq<AccountSpec>): (r: seq<string>)
    ensures |r| == |specs|
    ensures forall i :: 0 <= i < |specs| ==> r[i] == specs[i].name
  {
    seq(|specs|, i requires 0 <= i < |specs| => specs[i].name)
  }

  /** The names of `names` that are not among `specNames`, in order. */
  function Unmanaged(names: seq<string>, specNames: seq<string>): (r: seq<string>)
    ensures |r| <= |names|
  {
    if names == [] then []
    else (if names[0] in specNames then [] else [names[0]]) + Unmanaged(names[1..], specNames)
  }

  /** A name is unmanaged exactly when it is deployed and not in the spec. */
  lemma {:induction false} UnmanagedMembers(names: seq<string>, specNames: seq<string>)
    ensures forall x :: x in Unmanaged(names, specNames) <==> x in names && x !in specNames
  {
    if names != [] {
      UnmanagedMembers(names[1..], specNames);
      assert names == [names[0]] + names[1..];
    }
  }

  /** Every unmanaged name occurs as often as among the deployed names:
      duplicates are kept. */
  lemma {:induction false} UnmanagedCount(names: seq<string>, specNames: seq<string>)
    ensures forall x :: multiset(Unmanaged(names, specNames))[x] ==
              if x in specNames then 0 else multiset(names)[x]
  {
    if names != [] {
      UnmanagedCount(names[1..], specNames);
      assert names == [names[0]] + names[1..];
    }
  }

  /** Unmanaged names of two lists are those of each, in order. */
  lemma {:induction false} UnmanagedAppend(xs: seq<string>, ys: seq<string>, specNames: seq<string>)
    ensures Unmanaged(xs + ys, specNames) == Unmanaged(xs, specNames) + Unmanaged(ys, specNames)
  {
    if xs == [] {
      assert xs + ys == ys;
    } else {
      assert (xs + ys)[0] == xs[0] && (xs + ys)[1..] == xs[1..] + ys;
      UnmanagedAppend(xs[1..], ys, specNames);
    }
  }

  lemma NamesHaveName(deployed: seq<DeployedAccount>)
    ensures forall x :: x in Names(deployed) <==> HasName(deployed, x)
  {
    var names := Names(deployed);
    forall x | x in names
      ensures HasName(deployed, x)
    {
      var i :| 0 <= i < |names| && names[i] == x;
      assert deployed[i].name == x;
    }
  }

  lemma SpecNamesInSpec(specs: seq<AccountSpec>)
    ensures forall x :: x in SpecNames(specs) <==> InSpec(specs, x)
  {
    var specNames := SpecNames(specs);
    forall x | x in specNames
      ensures InSpec(specs, x)
    {
      var i :| 0 <= i < |specNames| && specNames[i] == x;
      assert specs[i].name == x;
    }
  }

  /** `unmanaged_accounts`: the deployed names that no spec entry carries. */
  function UnmanagedAccounts(deployed: seq<DeployedAccount>, specs: seq<AccountSpec>): (r: seq<string>)
    ensures forall x :: x in r <==> HasName(deployed, x) && !InSpec(specs, x)
    ensures forall x :: multiset(r)[x] == if InSpec(specs, x) then 0 else multiset(Names(deployed))[x]
    ensures r == [] <==> forall i :: 0 <= i < |deployed| ==> InSpec(specs, deployed[i].name)
  {
    var names, specNames := Names(deployed), SpecNames(specs);
    NamesHaveName(deployed);
    SpecNamesInSpec(specs);
    UnmanagedMembers(names, specNames);
    UnmanagedCount(names, specNames);
    var r := Unmanaged(names, specNames);
    assert r == [] ==> forall i :: 0 <= i < |deployed| ==> InSpec(specs, deployed[i].name) by {
      if r == [] {
        forall i | 0 <= i < |deployed| ensures InSpec(specs, deployed[i].name) {
          assert names[i] in names;
        }
      }
    }
    r
  }

  /** The `Status` strings an account report may select. */
  function StatusName(s: AccountStatus): string {
    match s
    case Active => "ACTIVE"
    case Suspended => "SUSPENDED"
  }

  /** The names of the accounts whose status is `status`, in deployed order. */
  function NamesWithStatus(deployed: seq<DeployedAccount>, status: string): (r: seq<string>)
    ensures |r| <= |deployed|
  {
    if deployed == [] then []
    else (if StatusName(deployed[0].status) == status then [deployed[0].name] else []) +
         NamesWithStatus(deployed[1..], status)
  }

  /** A name is selected exactly when some deployed account with that name has
      the requested status. */
  lemma {:induction false} NamesWithStatusMembers(deployed: seq<DeployedAccount>, status: string)
    ensures forall x :: x in NamesWithStatus(deployed, status) <==>
              exists i :: 0 <= i < |deployed| && deployed[i].name == x && StatusName(deployed[i].status) == status
  {
    if deployed != [] {
      NamesWithStatusMembers(deployed[1..], status);
      assert forall i :: 1 <= i < |deployed| ==> deployed[1..][i - 1] == deployed[i];
    }
  }

  /** The selection from one account: its name when its status matches. */
  lemma NamesWithStatusOne(d: DeployedAccount, status: string)
    ensures NamesWithStatus([d], status) == if StatusName(d.status) == status then [d.name] else []
  {
    assert [d][1..] == [];
  }

  /** Selecting from two lists of accounts selects from the first, then from
      the second: deployed order and duplicate names are kept. */
  lemma {:induction false} NamesWithStatusAppend(xs: seq<DeployedAccount>, ys: seq<DeployedAccount>, status: string)
    ensures NamesWithStatus(xs + ys, status) == NamesWithStatus(xs, status) + NamesWithStatus(ys, status)
  {
    if xs == [] {
      assert xs + ys == ys;
    } else {
      var head := if StatusName(xs[0].status) == status then [xs[0].name] else [];
      assert (xs + ys)[0] == xs[0] && (xs + ys)[1..] == xs[1..] + ys;
      assert NamesWithStatus(xs + ys, status) == head + NamesWithStatus(xs[1..] + ys, status);
      NamesWithStatusAppend(xs[1..], ys, status);
    }
  }

  /** Each name is at most the next one in code-point order. */
  predicate Sorted(s: seq<string>) {
    forall i :: 0 <= i < |s| - 1 ==> LessEq(s[i], s[i + 1])
  }

  /** A sorted list is in order pairwise, not only between neighbours. */
  lemma {:induction false} SortedPairwise(s: seq<string>, i: nat, j: nat)
    requires Sorted(s) && i <= j < |s|
    ensures LessEq(s[i], s[j])
    decreases j - i
  {
    if i == j {
      LessEqReflexive(s[i]);
    } else {
      SortedPairwise(s, i + 1, j);
      LessEqTransitive(s[i], s[i + 1], s[j]);
    }
  }

  /** The first name of a sorted list is at most every name in it. */
  lemma SortedFirstLeast(s: seq<string>, x: string)
    requires Sorted(s) && x in s
    ensures LessEq(s[0], x)
  {
    var j :| 0 <= j < |s| && s[j] == x;
    SortedPairwise(s, 0, j);
  }

  lemma SortedTail(s: seq<string>)
    requires Sorted(s) && s != []
    ensures Sorted(s[1..])
  {
    forall i | 0 <= i < |s[1..]| - 1
      ensures LessEq(s[1..][i], s[1..][i + 1])
    {
      assert s[1..][i] == s[i + 1] && s[1..][i + 1] == s[i + 2];
    }
  }

  lemma MultisetTail(s: seq<string>)
    requires s != []
    ensures multiset(s[1..]) == multiset(s) - multiset{s[0]}
  {
    assert s == [s[0]] + s[1..];
  }

  /** Two sorted lists of the same names start with the same name. */
  lemma SortedSameFirst(s: seq<string>, t: seq<string>)
    requires Sorted(s) && Sorted(t) && multiset(s) == multiset(t) && s != []
    ensures t != [] && s[0] == t[0]
  {
    assert |t| == |multiset(t)| == |multiset(s)| == |s|;
    assert s[0] in multiset(t) && t[0] in multiset(s);
    SortedFirstLeast(t, s[0]);
    SortedFirstLeast(s, t[0]);
    LessEqAntisymmetric(s[0], t[0]);
  }

  lemma SameFirstAndTail(s: seq<string>, t: seq<string>)
    requires s != [] && t != [] && s[0] == t[0] && s[1..] == t[1..]
    ensures s == t
  {
    assert s == [s[0]] + s[1..];
    assert t == [t[0]] + t[1..];
  }

  /** Two sorted lists of the same names are equal: the order `sorted`
      produces is the only sorted order of those names. */
  lemma {:induction false} SortedUnique(s: seq<string>, t: seq<string>)
    requires Sorted(s) && Sorted(t) && multiset(s) == multiset(t)
    ensures s == t
  {
    if s == [] {
      assert |t| == |multiset(t)| == 0;
    } else {
      SortedSameFirst(s, t);
      MultisetTail(s);
      MultisetTail(t);
      SortedTail(s);
      SortedTail(t);
      SortedUnique(s[1..], t[1..]);
      SameFirstAndTail(s, t);
    }
  }

  function Insert(x: string, s: seq<string>): (r: seq<string>)
    requires Sorted(s)
    ensures Sorted(r)
    ensures multiset(r) == multiset(s) + multiset{x}
    ensures r != [] && (r[0] == x || (s != [] && r[0] == s[0]))
  {
    if s == [] then [x]
    else if LessEq(x, s[0]) then [x] + s
    else
      var rest := Insert(x, s[1..]);
      LessEqTotal(x, s[0]);
      assert s == [s[0]] + s[1..];
      [s[0]] + rest
  }

  /** Python's `sorted` on a list of names. */
  function SortNames(names: seq<string>): (r: seq<string>)
    ensures Sorted(r)
    ensures multiset(r) == multiset(names)
  {
    if names == [] then []
    else
      assert names == [names[0]] + names[1..];
      Insert(names[0], SortNames(names[1..]))
  }

  datatype ReportError = BadStatus(status: string)

  datatype Result<+T> = Ok(value: T) | Err(error: ReportError)

  /** The status check and the sorted name list of `display_provisioned_accounts`. */
  function ProvisionedNames(deployed: seq<DeployedAccount>, status: string): (r: Result<seq<string>>)
    ensures r.Err? <==> status != "ACTIVE" && status != "SUSPENDED"
    ensures r.Ok? ==> Sorted(r.value) && multiset(r.value) == multiset(NamesWithStatus(deployed, status))
  {
    if status != "ACTIVE" && status != "SUSPENDED" then Err(BadStatus(status))
    else Ok(SortNames(NamesWithStatus(deployed, status)))
  }
}
