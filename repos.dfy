/** The repository lister: the names of the private, non-archived
    repositories, in enumeration order. */
module RepoList {
  import opened Types

  /** The repositories the audit looks at. */
  predicate Audited(r: Repository)
  {
    r.private && !r.archived
  }

  /** Specification of the lister. */
  function Selected(repos: seq<Repository>): seq<string>
    decreases |repos|
  {
    if repos == [] then []
    else (if Audited(repos[0]) then [repos[0].name] else []) + Selected(repos[1..])
  }

  /** Selection distributes over concatenation: it keeps enumeration order. */
  lemma {:induction false} SelectedAppend(a: seq<Repository>, b: seq<Repository>)
    ensures Selected(a + b) == Selected(a) + Selected(b)
    decreases |a|
  {
    if a == [] {
      assert a + b == b;
    } else {
      assert (a + b)[1..] == a[1..] + b;
      SelectedAppend(a[1..], b);
    }
  }

  /** A name is listed exactly when some audited repository carries it. */
  lemma {:induction false} SelectedMembers(repos: seq<Repository>, n: string)
    ensures n in Selected(repos) <==>
            exists i :: 0 <= i < |repos| && Audited(repos[i]) && repos[i].name == n
    decreases |repos|
  {
    if repos != [] {
      SelectedMembers(repos[1..], n);
      if n in Selected(repos[1..]) {
        var i :| 0 <= i < |repos[1..]| && Audited(repos[1..][i]) && repos[1..][i].name == n;
        assert Audited(repos[i + 1]) && repos[i + 1].name == n;
      }
      if exists i :: 0 <= i < |repos| && Audited(repos[i]) && repos[i].name == n {
        var i :| 0 <= i < |repos| && Audited(repos[i]) && repos[i].name == n;
        if i > 0 {
          assert repos[1..][i - 1] == repos[i];
        }
      }
    }
  }

  /** The lister's loop over the enumeration. */
  method ListRepos(repos: seq<Repository>) returns (names: seq<string>)
    ensures names == Selected(repos)
  {
    names := [];
    for i := 0 to |repos|
      invariant names == Selected(repos[..i])
    {
      assert repos[..i + 1] == repos[..i] + [repos[i]];
      SelectedAppend(repos[..i], [repos[i]]);
      assert Selected([repos[i]]) == if Audited(repos[i]) then [repos[i].name] else [];
      if repos[i].private && !repos[i].archived {
        names := names + [repos[i].name];
      }
    }
    assert repos[..|repos|] == repos;
  }
}
