/** The audit run: the two result lists, the per-repository task, and the
    run over every listed repository. Tasks run one after another here;
    main.py runs them on a thread pool, and only the final sort orders the
    output. */
module Audit {
  import opened Types
  import opened RepoList
  import opened Extract
  import opened Reconcile
  import opened Output

  /** The repository lookup by name: the first listed repository so named. */
  function FindRepo(repos: seq<Repository>, name: string): (r: Option<Repository>)
    ensures r.Some? ==> r.value in repos && r.value.name == name
    ensures r.None? <==> forall x :: x in repos ==> x.name != name
    decreases |repos|
  {
    if repos == [] then None
    else if repos[0].name == name then Some(repos[0])
    else
      assert forall x :: x in repos ==> x == repos[0] || x in repos[1..];
      FindRepo(repos[1..], name)
  }

  /** What reading CODEOWNERS of the repository `name` yields; a repository
      the lookup cannot find is reported as an unknown object too. */
  function FetchOf(repos: seq<Repository>, name: string): Fetch
  {
    match FindRepo(repos, name)
    case None => NotFound
    case Some(r) => r.codeowners
  }

  /** What the task for `name` adds to the list of repositories without
      CODEOWNERS. */
  function MissingEntry(repos: seq<Repository>, name: string): seq<string>
  {
    if FetchOf(repos, name).NotFound? then [name] else []
  }

  /** The list of repositories without CODEOWNERS after the tasks for `names`. */
  function MissingNames(repos: seq<Repository>, names: seq<string>): seq<string>
    decreases |names|
  {
    if names == [] then []
    else MissingNames(repos, names[..|names| - 1]) + MissingEntry(repos, names[|names| - 1])
  }

  /** `added` is what the task for `name` adds to the list of conflicts:
      nothing unless CODEOWNERS was read, else what the reconciler records. */
  ghost predicate TaskConflicts(repos: seq<Repository>, name: string, org: string, dir: Directory,
                                rank: map<TeamId, nat>, added: seq<string>)
    requires RankedBy(dir, rank)
  {
    match FindRepo(repos, name)
    case None => added == []
    case Some(r) =>
      match r.codeowners
      case Contents(text) => ReconciledAs(r.name, r.teams, dir, rank, Extracted(text, org), added)
      case _ => added == []
  }

  /** `conflicts` is the list of conflicts after the tasks for `names`, run in
      that order. */
  ghost predicate RunConflicts(repos: seq<Repository>, names: seq<string>, org: string, dir: Directory,
                               rank: map<TeamId, nat>, conflicts: seq<string>)
    requires RankedBy(dir, rank)
    decreases |names|
  {
    if names == [] then conflicts == []
    else exists k :: 0 <= k <= |conflicts| &&
                     RunConflicts(repos, names[..|names| - 1], org, dir, rank, conflicts[..k]) &&
                     TaskConflicts(repos, names[|names| - 1], org, dir, rank, conflicts[k..])
  }

  /** The missing list holds, in task order, exactly the names whose
      CODEOWNERS was not found. */
  lemma {:induction false} MissingNamesMembers(repos: seq<Repository>, names: seq<string>, n: string)
    ensures n in MissingNames(repos, names) <==> n in names && FetchOf(repos, n).NotFound?
    decreases |names|
  {
    if names != [] {
      var init := names[..|names| - 1];
      MissingNamesMembers(repos, init, n);
      assert names == init + [names[|names| - 1]];
    }
  }

  /** Every line of the conflicts list names a listed repository whose
      CODEOWNERS was read and a team it references that has no access path. */
  lemma {:induction false} RunConflictsSound(repos: seq<Repository>, names: seq<string>, org: string, dir: Directory,
                                             rank: map<TeamId, nat>, conflicts: seq<string>, l: string)
    requires RankedBy(dir, rank)
    requires RunConflicts(repos, names, org, dir, rank, conflicts)
    requires l in conflicts
    ensures exists n :: n in names && FindRepo(repos, n).Some? &&
              var r := FindRepo(repos, n).value;
              r.codeowners.Contents? &&
              exists t :: t in Extracted(r.codeowners.text, org) && t !in r.teams &&
                          TeamVerdict(r.teams, dir, rank, t) == Conflict && l == ConflictLine(n, t)
    decreases |names|
  {
    var init, n := names[..|names| - 1], names[|names| - 1];
    assert n in names;
    var k :| 0 <= k <= |conflicts| &&
             RunConflicts(repos, init, org, dir, rank, conflicts[..k]) &&
             TaskConflicts(repos, n, org, dir, rank, conflicts[k..]);
    assert conflicts == conflicts[..k] + conflicts[k..];
    if l in conflicts[..k] {
      RunConflictsSound(repos, init, org, dir, rank, conflicts[..k], l);
      var m :| m in init && FindRepo(repos, m).Some? &&
               var r := FindRepo(repos, m).value;
               r.codeowners.Contents? &&
               exists t :: t in Extracted(r.codeowners.text, org) && t !in r.teams &&
                           TeamVerdict(r.teams, dir, rank, t) == Conflict && l == ConflictLine(m, t);
      assert m in names;
    } else {
      var r := FindRepo(repos, n).value;
      ReconciledAsCharacterized(r.name, r.teams, dir, rank, Extracted(r.codeowners.text, org), conflicts[k..]);
    }
  }

  /** A listed repository whose CODEOWNERS was read and whose lookups all
      succeed gets a line for every referenced team without an access path. */
  lemma {:induction false} RunConflictsComplete(repos: seq<Repository>, names: seq<string>, org: string, dir: Directory,
                                                rank: map<TeamId, nat>, conflicts: seq<string>, n: string, t: TeamId)
    requires RankedBy(dir, rank)
    requires RunConflicts(repos, names, org, dir, rank, conflicts)
    requires n in names && FindRepo(repos, n).Some?
    requires FindRepo(repos, n).value.codeowners.Contents?
    requires var r := FindRepo(repos, n).value;
             forall u :: u in Extracted(r.codeowners.text, org) ==> TeamVerdict(r.teams, dir, rank, u) != LookupFailed
    requires var r := FindRepo(repos, n).value;
             t in Extracted(r.codeowners.text, org) && TeamVerdict(r.teams, dir, rank, t) == Conflict
    ensures ConflictLine(n, t) in conflicts
    decreases |names|
  {
    var init, last := names[..|names| - 1], names[|names| - 1];
    var k :| 0 <= k <= |conflicts| &&
             RunConflicts(repos, init, org, dir, rank, conflicts[..k]) &&
             TaskConflicts(repos, last, org, dir, rank, conflicts[k..]);
    assert conflicts == conflicts[..k] + conflicts[k..];
    if n == last {
      var r := FindRepo(repos, n).value;
      ReconciledAsCharacterized(r.name, r.teams, dir, rank, Extracted(r.codeowners.text, org), conflicts[k..]);
    } else {
      assert names == init + [last];
      RunConflictsComplete(repos, init, org, dir, rank, conflicts[..k], n, t);
    }
  }

  /** The repository lists the run accumulates. */
  class Results {
    var noCodeowners: seq<string>     // repositories with no CODEOWNERS file
    var accessConflicts: seq<string>  // `repo,team` lines

    constructor ()
      ensures noCodeowners == [] && accessConflicts == []
    {
      noCodeowners := [];
      accessConflicts := [];
    }

    /** The reconciliation of one repository whose CODEOWNERS text was read.
        The referenced teams are visited in an unspecified order; a failed
        lookup ends the whole repository, keeping the lines already added. */
    method CheckAcl(repo: Repository, text: string, org: string, dir: Directory, ghost rank: map<TeamId, nat>)
      requires RankedBy(dir, rank)
      modifies this
      ensures noCodeowners == old(noCodeowners)
      ensures old(accessConflicts) <= accessConflicts
      ensures ReconciledAs(repo.name, repo.teams, dir, rank, Extracted(text, org),
                           accessConflicts[|old(accessConflicts)|..])
    {
      var acl := repo.teams;
      var teams := Extracted(text, org);
      var remaining := teams;
      ghost var visited: seq<TeamId> := [];
      while remaining != {}
        invariant remaining <= teams
        invariant Enumerates(visited, teams - remaining)
        invariant noCodeowners == old(noCodeowners)
        invariant accessConflicts == old(accessConflicts) + ReconcileInOrder(repo.name, acl, dir, rank, visited).lines
        invariant !ReconcileInOrder(repo.name, acl, dir, rank, visited).failed
        decreases remaining
      {
        var team :| team in remaining;
        EnumeratesConcat(visited, teams - remaining, [team], {team});
        assert teams - remaining + {team} == teams - (remaining - {team});
        remaining := remaining - {team};
        ReconcileAppend(repo.name, acl, dir, rank, visited, [team]);
        visited := visited + [team];
        if team !in acl {
          if team !in dir {
            // the lookup raised; the handler ends the whole repository
            StopWitness(repo.name, acl, dir, rank, teams, visited, remaining);
            return;
          }
          match dir[team] {
            case None =>
              accessConflicts := accessConflicts + [ConflictLine(repo.name, team)];
            case Some(parent) =>
              var nested := CollectNested(dir, rank, team, parent);
              if nested.None? {
                StopWitness(repo.name, acl, dir, rank, teams, visited, remaining);
                return;
              }
              if !AnyIn(acl, nested.value) {
                accessConflicts := accessConflicts + [ConflictLine(repo.name, team)];
              }
          }
        }
      }
      assert teams - remaining == teams;
    }

    /** The task for one repository name. */
    method CheckForCodeowners(repos: seq<Repository>, name: string, org: string, dir: Directory,
                              ghost rank: map<TeamId, nat>)
      requires RankedBy(dir, rank)
      modifies this
      ensures noCodeowners == old(noCodeowners) + MissingEntry(repos, name)
      ensures old(accessConflicts) <= accessConflicts
      ensures TaskConflicts(repos, name, org, dir, rank, accessConflicts[|old(accessConflicts)|..])
    {
      var found := FindRepo(repos, name);
      match found {
        case None =>
          noCodeowners := noCodeowners + [name];
        case Some(repo) =>
          match repo.codeowners {
            case Contents(text) =>
              CheckAcl(repo, text, org, dir, rank);
            case NotFound =>
              noCodeowners := noCodeowners + [name];
            case RateLimited =>
            case OtherFailure =>
          }
      }
    }

    /** The text appended to each output file. */
    method WriteResults() returns (noCodeownersText: string, accessConflictsText: string)
      ensures noCodeownersText == Render(noCodeowners)
      ensures accessConflictsText == Render(accessConflicts)
    {
      noCodeownersText := Emit(noCodeowners);
      accessConflictsText := Emit(accessConflicts);
    }
  }

  /** One whole run: list the repositories, run every task, and produce the
      text appended to the two output files. A rate limit while listing
      leaves both lists empty, so nothing is appended. */
  method RunAudit(listing: Listing, org: string, dir: Directory, ghost rank: map<TeamId, nat>)
    returns (noCodeownersText: string, accessConflictsText: string, ghost conflicts: seq<string>)
    requires RankedBy(dir, rank)
    ensures listing.ListingRateLimited? ==> noCodeownersText == "" && accessConflictsText == ""
    ensures listing.Listed? ==>
              && noCodeownersText == Render(MissingNames(listing.repos, Selected(listing.repos)))
              && accessConflictsText == Render(conflicts)
              && RunConflicts(listing.repos, Selected(listing.repos), org, dir, rank, conflicts)
  {
    var results := new Results();
    if listing.Listed? {
      var repos := listing.repos;
      var names := ListRepos(repos);
      for i := 0 to |names|
        invariant results.noCodeowners == MissingNames(repos, names[..i])
        invariant RunConflicts(repos, names[..i], org, dir, rank, results.accessConflicts)
      {
        ghost var before := results.accessConflicts;
        results.CheckForCodeowners(repos, names[i], org, dir, rank);
        assert names[..i + 1][..i] == names[..i];
        assert results.accessConflicts[..|before|] == before;
        assert RunConflicts(repos, names[..i + 1], org, dir, rank, results.accessConflicts);
      }
      assert names[..|names|] == names;
    }
    noCodeownersText, accessConflictsText := results.WriteResults();
    conflicts := results.accessConflicts;
  }
}
