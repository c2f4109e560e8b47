/** The access reconciler: whether a team named in CODEOWNERS reaches the
    repository through its own access or that of an ancestor team. */
module Reconcile {
  import opened Types

  /** Termination measure of the parent walk. */
  ghost function Height(dir: Directory, rank: map<TeamId, nat>, t: TeamId): nat
  {
    if t in dir && t in rank then rank[t] + 1 else 0
  }

  /** `c` is the team `t` followed by each of its ancestors, ending with a
      root team; every one of them is known to the directory. */
  ghost predicate IsChainFrom(dir: Directory, t: TeamId, c: seq<TeamId>)
  {
    && |c| > 0 && c[0] == t
    && (forall i :: 0 <= i < |c| ==> c[i] in dir)
    && (forall i :: 0 <= i < |c| - 1 ==> dir[c[i]] == Some(c[i + 1]))
    && dir[c[|c| - 1]] == None
  }

  /** The team and all its ancestors, root included, or None when one of
      the lookups along the way fails. */
  ghost function ChainFrom(dir: Directory, rank: map<TeamId, nat>, t: TeamId): (r: Option<seq<TeamId>>)
    requires RankedBy(dir, rank)
    ensures r.Some? ==> IsChainFrom(dir, t, r.value)
    decreases Height(dir, rank, t)
  {
    if t !in dir then None
    else match dir[t]
      case None => Some([t])
      case Some(p) =>
        match ChainFrom(dir, rank, p)
        case None => None
        case Some(c) => Some([t] + c)
  }

  /** The walk computes the one ancestor chain there is, and fails exactly
      when there is none. */
  lemma {:induction false} ChainFromExact(dir: Directory, rank: map<TeamId, nat>, t: TeamId, c: seq<TeamId>)
    requires RankedBy(dir, rank)
    ensures ChainFrom(dir, rank, t) == Some(c) <==> IsChainFrom(dir, t, c)
    decreases |c|
  {
    if IsChainFrom(dir, t, c) {
      if |c| == 1 {
        assert c == [t];
      } else {
        assert IsChainFrom(dir, c[1], c[1..]);
        ChainFromExact(dir, rank, c[1], c[1..]);
        assert [t] + c[1..] == c;
      }
    }
  }

  /** Along an ancestor chain ranks strictly decrease, so the walk never
      visits a team twice. */
  lemma {:induction false} ChainDistinct(dir: Directory, rank: map<TeamId, nat>, t: TeamId, c: seq<TeamId>)
    requires RankedBy(dir, rank)
    requires IsChainFrom(dir, t, c)
    ensures forall i, j :: 0 <= i < j < |c| ==> rank[c[j]] < rank[c[i]] && c[i] != c[j]
    decreases |c|
  {
    if |c| > 1 {
      assert IsChainFrom(dir, c[1], c[1..]);
      ChainDistinct(dir, rank, c[1], c[1..]);
      forall i, j | 0 <= i < j < |c|
        ensures rank[c[j]] < rank[c[i]]
      {
        if i > 0 {
          assert c[i] == c[1..][i - 1] && c[j] == c[1..][j - 1];
        } else if j > 1 {
          assert c[j] == c[1..][j - 1];
        }
      }
    }
  }

  /** main.py's `any(x in nested for x in access_list)`. */
  function AnyIn(acl: seq<TeamId>, chain: seq<TeamId>): (b: bool)
    ensures b <==> exists x :: x in acl && x in chain
    decreases |acl|
  {
    if acl == [] then false
    else if acl[0] in chain then true
    else
      assert forall x :: x in acl ==> x == acl[0] || x in acl[1..];
      AnyIn(acl[1..], chain)
  }

  datatype Verdict = Satisfied | Conflict | LookupFailed

  /** What the reconciler concludes about one referenced team. A team on the
      access list is settled without a lookup; otherwise its chain decides. */
  ghost function TeamVerdict(acl: seq<TeamId>, dir: Directory, rank: map<TeamId, nat>, t: TeamId): Verdict
    requires RankedBy(dir, rank)
  {
    if t in acl then Satisfied
    else match ChainFrom(dir, rank, t)
      case None => LookupFailed
      case Some(c) => if AnyIn(acl, c) then Satisfied else Conflict
  }

  /** A conflict is recorded exactly when the team and all of its ancestors
      are missing from the access list. */
  lemma ConflictIffChainMissesAcl(acl: seq<TeamId>, dir: Directory, rank: map<TeamId, nat>, t: TeamId, c: seq<TeamId>)
    requires RankedBy(dir, rank)
    requires IsChainFrom(dir, t, c)
    ensures TeamVerdict(acl, dir, rank, t) != LookupFailed
    ensures TeamVerdict(acl, dir, rank, t) == Conflict <==> forall x :: x in c ==> x !in acl
  {
    ChainFromExact(dir, rank, t, c);
  }

  /** Processing of the repository stops at a team exactly when that team is
      not on the access list and has no complete ancestor chain. */
  lemma LookupFailedIffNoChain(acl: seq<TeamId>, dir: Directory, rank: map<TeamId, nat>, t: TeamId)
    requires RankedBy(dir, rank)
    ensures TeamVerdict(acl, dir, rank, t) == LookupFailed <==>
            t !in acl && forall c :: !IsChainFrom(dir, t, c)
  {
    if TeamVerdict(acl, dir, rank, t) != LookupFailed && t !in acl {
      ChainFromExact(dir, rank, t, ChainFrom(dir, rank, t).value);
    }
    forall c | IsChainFrom(dir, t, c)
      ensures ChainFrom(dir, rank, t).Some?
    {
      ChainFromExact(dir, rank, t, c);
    }
  }

  /** Access granted to a grandparent reaches its grandchild: the chain of
      `team-y` runs through `team-m` to `team-z`, which has access. */
  lemma GrandparentAccessScenario()
    ensures var dir := map["team-y" := Some("team-m"), "team-m" := Some("team-z"), "team-z" := None];
            var rank := map["team-y" := 2, "team-m" := 1, "team-z" := 0];
            RankedBy(dir, rank) && TeamVerdict(["team-z"], dir, rank, "team-y") == Satisfied
  {
    var dir := map["team-y" := Some("team-m"), "team-m" := Some("team-z"), "team-z" := None];
    var rank := map["team-y" := 2, "team-m" := 1, "team-z" := 0];
    ConflictIffChainMissesAcl(["team-z"], dir, rank, "team-y", ["team-y", "team-m", "team-z"]);
  }

  /** The line recorded for a conflict. */
  function ConflictLine(repo: string, team: TeamId): string
  {
    repo + "," + team
  }

  lemma ConflictLineInjective(repo: string, a: TeamId, b: TeamId)
    requires ConflictLine(repo, a) == ConflictLine(repo, b)
    ensures a == b
  {
    var n := |repo| + 1;
    assert a == ConflictLine(repo, a)[n..];
    assert b == ConflictLine(repo, b)[n..];
  }

  /** The lines recorded for one repository, and whether a failed lookup
      cut processing short. */
  datatype Reconciled = Reconciled(lines: seq<string>, failed: bool)

  /** The reconciler's loop when the referenced teams come in `order`. A
      failed lookup ends the repository; lines recorded before it stay. */
  ghost function ReconcileInOrder(repo: string, acl: seq<TeamId>, dir: Directory, rank: map<TeamId, nat>,
                                  order: seq<TeamId>): Reconciled
    requires RankedBy(dir, rank)
    decreases |order|
  {
    if order == [] then Reconciled([], false)
    else match TeamVerdict(acl, dir, rank, order[0])
      case Satisfied => ReconcileInOrder(repo, acl, dir, rank, order[1..])
      case Conflict =>
        var rest := ReconcileInOrder(repo, acl, dir, rank, order[1..]);
        Reconciled([ConflictLine(repo, order[0])] + rest.lines, rest.failed)
      case LookupFailed => Reconciled([], true)
  }

  /** Processing `a` and then `b` is processing `a + b`, unless `a` already
      failed, in which case `b` is never looked at. */
  lemma {:induction false} ReconcileAppend(repo: string, acl: seq<TeamId>, dir: Directory, rank: map<TeamId, nat>,
                                           a: seq<TeamId>, b: seq<TeamId>)
    requires RankedBy(dir, rank)
    ensures var ra := ReconcileInOrder(repo, acl, dir, rank, a);
            var rb := ReconcileInOrder(repo, acl, dir, rank, b);
            ReconcileInOrder(repo, acl, dir, rank, a + b) ==
              if ra.failed then ra else Reconciled(ra.lines + rb.lines, rb.failed)
    decreases |a|
  {
    if a == [] {
      assert a + b == b;
    } else {
      assert (a + b)[0] == a[0];
      assert (a + b)[1..] == a[1..] + b;
      ReconcileAppend(repo, acl, dir, rank, a[1..], b);
    }
  }

  /** Every recorded line names a team of `order` whose verdict is a conflict. */
  lemma {:induction false} ReconcileSound(repo: string, acl: seq<TeamId>, dir: Directory, rank: map<TeamId, nat>,
                                          order: seq<TeamId>, l: string)
    requires RankedBy(dir, rank)
    requires l in ReconcileInOrder(repo, acl, dir, rank, order).lines
    ensures exists t :: t in order && t !in acl && TeamVerdict(acl, dir, rank, t) == Conflict &&
                        l == ConflictLine(repo, t)
    decreases |order|
  {
    var r := ReconcileInOrder(repo, acl, dir, rank, order);
    if TeamVerdict(acl, dir, rank, order[0]) == Conflict && l == ConflictLine(repo, order[0]) {
    } else {
      ReconcileSound(repo, acl, dir, rank, order[1..], l);
      var t :| t in order[1..] && t !in acl && TeamVerdict(acl, dir, rank, t) == Conflict &&
               l == ConflictLine(repo, t);
      assert t in order;
    }
  }

  /** Processing fails exactly when some team of `order` fails its lookup;
      otherwise every conflicted team of `order` gets its line. */
  lemma {:induction false} ReconcileComplete(repo: string, acl: seq<TeamId>, dir: Directory, rank: map<TeamId, nat>,
                                             order: seq<TeamId>)
    requires RankedBy(dir, rank)
    ensures ReconcileInOrder(repo, acl, dir, rank, order).failed <==>
            exists t :: t in order && TeamVerdict(acl, dir, rank, t) == LookupFailed
    ensures !ReconcileInOrder(repo, acl, dir, rank, order).failed ==>
            forall t :: t in order && TeamVerdict(acl, dir, rank, t) == Conflict ==>
              ConflictLine(repo, t) in ReconcileInOrder(repo, acl, dir, rank, order).lines
    decreases |order|
  {
    if order != [] {
      ReconcileComplete(repo, acl, dir, rank, order[1..]);
      assert forall t :: t in order ==> t == order[0] || t in order[1..];
    }
  }

  /** Each team of a duplicate-free `order` contributes at most one line. */
  lemma {:induction false} ReconcileDistinct(repo: string, acl: seq<TeamId>, dir: Directory, rank: map<TeamId, nat>,
                                             order: seq<TeamId>)
    requires RankedBy(dir, rank)
    requires forall i, j :: 0 <= i < j < |order| ==> order[i] != order[j]
    ensures var lines := ReconcileInOrder(repo, acl, dir, rank, order).lines;
            forall i, j :: 0 <= i < j < |lines| ==> lines[i] != lines[j]
    decreases |order|
  {
    if order != [] {
      var tail := order[1..];
      ReconcileDistinct(repo, acl, dir, rank, tail);
      assert forall i, j :: 0 <= i < j < |ReconcileInOrder(repo, acl, dir, rank, tail).lines| ==>
               ReconcileInOrder(repo, acl, dir, rank, tail).lines[i] != ReconcileInOrder(repo, acl, dir, rank, tail).lines[j];
      if TeamVerdict(acl, dir, rank, order[0]) == Conflict {
        var rest := ReconcileInOrder(repo, acl, dir, rank, tail).lines;
        forall l | l in rest
          ensures l != ConflictLine(repo, order[0])
        {
          ReconcileSound(repo, acl, dir, rank, tail, l);
          var t :| t in tail && l == ConflictLine(repo, t);
          if l == ConflictLine(repo, order[0]) {
            ConflictLineInjective(repo, t, order[0]);
          }
        }
        var lines := [ConflictLine(repo, order[0])] + rest;
        forall i, j | 0 <= i < j < |lines|
          ensures lines[i] != lines[j]
        {
          if i == 0 {
            assert lines[j] == rest[j - 1] && rest[j - 1] in rest;
          } else {
            assert lines[i] == rest[i - 1] && lines[j] == rest[j - 1];
          }
        }
      }
    }
  }

  /** `order` lists each element of `teams` exactly once. */
  ghost predicate Enumerates(order: seq<TeamId>, teams: set<TeamId>)
  {
    && (forall t :: t in order <==> t in teams)
    && (forall i, j :: 0 <= i < j < |order| ==> order[i] != order[j])
  }

  /** `added` is what the reconciler records for a repository when its loop
      visits the referenced teams in some order; main.py iterates a set,
      so its order is not determined. */
  ghost predicate ReconciledAs(repo: string, acl: seq<TeamId>, dir: Directory, rank: map<TeamId, nat>,
                               teams: set<TeamId>, added: seq<string>)
    requires RankedBy(dir, rank)
  {
    exists order :: Enumerates(order, teams) && ReconcileInOrder(repo, acl, dir, rank, order).lines == added
  }

  /** Whatever the order, the recorded lines are distinct conflicts of
      referenced teams, and when no lookup fails they are all of them. */
  lemma ReconciledAsCharacterized(repo: string, acl: seq<TeamId>, dir: Directory, rank: map<TeamId, nat>,
                                  teams: set<TeamId>, added: seq<string>)
    requires RankedBy(dir, rank)
    requires ReconciledAs(repo, acl, dir, rank, teams, added)
    ensures forall i, j :: 0 <= i < j < |added| ==> added[i] != added[j]
    ensures forall l :: l in added ==>
              exists t :: t in teams && t !in acl && TeamVerdict(acl, dir, rank, t) == Conflict &&
                          l == ConflictLine(repo, t)
    ensures (forall t :: t in teams ==> TeamVerdict(acl, dir, rank, t) != LookupFailed) ==>
              forall t :: t in teams && TeamVerdict(acl, dir, rank, t) == Conflict ==>
                ConflictLine(repo, t) in added
  {
    var order :| Enumerates(order, teams) && ReconcileInOrder(repo, acl, dir, rank, order).lines == added;
    ReconcileDistinct(repo, acl, dir, rank, order);
    ReconcileComplete(repo, acl, dir, rank, order);
    forall l | l in added
      ensures exists t :: t in teams && t !in acl && TeamVerdict(acl, dir, rank, t) == Conflict &&
                          l == ConflictLine(repo, t)
    {
      ReconcileSound(repo, acl, dir, rank, order, l);
    }
  }

  /** Some order lists a finite set of teams. */
  lemma {:induction false} EnumerationExists(teams: set<TeamId>) returns (order: seq<TeamId>)
    ensures Enumerates(order, teams)
    decreases teams
  {
    if teams == {} {
      order := [];
    } else {
      var t :| t in teams;
      var rest := EnumerationExists(teams - {t});
      order := [t] + rest;
      forall i, j | 0 <= i < j < |order|
        ensures order[i] != order[j]
      {
        if i > 0 {
          assert order[i] == rest[i - 1];
        }
        assert order[j] == rest[j - 1];
      }
    }
  }

  lemma EnumeratesConcat(a: seq<TeamId>, sa: set<TeamId>, b: seq<TeamId>, sb: set<TeamId>)
    requires Enumerates(a, sa) && Enumerates(b, sb) && sa !! sb
    ensures Enumerates(a + b, sa + sb)
  {
    forall i, j | 0 <= i < j < |a + b|
      ensures (a + b)[i] != (a + b)[j]
    {
      if j < |a| {
        assert (a + b)[i] == a[i] && (a + b)[j] == a[j];
      } else if i >= |a| {
        assert (a + b)[i] == b[i - |a|] && (a + b)[j] == b[j - |a|];
      } else {
        assert (a + b)[i] == a[i] && a[i] in sa;
        assert (a + b)[j] == b[j - |a|] && b[j - |a|] in sb;
      }
    }
  }

  /** When processing stops at a failed lookup after `done`, the teams not
      yet visited may come in any order: the recorded lines are the same. */
  lemma StopWitness(repo: string, acl: seq<TeamId>, dir: Directory, rank: map<TeamId, nat>,
                    teams: set<TeamId>, done: seq<TeamId>, remaining: set<TeamId>)
    requires RankedBy(dir, rank)
    requires remaining <= teams && Enumerates(done, teams - remaining)
    requires ReconcileInOrder(repo, acl, dir, rank, done).failed
    ensures ReconciledAs(repo, acl, dir, rank, teams, ReconcileInOrder(repo, acl, dir, rank, done).lines)
  {
    var rest := EnumerationExists(remaining);
    EnumeratesConcat(done, teams - remaining, rest, remaining);
    assert (teams - remaining) + remaining == teams;
    ReconcileAppend(repo, acl, dir, rank, done, rest);
  }

  /** The ancestor walk of main.py's `while True` loop, entered for a
      team with a parent: it collects the team and every ancestor up to the
      root, or reports that a lookup failed. */
  method CollectNested(dir: Directory, ghost rank: map<TeamId, nat>, team: TeamId, parent: TeamId)
    returns (nested: Option<seq<TeamId>>)
    requires RankedBy(dir, rank)
    requires team in dir && dir[team] == Some(parent)
    ensures nested == ChainFrom(dir, rank, team)
  {
    var teams := [team];
    var current := parent;
    while true
      invariant ChainFrom(dir, rank, team) ==
                match ChainFrom(dir, rank, current)
                case None => None
                case Some(c) => Some(teams + c)
      decreases Height(dir, rank, current)
    {
      if current !in dir {
        return None;  // the by-slug lookup raised
      }
      ghost var before := teams;
      teams := teams + [current];
      match dir[current] {
        case Some(p) =>
          if ChainFrom(dir, rank, p).Some? {
            assert before + ([current] + ChainFrom(dir, rank, p).value) == teams + ChainFrom(dir, rank, p).value;
          }
          current := p;
        case None =>
          break;
      }
    }
    return Some(teams);
  }
}
