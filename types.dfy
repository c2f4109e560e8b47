/** The in-memory picture of one GitHub organization that replaces the API
    client: repositories as records, the team directory as a map. */
module Types {

  datatype Option<T> = None | Some(value: T)

  /** A team identifier. main.py keeps repository access lists by team
      name, tests them against CODEOWNERS slugs and looks parents up by
      name through a by-slug query; the model uses one identifier for all
      three, which is exact whenever a team's name equals its slug. */
  type TeamId = string

  /** What reading the file `CODEOWNERS` at the repository root yields. */
  datatype Fetch =
    | Contents(text: string)  // the decoded file content
    | NotFound                // the client reports an unknown object
    | RateLimited             // the client reports the rate limit exceeded
    | OtherFailure            // any other error: it escapes the task unhandled

  datatype Repository = Repository(
    name: string,
    private: bool,
    archived: bool,
    teams: seq<TeamId>,       // names of the teams with direct access
    codeowners: Fetch)

  /** The outcome of enumerating the organization's repositories. */
  datatype Listing = Listed(repos: seq<Repository>) | ListingRateLimited

  /** The team directory: every team the by-slug lookup can find, mapped to
      its parent (None for a root). A team missing here is a failed lookup. */
  type Directory = map<TeamId, Option<TeamId>>

  /** `rank` witnesses that the parent relation of `dir` is acyclic: every
      parent the directory knows ranks strictly below its child. */
  ghost predicate RankedBy(dir: Directory, rank: map<TeamId, nat>)
  {
    && (forall t :: t in dir ==> t in rank)
    && (forall t :: t in dir && dir[t].Some? && dir[t].value in dir ==>
          rank[dir[t].value] < rank[t])
  }
}
