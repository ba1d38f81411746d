/** The parts of the GitHub REST responses that the scraper reads, as values. Each
    record keeps only the JSON fields the modelled code looks at. Timestamps are
    whole seconds in UTC; strings the code only copies stay strings. */
module GitHubApi {
  import opened Wrappers

  /** One entry of a commit listing (`/commits` or `/pulls/{n}/commits`).
      `authorLogin`/`committerLogin` are the `login` of the GitHub accounts
      (`None` when the account or its login is missing); `authorName` and
      `committerName` are the git names; `committedAt` is the parsed
      `commit.committer.date`; `authorDate` is `commit.author.date` verbatim. */
  datatype Commit = Commit(
    authorLogin: Option<string>,
    committerLogin: Option<string>,
    authorName: string,
    committerName: string,
    authorDate: string,
    committedAt: int,
    message: string)

  /** One entry of the pull-request listing: its `number` and `merged_at`. */
  datatype PullRequest = PullRequest(number: int, mergedAt: Option<string>)

  /** One entry of the `/contributors` listing. */
  datatype ContributorEntry = ContributorEntry(login: string, contributions: int)

  /** One entry of the recursive git tree; directories carry no `size`. */
  datatype TreeEntry = TreeEntry(path: string, size: Option<nat>)

  /** One workflow run; `conclusion` is `null` while a run is in progress. */
  datatype WorkflowRun = WorkflowRun(headSha: string, status: string, conclusion: Option<string>)

  /** The JSON object returned for a file of the contents API: the `message`
      and `status` of an error object, and the base64 `content` of a file. */
  datatype ContentsResponse = ContentsResponse(
    message: Option<string>,
    status: Option<string>,
    content: Option<string>)

  /** The outcome of one `requests.head` call: an exception raised by the
      transport, or a response with its status code and `Location` header. */
  datatype Probe = Raised | Response(status: int, location: Option<string>)
}
