/**
 * The GitHub contents API as the cache sees it: a fixed table of file
 * contents per (owner, project, path), and a log of the requests made.
 */
module Remote {
  import opened Errors

  datatype Request = Request(owner: string, project: string, path: string)

  /** `repos.contents.get(...).body`; a request the service cannot answer is an error naming it. */
  function Fetch(contents: map<Request, string>, req: Request): (r: Result<string>)
    ensures r.Ok? <==> req in contents
    ensures r.Ok? ==> r.value == contents[req]
    ensures r.Err? ==> r.error == RemoteFetchFailed(req.owner, req.project, req.path)
  {
    if req in contents then Ok(contents[req])
    else Err(RemoteFetchFailed(req.owner, req.project, req.path))
  }

  class GitHubApi {
    const contents: map<Request, string>
    /** Every request made so far, oldest first. */
    var requests: seq<Request>

    constructor (contents: map<Request, string>)
      ensures this.contents == contents && requests == []
    {
      this.contents := contents;
      requests := [];
    }

    method GetContents(owner: string, project: string, path: string) returns (r: Result<string>)
      modifies this
      ensures requests == old(requests) + [Request(owner, project, path)]
      ensures r == Fetch(contents, Request(owner, project, path))
    {
      requests := requests + [Request(owner, project, path)];
      r := Fetch(contents, Request(owner, project, path));
    }
  }
}
