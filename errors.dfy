/** Outcome types shared by the model, and the errors `Gisture::Repo` raises. */
module Errors {

  datatype Option<+T> = None | Some(value: T)

  /** A value, or the exception Ruby would raise instead of returning it. */
  datatype Result<+T> = Ok(value: T) | Err(error: Error)

  datatype Error =
      /** `ArgumentError` from `parse_repo_url`, naming the rejected input. */
    | InvalidRepoUrl(input: string)
      /** `ArgumentError` from `parse_file_url`, naming the rejected input. */
    | InvalidFilePath(input: string)
      /** `Gisture::OwnerBlacklisted`, carrying the owner that is not whitelisted. */
    | OwnerBlacklisted(owner: string)
      /** The `Errno` error `File.write` raises when the marker cannot be written. */
    | MarkerWriteFailed(path: string)
      /** An exception escaping the block given to `clone!`. */
    | BlockRaised
      /** The GitHub API client's error for a contents request it could not serve. */
    | RemoteFetchFailed(owner: string, project: string, path: string)
}
