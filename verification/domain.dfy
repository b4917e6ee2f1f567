/**
 * The values the update engine works on: bytes, the update descriptor read from the
 * manifest (UpdateManager/UpdateInfo.cs), the settings record and the exceptions that
 * can escape an operation.
 */
module Domain {
  import opened Wrappers

  newtype byte = b: int | 0 <= b < 256

  /**
   * One manifest entry. `Version` and `MinimumVersion` are `uint` in the source, so `nat`
   * here; `md5` is `None` when the manifest has no (or a null) MD5 field.
   */
  datatype UpdateInfo = UpdateInfo(
    version: nat,
    minimumVersion: nat,
    updateFileAddress: string,
    md5: Option<string>)

  /** The settings record that is read from and rewritten to settings.json. */
  datatype Settings = Settings(
    currentVersion: nat,
    updateServerAddress: string,
    updateInstallPath: string,
    mainExePath: string)

  /** Exceptions that the modelled code lets escape. */
  datatype Error =
    | HttpRequestError(statusCode: int)   // EnsureSuccessStatusCode on a non-2xx status
    | ArgumentNull                        // Path.Combine given a null file name
    | NullReference                       // a Content-Disposition header without a file name
    | Argument                            // Directory.CreateDirectory given an empty path
    | UnauthorizedAccess                  // a FileStream opened on a directory

  /** C#'s string.IsNullOrEmpty on a string that may be null. */
  predicate IsNullOrEmpty(s: Option<string>): (b: bool)
    ensures b <==> s == None || s == Some("")
    ensures !b ==> s.Some? && |s.value| > 0
  {
    s.None? || s.value == ""
  }
}
