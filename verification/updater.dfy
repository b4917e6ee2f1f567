/**
 * Updater (UpdateManager/Updater.cs): holds the settings record, selects the applicable
 * updates from a manifest, downloads one update, verifies it against its MD5 and, when it
 * passes, records and persists the new version; when it fails, deletes the download.
 * The manifest and the settings arrive already parsed; the MD5 of a byte sequence is the
 * function `md5` handed to the constructor.
 */
module Updates {
  import opened Wrappers
  import opened Domain
  import opened FileStore
  import opened Progress
  import opened Transport
  import opened Resolver

  /** The settings file, relative to the working directory. */
  const SETTINGS_FILE_NAME: string := "settings.json"

  predicate IsDirectorySeparator(c: char) {
    c == '\\' || c == '/'
  }

  /** Path.IsPathRooted on Windows: a leading separator or a drive letter and colon. */
  predicate IsPathRooted(p: string) {
    (|p| >= 1 && IsDirectorySeparator(p[0])) ||
    (|p| >= 2 && ('A' <= p[0] <= 'Z' || 'a' <= p[0] <= 'z') && p[1] == ':')
  }

  /**
   * Path.Combine(dir, name) on Windows (the application is a WPF program): a rooted name
   * replaces the directory; otherwise the two are joined with one separator. DownloadUpdate
   * never calls it with an empty directory, which it rejects first.
   */
  function CombinePath(dir: string, name: string): (p: string)
    ensures |name| <= |p| && p[|p| - |name|..] == name
    ensures IsPathRooted(name) || dir == "" ==> p == name
    ensures name != "" && !IsPathRooted(name) ==> dir <= p
  {
    if name == "" then dir
    else if dir == "" || IsPathRooted(name) then name
    else if IsDirectorySeparator(dir[|dir| - 1]) then dir + name
    else dir + "\\" + name
  }

  /**
   * A path combined from a non-empty directory that is not the directory itself is rooted or
   * contains a separator, so it is never the bare settings file name.
   */
  lemma CombinedPathIsNotSettingsFile(dir: string, name: string)
    requires dir != "" && CombinePath(dir, name) != dir
    ensures CombinePath(dir, name) != SETTINGS_FILE_NAME
  {
    var p := CombinePath(dir, name);
    if IsPathRooted(name) {
      assert p == name;
      assert !IsPathRooted(SETTINGS_FILE_NAME);
    } else {
      var i := |dir| - 1;
      if IsDirectorySeparator(dir[i]) {
        assert p == dir + name && p[i] == dir[i];
      } else {
        assert p == dir + "\\" + name && p[|dir|] == '\\';
        i := |dir|;
      }
      assert i < |p| && IsDirectorySeparator(p[i]);
      assert forall k :: 0 <= k < |SETTINGS_FILE_NAME| ==> !IsDirectorySeparator(SETTINGS_FILE_NAME[k]);
    }
  }

  /**
   * VerifyFileHash: accepted whenever the descriptor carries no MD5 (null or empty);
   * otherwise accepted exactly when the descriptor's MD5 equals the file's hash, compared
   * ordinally (case-sensitive, no normalisation).
   */
  function VerifyFileHash(update: UpdateInfo, contents: seq<byte>, md5: seq<byte> -> string): (ok: bool)
    ensures IsNullOrEmpty(update.md5) ==> ok
    ensures !IsNullOrEmpty(update.md5) ==> (ok <==> update.md5.value == md5(contents))
  {
    IsNullOrEmpty(update.md5) || update.md5.value == md5(contents)
  }

  /**
   * The destination of a download: Path.Combine of the install directory and the name from
   * the Content-Disposition header. There is no fallback name: a missing header gives a null
   * name, which Path.Combine rejects.
   */
  function DownloadPath(settings: Settings, response: HttpResponse): (r: Result<string, Error>)
    ensures response.contentDisposition.None? ==> r == Failure(ArgumentNull)
    ensures r.Success? ==> response.contentDisposition.Some? && response.contentDisposition.value.fileName.Some?
  {
    match FileNameForDownload(response)
    case Failure(e) => Failure(e)
    case Success(None) => Failure(ArgumentNull)
    case Success(Some(name)) => Success(CombinePath(settings.updateInstallPath, name))
  }

  /** What a call of DownloadUpdate returns and leaves behind. */
  datatype DownloadResult = DownloadResult(
    result: Result<bool, Error>,
    settings: Settings,
    files: map<string, FileContent>,
    events: seq<ProgressEvent>)

  /**
   * The effect of DownloadUpdate on the settings record and the file store. An empty install
   * path makes Directory.CreateDirectory throw before any request. After the status check,
   * a destination that is the install directory itself (an empty file name, which
   * Path.Combine turns into the directory) cannot be opened as a file. On a verified
   * download the version is recorded and the settings file rewritten with the new record;
   * otherwise the settings stay as they were; an exception leaves the files untouched.
   */
  function Download(settings: Settings, files: map<string, FileContent>, hasProgressHandler: bool,
                    md5: seq<byte> -> string, update: UpdateInfo, response: HttpResponse): (o: DownloadResult)
    ensures o.result == Success(true) ==>
              o.settings == settings.(currentVersion := update.version) &&
              SETTINGS_FILE_NAME in o.files && o.files[SETTINGS_FILE_NAME] == SettingsJson(o.settings)
    ensures o.result != Success(true) ==> o.settings == settings
    ensures o.result.Failure? ==> o.files == files && o.events == []
    ensures settings.updateInstallPath == "" ==> o.result == Failure(Argument)
    ensures o.result.Success? <==>
              settings.updateInstallPath != "" && DownloadPath(settings, response).Success? &&
              IsSuccessStatusCode(response.statusCode) && DownloadPath(settings, response).value != settings.updateInstallPath
    ensures o.result.Success? ==> DownloadPath(settings, response).value != SETTINGS_FILE_NAME
    ensures o.result.Success? ==> o.result.value == VerifyFileHash(update, Concat(Received(response.body)), md5)
    ensures o.result.Success? ==>
              o.events == (if hasProgressHandler then ExpectedEvents(response.contentLength, response.body) else [])
  {
    if settings.updateInstallPath == "" then DownloadResult(Failure(Argument), settings, files, [])
    else match DownloadPath(settings, response)
    case Failure(e) => DownloadResult(Failure(e), settings, files, [])
    case Success(path) =>
      if !IsSuccessStatusCode(response.statusCode) then
        DownloadResult(Failure(HttpRequestError(response.statusCode)), settings, files, [])
      else if path == settings.updateInstallPath then
        DownloadResult(Failure(UnauthorizedAccess), settings, files, [])
      else
        CombinedPathIsNotSettingsFile(settings.updateInstallPath, FileNameForDownload(response).value.value);
        var data := Concat(Received(response.body));
        var events := if hasProgressHandler then ExpectedEvents(response.contentLength, response.body) else [];
        var written := files[path := Bytes(data)];
        if VerifyFileHash(update, data, md5) then
          var applied := settings.(currentVersion := update.version);
          DownloadResult(Success(true), applied, written[SETTINGS_FILE_NAME := SettingsJson(applied)], events)
        else
          DownloadResult(Success(false), settings, written - {path}, events)
  }

  /** StartMainApp: the program to launch, or nothing when MainExePath is empty. */
  function LaunchTarget(settings: Settings): (r: Option<string>)
    ensures r.None? <==> settings.mainExePath == ""
    ensures r.Some? ==> r.value == settings.mainExePath
  {
    if settings.mainExePath == "" then None else Some(settings.mainExePath)
  }

  class Updater {
    const downloader: HttpClientWithProgress
    const fs: FileSystem
    const md5: seq<byte> -> string
    var updateList: seq<UpdateInfo>
    var availableUpdates: seq<UpdateInfo>
    var appSettings: Settings

    /** A new updater with the given settings (as GetSettings would have read them). */
    constructor (settings: Settings, fs: FileSystem, md5: seq<byte> -> string)
      ensures appSettings == settings && this.fs == fs && this.md5 == md5
      ensures fresh(downloader) && !downloader.hasProgressHandler
      ensures updateList == [] && availableUpdates == []
    {
      downloader := new HttpClientWithProgress();
      this.fs := fs;
      this.md5 := md5;
      appSettings := settings;
      updateList := [];
      availableUpdates := [];
    }

    /** GetUpdatesAsync on the manifest the server returned. */
    method GetUpdatesAsync(manifest: seq<UpdateInfo>) returns (result: bool)
      modifies this`updateList, this`availableUpdates
      ensures result
      ensures updateList == SortByMinimumVersion(manifest)
      ensures availableUpdates == AvailableUpdates(manifest, appSettings.currentVersion)
    {
      updateList := manifest;
      availableUpdates := GetAvailableUpdates();
      result := true;
    }

    /** GetAvailableUpdates: the stored list is replaced by its sorted copy, then filtered. */
    method GetAvailableUpdates() returns (r: seq<UpdateInfo>)
      modifies this`updateList
      ensures updateList == SortByMinimumVersion(old(updateList))
      ensures r == AvailableUpdates(old(updateList), appSettings.currentVersion)
    {
      updateList := SortByMinimumVersion(updateList);
      r := AtOrAbove(updateList, appSettings.currentVersion);
    }

    /** UpdateVersion: record the update's version and rewrite the whole settings file. */
    method UpdateVersion(updateInfo: UpdateInfo)
      modifies this`appSettings, fs
      ensures appSettings == old(appSettings).(currentVersion := updateInfo.version)
      ensures fs.files == old(fs.files)[SETTINGS_FILE_NAME := SettingsJson(appSettings)]
    {
      appSettings := appSettings.(currentVersion := updateInfo.version);
      fs.WriteSettings(SETTINGS_FILE_NAME, appSettings);
    }

    /**
     * DownloadUpdate: name the file, download it, verify it, then either record the version
     * or delete the file. Also returns the progress events delivered during the download.
     */
    method DownloadUpdate(update: UpdateInfo, response: HttpResponse)
      returns (result: Result<bool, Error>, events: seq<ProgressEvent>)
      modifies this`appSettings, fs
      ensures var o := Download(old(appSettings), old(fs.files), downloader.hasProgressHandler, md5, update, response);
              result == o.result && appSettings == o.settings && fs.files == o.files && events == o.events
    {
      if appSettings.updateInstallPath == "" {
        return Failure(Argument), [];
      }
      var fileName := FileNameForDownload(response);
      if fileName.Failure? {
        return Failure(fileName.error), [];
      }
      if fileName.value.None? {
        return Failure(ArgumentNull), [];
      }
      var path := CombinePath(appSettings.updateInstallPath, fileName.value.value);
      var download := downloader.StartDownload(response, fs, path, {appSettings.updateInstallPath});
      if download.Failure? {
        return Failure(download.error), [];
      }
      events := download.value;
      var ok := VerifyFileHash(update, fs.files[path].data, md5);
      if ok {
        UpdateVersion(update);
      } else {
        fs.Delete(path);
      }
      result := Success(ok);
    }

    /** StartMainApp: returns the program it would start, nothing for an empty MainExePath. */
    method StartMainApp() returns (launched: Option<string>)
      ensures launched == LaunchTarget(appSettings)
    {
      if appSettings.mainExePath == "" {
        return None;
      }
      launched := Some(appSettings.mainExePath);
    }
  }

  // ---------------------------------------------------------------------------------------
  // Lemmas about one download and about the selection that follows it

  /**
   * A verified download changes only CurrentVersion in the settings, persists exactly the
   * in-memory record, and keeps the downloaded bytes (unless the file is the settings file).
   */
  lemma VerifiedDownloadRecordsVersion(settings: Settings, files: map<string, FileContent>, hasProgressHandler: bool,
                                       md5: seq<byte> -> string, update: UpdateInfo, response: HttpResponse)
    requires Download(settings, files, hasProgressHandler, md5, update, response).result == Success(true)
    ensures var o := Download(settings, files, hasProgressHandler, md5, update, response);
            var path := DownloadPath(settings, response);
            o.settings.currentVersion == update.version &&
            o.settings.updateServerAddress == settings.updateServerAddress &&
            o.settings.updateInstallPath == settings.updateInstallPath &&
            o.settings.mainExePath == settings.mainExePath &&
            o.files[SETTINGS_FILE_NAME] == SettingsJson(o.settings) &&
            path.Success? &&
            path.value != SETTINGS_FILE_NAME &&
            o.files[path.value] == Bytes(Concat(Received(response.body))) &&
            VerifyFileHash(update, Concat(Received(response.body)), md5) &&
            (forall p :: p != path.value && p != SETTINGS_FILE_NAME ==> (p in o.files <==> p in files)) &&
            (forall p :: p != path.value && p != SETTINGS_FILE_NAME && p in files ==> o.files[p] == files[p])
  {
  }

  /**
   * A download that fails verification leaves the settings record as it was, removes the
   * downloaded file, and changes no other file; in particular the persisted settings file,
   * which is never the download's destination, stays as it was.
   */
  lemma RejectedDownloadIsDeleted(settings: Settings, files: map<string, FileContent>, hasProgressHandler: bool,
                                  md5: seq<byte> -> string, update: UpdateInfo, response: HttpResponse)
    requires Download(settings, files, hasProgressHandler, md5, update, response).result == Success(false)
    ensures var o := Download(settings, files, hasProgressHandler, md5, update, response);
            var path := DownloadPath(settings, response);
            path.Success? && path.value != SETTINGS_FILE_NAME &&
            o.settings == settings &&
            path.value !in o.files &&
            (SETTINGS_FILE_NAME in o.files <==> SETTINGS_FILE_NAME in files) &&
            (SETTINGS_FILE_NAME in files ==> o.files[SETTINGS_FILE_NAME] == files[SETTINGS_FILE_NAME]) &&
            !IsNullOrEmpty(update.md5) &&
            (forall p :: p != path.value ==> (p in o.files <==> p in files)) &&
            (forall p :: p != path.value && p in files ==> o.files[p] == files[p])
  {
  }

  /** A non-success status throws before the destination is opened: nothing changes. */
  lemma FailedStatusChangesNothing(settings: Settings, files: map<string, FileContent>, hasProgressHandler: bool,
                                   md5: seq<byte> -> string, update: UpdateInfo, response: HttpResponse)
    requires settings.updateInstallPath != "" && DownloadPath(settings, response).Success?
    requires !IsSuccessStatusCode(response.statusCode)
    ensures Download(settings, files, hasProgressHandler, md5, update, response) ==
            DownloadResult(Failure(HttpRequestError(response.statusCode)), settings, files, [])
  {
  }

  /**
   * A header whose file name is empty (or only quotes) names the install directory itself:
   * with a success status the download throws when it opens that directory as a file, and
   * nothing changes.
   */
  lemma EmptyFileNameChangesNothing(settings: Settings, files: map<string, FileContent>, hasProgressHandler: bool,
                                    md5: seq<byte> -> string, update: UpdateInfo, response: HttpResponse)
    requires settings.updateInstallPath != "" && IsSuccessStatusCode(response.statusCode)
    requires response.contentDisposition.Some? && response.contentDisposition.value.fileName.Some?
    requires StripQuotes(response.contentDisposition.value.fileName.value) == ""
    ensures Download(settings, files, hasProgressHandler, md5, update, response) ==
            DownloadResult(Failure(UnauthorizedAccess), settings, files, [])
  {
  }

  /**
   * After a verified download of an update whose Version exceeds its MinimumVersion, a new
   * selection against the recorded version no longer offers it.
   */
  lemma AppliedUpdateIsNotReselected(settings: Settings, files: map<string, FileContent>, hasProgressHandler: bool,
                                     md5: seq<byte> -> string, update: UpdateInfo, response: HttpResponse,
                                     manifest: seq<UpdateInfo>)
    requires Download(settings, files, hasProgressHandler, md5, update, response).result == Success(true)
    requires update.version > update.minimumVersion
    ensures update !in AvailableUpdates(manifest, Download(settings, files, hasProgressHandler, md5, update, response).settings.currentVersion)
  {
  }

  /**
   * Conversely, an update whose Version does not exceed its MinimumVersion is offered again
   * after it has been applied: its MinimumVersion is still at or above the recorded version.
   */
  lemma AppliedUpdateIsReselected(settings: Settings, files: map<string, FileContent>, hasProgressHandler: bool,
                                  md5: seq<byte> -> string, update: UpdateInfo, response: HttpResponse,
                                  manifest: seq<UpdateInfo>)
    requires Download(settings, files, hasProgressHandler, md5, update, response).result == Success(true)
    requires update in manifest && update.version <= update.minimumVersion
    ensures update in AvailableUpdates(manifest, Download(settings, files, hasProgressHandler, md5, update, response).settings.currentVersion)
  {
    AvailableUpdatesSelectsExactly(manifest, update.version);
  }

  /** When MD5 is null or empty, any file is accepted, whatever the hash function says. */
  lemma MissingHashAlwaysAccepts(update: UpdateInfo, md5: seq<byte> -> string)
    requires IsNullOrEmpty(update.md5)
    ensures forall contents :: VerifyFileHash(update, contents, md5)
  {
  }

  /**
   * The comparison is case-sensitive: an upper-case MD5 in the manifest rejects a file whose
   * computed hash is the same digest in lower case.
   */
  lemma HashComparisonIsCaseSensitive(contents: seq<byte>, md5: seq<byte> -> string)
    requires md5(contents) == "d41d8cd98f00b204e9800998ecf8427e"
    ensures !VerifyFileHash(UpdateInfo(2, 1, "u", Some("D41D8CD98F00B204E9800998ECF8427E")), contents, md5)
  {
  }

  /**
   * Nothing stops CurrentVersion from going down: with the filter's direction, an entry whose
   * MinimumVersion is above the installed version but whose Version is below it is selected,
   * and applying it lowers the recorded version.
   */
  lemma VersionCanDecrease(md5: seq<byte> -> string)
    ensures var settings := Settings(5, "s", "d", "");
            var update := UpdateInfo(3, 7, "u", None);
            var response := HttpResponse(200, None, Some(ContentDisposition(Some("p.zip"))), []);
            var o := Download(settings, map[], false, md5, update, response);
            AvailableUpdates([update], settings.currentVersion) == [update] &&
            o.result == Success(true) && o.settings.currentVersion == 3 < settings.currentVersion
  {
  }

  /**
   * With an installed version of 5 and a manifest [6 from 5, 7 from 6], both are selected in
   * that order; once 6 is recorded, only 7 remains, because the first entry's MinimumVersion
   * is now below the installed version.
   */
  lemma TwoStepManifest()
    ensures var u6, u7 := UpdateInfo(6, 5, "a", Some("abc")), UpdateInfo(7, 6, "b", Some("def"));
            AvailableUpdates([u6, u7], 5) == [u6, u7] &&
            AvailableUpdates([u6, u7], 6) == [u7]
  {
    var u6, u7 := UpdateInfo(6, 5, "a", Some("abc")), UpdateInfo(7, 6, "b", Some("def"));
    SortOfSortedIsIdentity([u6, u7]);
    assert [u6, u7][1..] == [u7];
    assert [u7][1..] == [];
    assert AtOrAbove([u7], 5) == [u7] + AtOrAbove([], 5) == [u7];
    assert AtOrAbove([u7], 6) == [u7] + AtOrAbove([], 6) == [u7];
    assert AtOrAbove([u6, u7], 5) == [u6] + AtOrAbove([u7], 5);
    assert AtOrAbove([u6, u7], 6) == [] + AtOrAbove([u7], 6);
  }

  /** An empty manifest offers nothing, whatever the installed version. */
  lemma EmptyManifestOffersNothing(currentVersion: nat)
    ensures AvailableUpdates([], currentVersion) == []
  {
  }
}
