/**
 * The records-portal client ("Ada"): opening a session, with the fallback to
 * a stored session cookie, and the certificate lookup through the search
 * form. The browser is replaced by the outcomes it would report.
 */
module AdaPortal {
  import opened Wrappers

  /** One lookup: category, year, and an optional name and number. */
  datatype Query = Query(category: string, year: string, name: Option<string>, number: Option<string>)

  /** The portal as the validation driver sees it: the downloaded path, or None when the lookup raised. */
  type Lookup = Query -> Option<string>

  datatype Cookie = Cookie(name: string, value: string)

  /** What probing the search page showed: it failed to load, or loaded with or without its DetailTable. */
  datatype Probe = LoadFailed | Loaded(detailTable: bool)

  datatype OpenError =
    | NoStoredCookie      // "… and no old session cookie was found"
    | StoredCookieBroken  // "… and the old session cookie does not work"

  datatype LookupError =
    | NoResultRows     // certs[0] on an empty list: IndexError
    | NoMatches        // "Found no matches"
    | MultipleMatches  // "Found multiple matches"
    | DownloadTimeout  // the download directory never held exactly one file
    | NamesNotText     // send_keys(None) for a lookup without names: TypeError

  const SessionCookieName: string := "ASP.NET_SessionId"

  /** `_is_working`: the page loaded and shows its DetailTable; any failure reads as not working. */
  predicate IsWorking(p: Probe) {
    p.Loaded? && p.detailTable
  }

  /** Python truthiness of an optional text: present and not empty. */
  predicate Given(s: Option<string>) {
    s.Some? && s.value != []
  }

  /**
   * The match rule on the result rows, each given by its number of cells: a
   * single-cell first row is the "no records" placeholder; otherwise there
   * must be exactly one row. None means exactly one match.
   */
  function MatchDecision(cellCounts: seq<nat>): (r: Option<LookupError>)
    ensures r.None? <==> |cellCounts| == 1 && cellCounts[0] != 1
    ensures r == Some(NoResultRows) <==> cellCounts == []
    ensures r == Some(NoMatches) <==> |cellCounts| >= 1 && cellCounts[0] == 1
    ensures r == Some(MultipleMatches) <==> |cellCounts| > 1 && cellCounts[0] != 1
  {
    if |cellCounts| == 0 then Some(NoResultRows)
    else if cellCounts[0] == 1 then Some(NoMatches)
    else if |cellCounts| > 1 then Some(MultipleMatches)
    else None
  }

  /** `os.path.join(dir, name)` for a name that is not absolute. */
  function JoinPath(dir: string, name: string): (p: string)
    ensures |p| == |dir| + |name| || |p| == |dir| + 1 + |name|
    ensures p[..|dir|] == dir && p[|p| - |name|..] == name
    ensures |p| == |dir| + 1 + |name| <==> dir != [] && dir[|dir| - 1] != '/'
    ensures |p| == |dir| + 1 + |name| ==> p[|dir|] == '/'
  {
    if dir == [] || dir[|dir| - 1] == '/' then dir + name else dir + "/" + name
  }

  /**
   * The browser's `get_cookie(name)`: the first of its cookies with that
   * name, None when it has none.
   */
  function GetCookie(cookies: seq<Cookie>, name: string): (c: Option<Cookie>)
    ensures c.None? <==> forall i :: 0 <= i < |cookies| ==> cookies[i].name != name
    ensures c.Some? ==>
      exists i :: 0 <= i < |cookies| && cookies[i] == c.value && c.value.name == name
        && forall j :: 0 <= j < i ==> cookies[j].name != name
  {
    if cookies == [] then None
    else if cookies[0].name == name then Some(cookies[0])
    else
      var rest := GetCookie(cookies[1..], name);
      if rest.Some? then
        var i :| 0 <= i < |cookies[1..]| && cookies[1..][i] == rest.value
          && rest.value.name == name && forall j :: 0 <= j < i ==> cookies[1..][j].name != name;
        assert cookies[i + 1] == rest.value;
        rest
      else rest
  }

  class Ada {
    /** The browser's download directory. */
    const downloadDir: string
    /** The stored session-cookie file's contents, if there is one. */
    var cookieFile: Option<Cookie>
    /** Cookies loaded into the browser. */
    var cookies: seq<Cookie>
    /** The search form's category filter and title filter. */
    var categoryFilter: string
    var titleFilter: string
    /** The entries of the download directory. */
    var downloads: seq<string>

    constructor (downloadDir: string, cookieFile: Option<Cookie>, downloads: seq<string>)
      ensures this.downloadDir == downloadDir && this.cookieFile == cookieFile && this.downloads == downloads
      ensures cookies == [] && categoryFilter == [] && titleFilter == []
    {
      this.downloadDir := downloadDir;
      this.cookieFile := cookieFile;
      this.downloads := downloads;
      cookies := [];
      categoryFilter := [];
      titleFilter := [];
    }

    /**
     * Opening the portal. A new session that works has its cookie stored
     * and no cookie is loaded; otherwise the stored cookie is loaded and the
     * page probed again. `sessionCookies` are the new session's cookies;
     * the one named `SessionCookieName` is stored. Without one, "None" is
     * written, which a later open cannot load, as if no cookie were stored.
     * `firstProbe` and `secondProbe` are what the two probes show.
     */
    static method Open(downloadDir: string, cookieFile: Option<Cookie>, downloads: seq<string>,
                       firstProbe: Probe, sessionCookies: seq<Cookie>, secondProbe: Probe)
      returns (r: Result<Ada, OpenError>)
      ensures r.Ok? <==> IsWorking(firstProbe) || (cookieFile.Some? && IsWorking(secondProbe))
      ensures !IsWorking(firstProbe) && cookieFile.None? ==> r == Err(NoStoredCookie)
      ensures !IsWorking(firstProbe) && cookieFile.Some? && !IsWorking(secondProbe) ==> r == Err(StoredCookieBroken)
      ensures r.Ok? ==> fresh(r.value) && r.value.downloadDir == downloadDir && r.value.downloads == downloads
      ensures r.Ok? && IsWorking(firstProbe) ==> r.value.cookieFile == GetCookie(sessionCookies, SessionCookieName) && r.value.cookies == []
      ensures r.Ok? && !IsWorking(firstProbe) ==> r.value.cookieFile == cookieFile && r.value.cookies == [cookieFile.value]
    {
      var ada := new Ada(downloadDir, cookieFile, downloads);
      if IsWorking(firstProbe) {
        ada.cookieFile := GetCookie(sessionCookies, SessionCookieName);
        return Ok(ada);
      }
      if cookieFile.None? {
        return Err(NoStoredCookie);
      }
      ada.cookies := ada.cookies + [cookieFile.value];
      if !IsWorking(secondProbe) {
        return Err(StoredCookieBroken);
      }
      r := Ok(ada);
    }

    /**
     * Typing the search criteria into a freshly loaded search form: the
     * category filter gets the category; the title filter gets the names,
     * then a space and the year when there is a year, then a space and the
     * number when there is a number. Without names, typing them raises
     * (Selenium cannot type None) and the title filter stays empty;
     * `typed` tells whether the criteria went in.
     */
    method EnterCriteria(q: Query) returns (typed: bool)
      modifies this
      ensures typed <==> q.name.Some?
      ensures categoryFilter == q.category
      ensures q.name.None? ==> titleFilter == []
      ensures q.name.Some? ==>
        titleFilter == q.name.value
          + (if q.year != [] then " " + q.year else [])
          + (if Given(q.number) then " " + q.number.value else [])
      ensures cookieFile == old(cookieFile) && cookies == old(cookies) && downloads == old(downloads)
    {
      categoryFilter, titleFilter := [], [];
      categoryFilter := categoryFilter + q.category;
      if q.name.None? {
        return false;
      }
      titleFilter := titleFilter + q.name.value;
      ghost var names := titleFilter;
      if q.year != [] {
        titleFilter := titleFilter + (" " + q.year);
      }
      assert titleFilter == names + (if q.year != [] then " " + q.year else []);
      ghost var withYear := titleFilter;
      if Given(q.number) {
        titleFilter := titleFilter + (" " + q.number.value);
      }
      assert titleFilter == withYear + (if Given(q.number) then " " + q.number.value else []);
      typed := true;
    }

    /**
     * Looking up one certificate. The search page is reloaded (so the form
     * starts empty) and the filters are typed in; a lookup without names
     * raises there. Then the result rows (given by their cell counts) must
     * hold exactly one match, the download directory is emptied and the
     * download started; `downloaded` is the file that appears, None if none
     * does in time. The path returned is that single file's.
     */
    method DownloadCertImage(q: Query, cellCounts: seq<nat>, downloaded: Option<string>)
      returns (r: Result<string, LookupError>)
      modifies this
      ensures categoryFilter == q.category
      ensures q.name.None? ==> titleFilter == []
      ensures q.name.Some? ==>
        titleFilter == q.name.value
          + (if q.year != [] then " " + q.year else [])
          + (if Given(q.number) then " " + q.number.value else [])
      ensures r.Ok? <==> q.name.Some? && MatchDecision(cellCounts).None? && downloaded.Some?
      ensures q.name.None? ==> r == Err(NamesNotText) && downloads == old(downloads)
      ensures q.name.Some? && MatchDecision(cellCounts).Some? ==> r == Err(MatchDecision(cellCounts).value) && downloads == old(downloads)
      ensures q.name.Some? && MatchDecision(cellCounts).None? && downloaded.None? ==> r == Err(DownloadTimeout) && downloads == []
      ensures r.Ok? ==> downloads == [downloaded.value] && r.value == JoinPath(downloadDir, downloads[0])
      ensures cookieFile == old(cookieFile) && cookies == old(cookies)
    {
      var typed := EnterCriteria(q);
      if !typed {
        return Err(NamesNotText);
      }

      var verdict := MatchDecision(cellCounts);
      if verdict.Some? {
        return Err(verdict.value);
      }

      downloads := [];
      if downloaded.None? {
        return Err(DownloadTimeout);
      }
      downloads := [downloaded.value];
      r := Ok(JoinPath(downloadDir, downloads[0]));
    }
  }
}
