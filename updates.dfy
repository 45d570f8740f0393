/**
 * The update service: it reads the published update metadata, decides whether the
 * remote version is newer than the running one, names the installer file and its
 * download address, and announces the update state to every window. The HTTPS request,
 * the update directory's listing and the signature check are parameters; the
 * announcements and the downloads it starts are recorded.
 */
module Updates {
  import opened Wrappers
  import opened Strings
  import opened Sequences

  /** The update states the service sets. */
  datatype UpdateState = Available | Downloaded | NotAvailable | ConnectionFailed

  /** One line of the update metadata; a missing checksum or commit is `undefined`. */
  datatype UpdateMetadata = UpdateMetadata(productName: string, version: string, checksum: Option<string>,
                                           commit: Option<string>)

  datatype UpdateInformation = UpdateInformation(version: string, fileName: string, url: string,
                                                 checksum: Option<string>)

  /** What `setUpdateState` sends to every window: the state and the update's version, if known. */
  datatype Announcement = Announcement(state: UpdateState, version: Option<string>)

  /** A download handed to the file service: from `url` into `destination`. */
  datatype Download = Download(url: string, destination: string)

  /** A file of the update directory and whether its signature checks out. */
  datatype UpdateFile = UpdateFile(name: string, verified: bool)

  /**
   * How the promise of `checkForUpdates` settles: resolved with whether an update is
   * available, rejected with the request's error, or never, when reading the response
   * throws inside its `end` handler.
   */
  datatype CheckOutcome = Resolved(available: bool) | Rejected(error: string) | Unsettled

  /** `fileExt`: the installer's extension on the running platform. */
  function FileExt(platformName: string): (ext: string)
    ensures platformName == "win32" ==> ext == "exe"
    ensures platformName != "win32" ==> ext == "dmg"
    ensures '.' !in ext
  {
    if platformName == "win32" then "exe" else "dmg"
  }

  // ---------------------------------------------------------------- getExecutablePath

  /** `getExecutablePath`: the path split on '.', its last part dropped, `fileExt` put in its place. */
  function GetExecutablePath(path: string, fileExt: string): string
  {
    var pathParts := Split(path, '.');
    Join(pathParts[..|pathParts| - 1] + [fileExt], ".")
  }

  /**
   * The executable path swaps the text after the last '.' for `fileExt`; a path without
   * any '.' is replaced by `fileExt` as a whole.
   */
  lemma ExecutablePathSwapsExtension(path: string, fileExt: string)
    ensures '.' in path ==> GetExecutablePath(path, fileExt) == BeforeLast(path, '.') + "." + fileExt
    ensures '.' !in path ==> GetExecutablePath(path, fileExt) == fileExt
  {
    var parts := Split(path, '.');
    var init := parts[..|parts| - 1];
    assert GetExecutablePath(path, fileExt) == Join(init + [fileExt], ".");
    JoinSnoc(init, fileExt, ".");
    if '.' in path {
      assert Join(init, ".") == BeforeLast(path, '.') by {
        JoinAllButLast(path, '.', ".");
        ReplaceCharIdentity(BeforeLast(path, '.'), '.');
      }
    } else {
      assert init == [] by {
        SplitWithout(path, '.');
      }
    }
  }

  /** A file name whose extension has no '.' keeps its stem and takes `fileExt`. */
  lemma ExecutablePathOfFileName(stem: string, ext: string, fileExt: string)
    requires '.' !in ext
    ensures GetExecutablePath(stem + "." + ext, fileExt) == stem + "." + fileExt
  {
    var path := stem + "." + ext;
    assert path[|stem|] == '.' && path[|stem| + 1..] == ext;
    BeforeLastAt(path, '.', |stem|);
    assert path[..|stem|] == stem;
    ExecutablePathSwapsExtension(path, fileExt);
  }

  // ---------------------------------------------------------------- the metadata

  function Field(fields: seq<string>, i: nat): (r: Option<string>)
    ensures r.Some? <==> i < |fields|
    ensures r.Some? ==> r.value == fields[i]
  {
    if i < |fields| then Some(fields[i]) else None
  }

  /** One metadata line split on ','; without a second field the version is `undefined` and reading it throws. */
  function ParseLine(line: string): (r: Option<UpdateMetadata>)
    ensures r.Some? <==> |Split(line, ',')| >= 2
  {
    var fields := Split(line, ',');
    if |fields| < 2 then None
    else Some(UpdateMetadata(fields[0], fields[1], Field(fields, 2), Field(fields, 3)))
  }

  /** The metadata of the response body: the trimmed body's first line on win32, its second elsewhere. */
  function ParseMetadata(body: string, platformName: string): (r: Option<UpdateMetadata>)
    ensures var lines := Split(Trim(body), '\n');
      var idx := if platformName == "win32" then 0 else 1;
      r == if idx < |lines| then ParseLine(lines[idx]) else None
  {
    var lines := Split(Trim(body), '\n');
    var idx := if platformName == "win32" then 0 else 1;
    if idx < |lines| then ParseLine(lines[idx]) else None
  }

  /** Fields without ',' joined by ',' read back as the product, version, checksum and commit. */
  lemma LineRoundTrip(fields: seq<string>)
    requires |fields| >= 2
    requires forall i :: 0 <= i < |fields| ==> ',' !in fields[i]
    ensures ParseLine(Join(fields, ",")) ==
      Some(UpdateMetadata(fields[0], fields[1], Field(fields, 2), Field(fields, 3)))
  {
    SplitJoin(fields, ',');
  }

  lemma JoinEnds(parts: seq<string>, sep: string)
    requires |parts| >= 1 && parts[0] != [] && parts[|parts| - 1] != []
    ensures var s := Join(parts, sep);
      s != [] && s[0] == parts[0][0] && s[|s| - 1] == parts[|parts| - 1][|parts[|parts| - 1]| - 1]
  {
    var n := |parts| - 1;
    JoinSnoc(parts[..n], parts[n], sep);
    assert parts[..n] + [parts[n]] == parts;
  }

  lemma TrimUnpadded(s: string)
    requires s != [] && !IsJsSpace(s[0]) && !IsJsSpace(s[|s| - 1])
    ensures Trim(s) == s
  {
  }

  /**
   * A body of lines without line breaks and without white space at either end reads
   * as the platform's line: the first on win32, the second elsewhere.
   */
  lemma MetadataFromLines(lines: seq<string>, platformName: string)
    requires |lines| >= 2
    requires forall i :: 0 <= i < |lines| ==> '\n' !in lines[i]
    requires lines[0] != [] && !IsJsSpace(lines[0][0])
    requires var last := lines[|lines| - 1]; last != [] && !IsJsSpace(last[|last| - 1])
    ensures ParseMetadata(Join(lines, "\n"), platformName) == ParseLine(lines[if platformName == "win32" then 0 else 1])
  {
    var body := Join(lines, "\n");
    JoinEnds(lines, "\n");
    TrimUnpadded(body);
    SplitJoin(lines, '\n');
  }

  // ---------------------------------------------------------------- the version rule

  /** As written: `updateMetadata.version.localeCompare(app.getVersion()) === 1`. */
  predicate AvailableAsWritten(remote: string, current: string)
  {
    LocaleCompare(remote, current) == 1
  }

  predicate IsNumeral(s: string)
  {
    s != [] && forall i :: 0 <= i < |s| ==> IsDigit(s[i])
  }

  /** The number a string of decimal digits stands for. */
  function DigitsValue(s: string): nat
    requires forall i :: 0 <= i < |s| ==> IsDigit(s[i])
  {
    if s == [] then 0
    else
      assert IsDigit(s[|s| - 1]);
      DigitsValue(s[..|s| - 1]) * 10 + (s[|s| - 1] as int - '0' as int)
  }

  /** Reading a number's decimal text gives the number back. */
  lemma {:induction false} DigitsValueOfNatToString(n: nat)
    ensures DigitsValue(NatToString(n)) == n
  {
    if n >= 10 {
      var s := NatToString(n / 10);
      DigitsValueOfNatToString(n / 10);
      assert (s + [DigitChar(n % 10)])[..|s|] == s;
    }
  }

  /** The components of a version of dot-separated numbers, or none when some part is not a number. */
  function VersionValues(v: string): (r: Option<seq<nat>>)
    ensures r.Some? ==> |r.value| == |Split(v, '.')|
  {
    var parts := Split(v, '.');
    if AllNumerals(parts) then Some(Values(parts)) else None
  }

  predicate AllNumerals(parts: seq<string>)
  {
    forall i :: 0 <= i < |parts| ==> IsNumeral(parts[i])
  }

  function Values(parts: seq<string>): (r: seq<nat>)
    requires AllNumerals(parts)
    ensures |r| == |parts|
  {
    seq(|parts|, i requires 0 <= i < |parts| => DigitsValue(parts[i]))
  }

  function Head(a: seq<nat>): nat
  {
    if a == [] then 0 else a[0]
  }

  function Tail(a: seq<nat>): seq<nat>
  {
    if a == [] then [] else a[1..]
  }

  /** Components compared in order, numerically; a missing component counts as 0. */
  function CompareValues(a: seq<nat>, b: seq<nat>): (c: int)
    ensures -1 <= c <= 1
    decreases |a| + |b|
  {
    if a == [] && b == [] then 0
    else if Head(a) < Head(b) then -1
    else if Head(a) > Head(b) then 1
    else CompareValues(Tail(a), Tail(b))
  }

  lemma {:induction false} CompareValuesFlip(a: seq<nat>, b: seq<nat>)
    ensures CompareValues(b, a) == -CompareValues(a, b)
    decreases |a| + |b|
  {
    if !(a == [] && b == []) && Head(a) == Head(b) {
      CompareValuesFlip(Tail(a), Tail(b));
    }
  }

  lemma {:induction false} CompareValuesSelf(a: seq<nat>)
    ensures CompareValues(a, a) == 0
  {
    if a != [] {
      CompareValuesSelf(a[1..]);
    }
  }

  /**
   * The rule the version check is meant to apply: versions of dot-separated numbers
   * compare component by component as numbers; any other pair falls back to the text order.
   */
  predicate IsNewerVersion(remote: string, current: string)
  {
    match (VersionValues(remote), VersionValues(current))
    case (Some(r), Some(c)) => CompareValues(r, c) == 1
    case _ => AvailableAsWritten(remote, current)
  }

  /**
   * The rule as written is a strict order on the text of versions: never both ways,
   * never a version over itself, and a version newer than one newer than the current
   * is newer than the current.
   */
  lemma AsWrittenStrictOrder(a: string, b: string, c: string)
    ensures AvailableAsWritten(a, b) ==> !AvailableAsWritten(b, a)
    ensures !AvailableAsWritten(a, a)
    ensures AvailableAsWritten(a, b) && AvailableAsWritten(b, c) ==> AvailableAsWritten(a, c)
  {
    LocaleCompareFlip(a, b);
    if AvailableAsWritten(a, b) && AvailableAsWritten(b, c) && !AvailableAsWritten(a, c) {
      LocaleCompareFlip(b, c);
      LocaleCompareTrans(a, c, b);
    }
  }

  /** The corrected rule is a strict order: never both ways, never a version over itself. */
  lemma NewerVersionAsymmetric(a: string, b: string)
    ensures IsNewerVersion(a, b) ==> !IsNewerVersion(b, a)
    ensures !IsNewerVersion(a, a)
  {
    LocaleCompareFlip(a, b);
    match (VersionValues(a), VersionValues(b)) {
      case (Some(x), Some(y)) =>
        CompareValuesFlip(x, y);
      case _ =>
    }
    match VersionValues(a) {
      case Some(x) => CompareValuesSelf(x);
      case None =>
    }
  }

  /** The text order puts "1.10.0" before "1.9.0", so version 1.10.0 is not offered over 1.9.0. */
  lemma AsWrittenMissesMinorTen()
    ensures !AvailableAsWritten("1.10.0", "1.9.0")
  {
    var a, b := "1.10.0", "1.9.0";
    assert a[0] == b[0] && a[1] == b[1] && a[2] < b[2];
    assert LocaleCompare(a[2..], b[2..]) == -1;
    assert LocaleCompare(a[1..], b[1..]) == -1;
  }

  lemma JoinThree(x: string, y: string, z: string, sep: string)
    ensures Join([x, y, z], sep) == x + sep + y + sep + z
  {
    var parts := [x, y, z];
    assert parts[1..] == [y, z];
    assert [y, z][1..] == [z];
    assert Join([y, z], sep) == y + sep + z;
  }

  lemma SplitThree(x: string, y: string, z: string)
    requires '.' !in x && '.' !in y && '.' !in z
    ensures Split(x + "." + y + "." + z, '.') == [x, y, z]
  {
    JoinThree(x, y, z, ".");
    SplitJoin([x, y, z], '.');
  }

  lemma ValuesThree(x: string, y: string, z: string)
    requires IsNumeral(x) && IsNumeral(y) && IsNumeral(z)
    ensures AllNumerals([x, y, z]) && Values([x, y, z]) == [DigitsValue(x), DigitsValue(y), DigitsValue(z)]
  {
  }

  /**
   * Under the corrected rule, of two versions "x.y.z" with the same major number the one
   * with the greater minor number is newer, however many digits either has.
   */
  lemma NewerMinorVersion(x: string, y1: string, z1: string, y2: string, z2: string)
    requires IsNumeral(x) && IsNumeral(y1) && IsNumeral(z1) && IsNumeral(y2) && IsNumeral(z2)
    requires DigitsValue(y1) > DigitsValue(y2)
    ensures IsNewerVersion(x + "." + y1 + "." + z1, x + "." + y2 + "." + z2)
  {
    SplitThree(x, y1, z1);
    SplitThree(x, y2, z2);
    ValuesThree(x, y1, z1);
    ValuesThree(x, y2, z2);
    var va := [DigitsValue(x), DigitsValue(y1), DigitsValue(z1)];
    var vb := [DigitsValue(x), DigitsValue(y2), DigitsValue(z2)];
    assert Tail(va) == [DigitsValue(y1), DigitsValue(z1)] && Tail(vb) == [DigitsValue(y2), DigitsValue(z2)];
  }

  /** The corrected rule offers 1.10.0 over 1.9.0. */
  lemma NewerVersionMinorTen()
    ensures IsNewerVersion("1.10.0", "1.9.0")
  {
    assert IsNumeral("1") && IsNumeral("10") && IsNumeral("9") && IsNumeral("0");
    assert DigitsValue("10") == 10 by {
      assert "10"[..1] == "1";
    }
    NewerMinorVersion("1", "10", "0", "9", "0");
    assert "1" + "." + "10" + "." + "0" == "1.10.0";
    assert "1" + "." + "9" + "." + "0" == "1.9.0";
  }

  // ---------------------------------------------------------------- names and addresses

  /** Every occurrence of ".ext" in a name with no such occurrence in its stem is the final one. */
  lemma ExtensionOnlyAtEnd(stem: string, ext: string)
    requires '.' !in ext && !Contains(stem, "." + ext)
    ensures forall j :: 0 <= j < |stem| ==> !StartsWith((stem + ("." + ext))[j..], "." + ext)
  {
    var p := "." + ext;
    var text := stem + p;
    forall j | 0 <= j < |stem|
      ensures !StartsWith(text[j..], p)
    {
      if j + |p| <= |stem| {
        if StartsWith(text[j..], p) {
          assert stem[j..j + |p|] == p;
          ContainsAt(stem, p, j);
        }
      } else {
        var k := |stem| - j;
        assert text[j + k] == '.';
        assert p[k] == ext[k - 1];
        assert text[j..][k] != p[k];
      }
    }
  }

  /**
   * A name "stem.ext" whose extension has no '.' and does not occur earlier: replacing
   * ".ext" and swapping the text after the last '.' give the same "stem.fileExt".
   */
  lemma SwappedExtension(stem: string, ext: string, fileExt: string)
    requires '.' !in ext && !Contains(stem, "." + ext)
    ensures ReplaceFirst(stem + "." + ext, "." + ext, "." + fileExt) == stem + "." + fileExt
    ensures GetExecutablePath(stem + "." + ext, fileExt) == stem + "." + fileExt
  {
    assert ReplaceFirst(stem + "." + ext, "." + ext, "." + fileExt) == stem + "." + fileExt by {
      ExtensionOnlyAtEnd(stem, ext);
      ReplaceFirstAtEnd(stem, "." + ext, "." + fileExt);
      ConcatAssoc(stem, ".", ext);
      ConcatAssoc(stem, ".", fileExt);
    }
    ExecutablePathOfFileName(stem, ext, fileExt);
  }

  class UpdateService {
    const platformName: string
    const appName: string
    const webUrl: string
    const temporaryFileExtension: string
    const archName: string
    const updateDirectory: string
    /** `app.getVersion()`. */
    const currentVersion: string

    var updateState: Option<UpdateState>
    var updateInformation: Option<UpdateInformation>
    var updateDestinationPath: string
    var executablePath: string
    /** Every state sent to the windows, oldest first. */
    var announcements: seq<Announcement>
    /** Every download started, oldest first. */
    var downloads: seq<Download>

    /** The installer's name without its extension. */
    function Stem(version: string): string
    {
      Lower(appName) + "_" + version + "_" + platformName + "_" + archName + "_update"
    }

    /** The information `resolveUpdateInformation` derives from a version and its checksum. */
    function InformationFor(version: string, checksum: Option<string>): (info: UpdateInformation)
      ensures info.version == version && info.checksum == checksum
      ensures info.fileName == Stem(version) + "." + temporaryFileExtension
    {
      var fileName := Stem(version) + "." + temporaryFileExtension;
      var url := webUrl + "/update/"
        + ReplaceFirst(fileName, "." + temporaryFileExtension, "." + FileExt(platformName));
      UpdateInformation(version, fileName, url, checksum)
    }

    /** `path.join(updateDirectory, fileName)`, without normalisation. */
    function DestinationOf(fileName: string): string
    {
      updateDirectory + "/" + fileName
    }

    /**
     * The address downloaded is that of the executable file the service later looks
     * for, under the web address's `/update/`, as long as the temporary extension holds
     * no '.' and does not occur earlier in the name.
     */
    lemma DownloadNamesExecutable(version: string, checksum: Option<string>)
      requires '.' !in temporaryFileExtension
      requires !Contains(Stem(version), "." + temporaryFileExtension)
      ensures var info := InformationFor(version, checksum);
        && info.url == webUrl + "/update/" + GetExecutablePath(info.fileName, FileExt(platformName))
        && info.url == webUrl + "/update/" + Stem(version) + "." + FileExt(platformName)
    {
      var stem, ext, fileExt := Stem(version), temporaryFileExtension, FileExt(platformName);
      SwappedExtension(stem, ext, fileExt);
      var info := InformationFor(version, checksum);
      assert info.url == webUrl + "/update/" + (stem + "." + fileExt);
    }

    /**
     * The service's invariant: an available or downloaded update has its information,
     * and the paths are those derived from it.
     */
    ghost predicate Valid()
      reads this
    {
      && (updateState == Some(Available) || updateState == Some(Downloaded) ==> updateInformation.Some?)
      && (updateInformation.Some? ==>
            var info := updateInformation.value;
            && info == InformationFor(info.version, info.checksum)
            && executablePath == GetExecutablePath(info.fileName, FileExt(platformName))
            && updateDestinationPath == DestinationOf(info.fileName))
    }

    constructor(platformName: string, appName: string, webUrl: string, temporaryFileExtension: string,
                archName: string, updateDirectory: string, currentVersion: string)
      ensures Valid()
      ensures this.platformName == platformName && this.appName == appName && this.webUrl == webUrl
      ensures this.temporaryFileExtension == temporaryFileExtension && this.archName == archName
      ensures this.updateDirectory == updateDirectory && this.currentVersion == currentVersion
      ensures updateState.None? && updateInformation.None?
      ensures updateDestinationPath == "" && executablePath == ""
      ensures announcements == [] && downloads == []
    {
      this.platformName := platformName;
      this.appName := appName;
      this.webUrl := webUrl;
      this.temporaryFileExtension := temporaryFileExtension;
      this.archName := archName;
      this.updateDirectory := updateDirectory;
      this.currentVersion := currentVersion;
      updateState := None;
      updateInformation := None;
      updateDestinationPath := "";
      executablePath := "";
      announcements := [];
      downloads := [];
    }

    function VersionOf(info: Option<UpdateInformation>): Option<string>
    {
      if info.Some? then Some(info.value.version) else None
    }

    /** `isNewUpdateAvailable`: update information has been resolved. */
    function IsNewUpdateAvailable(): (r: bool)
      reads this
      requires Valid()
      ensures r <==> updateInformation.Some?
      ensures updateState == Some(Available) || updateState == Some(Downloaded) ==> r
    {
      updateInformation.Some?
    }

    /** `setUpdateState`: the state is set and sent to every window with the update's version. */
    method SetUpdateState(state: UpdateState)
      modifies this
      ensures updateState == Some(state)
      ensures announcements == old(announcements) + [Announcement(state, VersionOf(updateInformation))]
      ensures updateInformation == old(updateInformation) && downloads == old(downloads)
      ensures executablePath == old(executablePath) && updateDestinationPath == old(updateDestinationPath)
    {
      updateState := Some(state);
      announcements := announcements + [Announcement(state, VersionOf(updateInformation))];
    }

    /** `resolveUpdateInformation`: the update's file name, address, destination and executable path. */
    method ResolveUpdateInformation(metadata: UpdateMetadata)
      modifies this
      ensures updateInformation == Some(InformationFor(metadata.version, metadata.checksum))
      ensures updateDestinationPath == DestinationOf(updateInformation.value.fileName)
      ensures executablePath == GetExecutablePath(updateInformation.value.fileName, FileExt(platformName))
      ensures updateState == old(updateState) && announcements == old(announcements)
      ensures downloads == old(downloads)
    {
      var info := InformationFor(metadata.version, metadata.checksum);
      updateInformation := Some(info);
      updateDestinationPath := DestinationOf(info.fileName);
      executablePath := GetExecutablePath(info.fileName, FileExt(platformName));
    }

    /**
     * `isAnyValidUpdateFile`: whether the directory holds the executable with a valid
     * signature; finding it sets the Downloaded state.
     */
    method IsAnyValidUpdateFile(files: seq<UpdateFile>) returns (found: bool)
      modifies this
      ensures found <==> exists f :: f in files && f.name == executablePath && f.verified
      ensures found ==>
        updateState == Some(Downloaded)
        && announcements == old(announcements) + [Announcement(Downloaded, VersionOf(updateInformation))]
      ensures !found ==> updateState == old(updateState) && announcements == old(announcements)
      ensures updateInformation == old(updateInformation) && downloads == old(downloads)
      ensures executablePath == old(executablePath) && updateDestinationPath == old(updateDestinationPath)
    {
      found := exists f :: f in files && f.name == executablePath && f.verified;
      if found {
        SetUpdateState(Downloaded);
      }
    }

    /** `getUpdate`: the update is downloaded from its address into its destination. */
    method GetUpdate()
      requires updateInformation.Some?
      modifies this
      ensures updateInformation == old(updateInformation)
      ensures downloads == old(downloads) + [Download(updateInformation.value.url, updateDestinationPath)]
      ensures updateState == old(updateState) && announcements == old(announcements)
      ensures executablePath == old(executablePath) && updateDestinationPath == old(updateDestinationPath)
    {
      downloads := downloads + [Download(updateInformation.value.url, updateDestinationPath)];
    }

    /** What follows a newer version being found: its information, the state, and a download unless it is there. */
    method OnAvailable(metadata: UpdateMetadata, files: seq<UpdateFile>)
      requires Valid()
      modifies this
      ensures Valid()
      ensures updateInformation == Some(InformationFor(metadata.version, metadata.checksum))
      ensures var exe := GetExecutablePath(updateInformation.value.fileName, FileExt(platformName));
        var found := exists f :: f in files && f.name == exe && f.verified;
        && (found ==>
              && updateState == Some(Downloaded) && downloads == old(downloads)
              && announcements == old(announcements)
                 + [Announcement(Available, Some(metadata.version)), Announcement(Downloaded, Some(metadata.version))])
        && (!found ==>
              && updateState == Some(Available)
              && announcements == old(announcements) + [Announcement(Available, Some(metadata.version))]
              && downloads == old(downloads) + [Download(updateInformation.value.url, DestinationOf(updateInformation.value.fileName))])
    {
      ResolveUpdateInformation(metadata);
      SetUpdateState(Available);
      var found := IsAnyValidUpdateFile(files);
      if !found {
        GetUpdate();
      }
    }

    /**
     * `checkForUpdates` with `response` the request's body or error and `files` the
     * update directory: an update already available or downloaded is announced again
     * and reported without a request; otherwise the platform's metadata line decides,
     * by the version rule as written (text order, see `AsWrittenMissesMinorTen`),
     * between an available update and none.
     */
    method CheckForUpdates(response: Result<string, string>, files: seq<UpdateFile>) returns (outcome: CheckOutcome)
      requires Valid()
      modifies this
      ensures Valid()
      ensures old(updateState) == Some(Available) || old(updateState) == Some(Downloaded) ==>
        && outcome == Resolved(true)
        && updateState == old(updateState)
        && announcements == old(announcements) + [Announcement(old(updateState).value, VersionOf(old(updateInformation)))]
        && updateInformation == old(updateInformation) && downloads == old(downloads)
      ensures old(updateState) != Some(Available) && old(updateState) != Some(Downloaded) ==>
        match response
        case Err(e) =>
          outcome == Rejected(e) && updateState == old(updateState) && announcements == old(announcements)
          && updateInformation == old(updateInformation) && downloads == old(downloads)
        case Ok(body) =>
          match ParseMetadata(body, platformName)
          case None =>
            outcome == Unsettled && updateState == old(updateState) && announcements == old(announcements)
            && updateInformation == old(updateInformation) && downloads == old(downloads)
          case Some(m) =>
            && outcome == Resolved(AvailableAsWritten(m.version, currentVersion))
            && (AvailableAsWritten(m.version, currentVersion) ==>
                  var info := InformationFor(m.version, m.checksum);
                  var exe := GetExecutablePath(info.fileName, FileExt(platformName));
                  var found := exists f :: f in files && f.name == exe && f.verified;
                  && updateInformation == Some(info)
                  && (found ==>
                        && updateState == Some(Downloaded) && downloads == old(downloads)
                        && announcements == old(announcements)
                           + [Announcement(Available, Some(m.version)), Announcement(Downloaded, Some(m.version))])
                  && (!found ==>
                        && updateState == Some(Available)
                        && announcements == old(announcements) + [Announcement(Available, Some(m.version))]
                        && downloads == old(downloads) + [Download(info.url, DestinationOf(info.fileName))]))
            && (!AvailableAsWritten(m.version, currentVersion) ==>
                  updateState == Some(NotAvailable) && updateInformation == old(updateInformation)
                  && announcements == old(announcements) + [Announcement(NotAvailable, VersionOf(old(updateInformation)))]
                  && downloads == old(downloads))
    {
      if updateState == Some(Available) || updateState == Some(Downloaded) {
        SetUpdateState(updateState.value);
        return Resolved(true);
      }
      match response {
        case Err(e) =>
          return Rejected(e);
        case Ok(body) =>
          var metadata := ParseMetadata(body, platformName);
          if metadata.None? {
            return Unsettled;
          }
          var isUpdateAvailable := AvailableAsWritten(metadata.value.version, currentVersion);
          if isUpdateAvailable {
            OnAvailable(metadata.value, files);
          } else {
            SetUpdateState(NotAvailable);
          }
          return Resolved(isUpdateAvailable);
      }
    }

    /** The CheckUpdate message: a rejected check sets the ConnectionFailed state. */
    method OnCheckUpdate(response: Result<string, string>, files: seq<UpdateFile>)
      requires Valid()
      modifies this
      ensures Valid()
      ensures old(updateState) != Some(Available) && old(updateState) != Some(Downloaded) && response.Err? ==>
        updateState == Some(ConnectionFailed)
        && announcements == old(announcements) + [Announcement(ConnectionFailed, VersionOf(old(updateInformation)))]
    {
      var outcome := CheckForUpdates(response, files);
      if outcome.Rejected? {
        SetUpdateState(ConnectionFailed);
      }
    }
  }
}
