/**
 * Where the frp binaries live and which version is current: the release
 * directory `~/.frp-electron/frp-release`, the `current-version` and
 * `frp-version` files in it, the executable of a version, and
 * `checkCurrentVersion`, which reports whether the current version is
 * usable.
 *
 * `path.join` is modelled as joining the segments with the platform's
 * separator; the file system is a map from path to file text, and a path
 * exists when it is a key.
 */
module FrpManage {
  import opened Wrappers
  import Text
  import VersionPattern

  type FileSystem = map<string, string>

  datatype Executable = Frps | Frpc

  function ExecutableName(e: Executable): string
  {
    match e
    case Frps => "frps"
    case Frpc => "frpc"
  }

  /** `process.platform === 'win32'`. */
  predicate IsWindows(platform: string)
  {
    platform == "win32"
  }

  /** The separator `path.join` uses on the platform. */
  function Separator(platform: string): string
  {
    if IsWindows(platform) then "\\" else "/"
  }

  /** The segments of `getFrpReleasePath()` under the home directory. */
  function ReleaseSegments(home: string): seq<string>
  {
    [home, ".frp-electron", "frp-release"]
  }

  /** A file or directory path inside the release directory. */
  function InRelease(home: string, platform: string, names: seq<string>): string
  {
    Text.Join(ReleaseSegments(home) + names, Separator(platform))
  }

  /** `getCurrentVersionFilePath()`. */
  function CurrentVersionPath(home: string, platform: string): string
  {
    InRelease(home, platform, ["current-version"])
  }

  /** The registry of installed versions, `frp-release/frp-version`. */
  function RegistryPath(home: string, platform: string): string
  {
    InRelease(home, platform, ["frp-version"])
  }

  /** The extension executables carry on the platform. */
  function Extension(platform: string): string
  {
    if IsWindows(platform) then ".exe" else ""
  }

  /** `getExecutablePath(version, executable)`. */
  function ExecutablePath(home: string, platform: string, version: string, e: Executable): string
  {
    InRelease(home, platform, [version, ExecutableName(e) + Extension(platform)])
  }

  predicate EndsWith(s: string, suffix: string)
  {
    |suffix| <= |s| && s[|s| - |suffix|..] == suffix
  }

  /** What `checkCurrentVersion` reports. */
  datatype VersionStatus = VersionStatus(hasVersion: bool, version: Option<string>, hasFrps: bool, hasFrpc: bool)

  /** The all-negative report. */
  const NoVersion := VersionStatus(false, None, false, false)

  /**
   * The report never claims an executable without a version, never carries
   * a version it does not have, and only ever carries a valid one.
   */
  predicate Consistent(r: VersionStatus)
  {
    && (r.hasFrps || r.hasFrpc ==> r.hasVersion)
    && (!r.hasVersion ==> r.version.None?)
    && (r.hasVersion ==> r.version.Some? && VersionPattern.IsValidVersion(r.version.value))
  }

  /**
   * `checkCurrentVersion()`: nothing without a `current-version` file or
   * with an invalid trimmed content; otherwise the version and whether
   * each executable of it exists.
   */
  function CheckCurrentVersion(fs: FileSystem, home: string, platform: string): (r: VersionStatus)
    ensures Consistent(r)
  {
    var path := CurrentVersionPath(home, platform);
    if path !in fs then NoVersion
    else
      var version := Text.Trim(fs[path]);
      if !VersionPattern.IsValidVersion(version) then NoVersion
      else
        VersionStatus(true, Some(version),
          ExecutablePath(home, platform, version, Frps) in fs,
          ExecutablePath(home, platform, version, Frpc) in fs)
  }

  // ---------------------------------------------------------------------------
  // Lemmas

  /** A path in the release directory ends with a separator and its last name. */
  lemma InReleaseEnds(home: string, platform: string, names: seq<string>, last: string)
    ensures InRelease(home, platform, names + [last])
      == InRelease(home, platform, names) + Separator(platform) + last
  {
    assert ReleaseSegments(home) + (names + [last]) == (ReleaseSegments(home) + names) + [last];
    Text.JoinSnoc(ReleaseSegments(home) + names, last, Separator(platform));
  }

  /** Two release paths with the same prefix and equally long last names agree on both. */
  lemma SameEnding(p: string, q: string, sep: string, a: string, b: string)
    requires |a| == |b| && p + sep + a == q + sep + b
    ensures p == q && a == b
  {
    var s := p + sep + a;
    assert s[|s| - |a|..] == a;
    assert (q + sep + b)[|s| - |b|..] == b;
    assert s[..|p|] == p;
    assert (q + sep + b)[..|q|] == q;
  }

  /** An executable path ends in `.exe` exactly on Windows. */
  lemma ExecutableExtension(home: string, platform: string, version: string, e: Executable)
    ensures EndsWith(ExecutablePath(home, platform, version, e), ".exe") <==> IsWindows(platform)
  {
    var name := ExecutableName(e) + Extension(platform);
    InReleaseEnds(home, platform, [version], name);
    assert [version] + [name] == [version, name];
    var p := ExecutablePath(home, platform, version, e);
    var front := InRelease(home, platform, [version]) + Separator(platform);
    assert p == front + name;
    assert p[|p| - |name|..] == name;
    if !IsWindows(platform) {
      assert name[0] == 'f';
      assert p[|p| - 4] == name[0];
    } else {
      assert p[|p| - 4..] == name[|name| - 4..];
    }
  }

  /**
   * Executable paths determine their version and executable: distinct
   * versions never share a binary, and frps and frpc of one version differ.
   */
  lemma ExecutablePathInjective(home: string, platform: string, v1: string, e1: Executable, v2: string, e2: Executable)
    requires ExecutablePath(home, platform, v1, e1) == ExecutablePath(home, platform, v2, e2)
    ensures v1 == v2 && e1 == e2
  {
    var sep := Separator(platform);
    var n1 := ExecutableName(e1) + Extension(platform);
    var n2 := ExecutableName(e2) + Extension(platform);
    InReleaseEnds(home, platform, [v1], n1);
    InReleaseEnds(home, platform, [v2], n2);
    assert [v1] + [n1] == [v1, n1] && [v2] + [n2] == [v2, n2];
    SameEnding(InRelease(home, platform, [v1]), InRelease(home, platform, [v2]), sep, n1, n2);
    assert [] + [v1] == [v1] && [] + [v2] == [v2];
    InReleaseEnds(home, platform, [], v1);
    InReleaseEnds(home, platform, [], v2);
    Prefixed(InRelease(home, platform, []) + sep, v1, v2);
    assert ExecutableName(e1) == n1[..4] && ExecutableName(e2) == n2[..4];
  }

  lemma Prefixed(p: string, a: string, b: string)
    requires p + a == p + b
    ensures a == b
  {
    assert a == (p + a)[|p|..];
    assert b == (p + b)[|p|..];
  }

  /**
   * The version files are distinct files, and no executable path is either
   * of them.
   */
  lemma PathsDistinct(home: string, platform: string, version: string, e: Executable)
    ensures CurrentVersionPath(home, platform) != RegistryPath(home, platform)
    ensures ExecutablePath(home, platform, version, e) != CurrentVersionPath(home, platform)
    ensures ExecutablePath(home, platform, version, e) != RegistryPath(home, platform)
  {
    var sep := Separator(platform);
    var front := InRelease(home, platform, []);
    assert [] + ["current-version"] == ["current-version"] && [] + ["frp-version"] == ["frp-version"];
    assert [] + [version] == [version];
    InReleaseEnds(home, platform, [], "current-version");
    InReleaseEnds(home, platform, [], "frp-version");
    InReleaseEnds(home, platform, [], version);
    var name := ExecutableName(e) + Extension(platform);
    InReleaseEnds(home, platform, [version], name);
    assert [version] + [name] == [version, name];
    assert ExecutablePath(home, platform, version, e) == front + sep + version + sep + name;
    assert front + sep + version + sep + name == (front + sep) + (version + sep + name);
    if CurrentVersionPath(home, platform) == RegistryPath(home, platform) {
      Prefixed(front + sep, "current-version", "frp-version");
    }
    assert (version + sep + name)[|version|] == sep[0];
    NotAReleaseFile(front + sep, version + sep + name, "current-version", sep, |version|);
    NotAReleaseFile(front + sep, version + sep + name, "frp-version", sep, |version|);
  }

  /** A tail holding the separator is not a release file name, which has none. */
  lemma NotAReleaseFile(p: string, tail: string, name: string, sep: string, at: nat)
    requires |sep| == 1 && at < |tail| && tail[at] == sep[0] && sep[0] !in name
    ensures p + tail != p + name
  {
    if |tail| == |name| {
      assert name[at] in name;
      assert (p + tail)[|p| + at] == tail[at];
      assert (p + name)[|p| + at] == name[at];
    }
  }

  /**
   * The decision table of `checkCurrentVersion`: a version is reported
   * exactly when the file exists and its trimmed text is a valid version,
   * and then the report names that version and the executables that exist.
   */
  lemma CheckDecision(fs: FileSystem, home: string, platform: string)
    ensures var r := CheckCurrentVersion(fs, home, platform);
      var path := CurrentVersionPath(home, platform);
      && (r.hasVersion <==> path in fs && VersionPattern.IsValidVersion(Text.Trim(fs[path])))
      && (!r.hasVersion ==> r == NoVersion)
      && (r.hasVersion ==>
            var v := Text.Trim(fs[path]);
            && r.version == Some(v)
            && (r.hasFrps <==> ExecutablePath(home, platform, v, Frps) in fs)
            && (r.hasFrpc <==> ExecutablePath(home, platform, v, Frpc) in fs))
  {
  }

  /**
   * The check reads nothing but the version file and the two executables:
   * file systems that agree there get the same report.
   */
  lemma CheckReadsOnly(fs1: FileSystem, fs2: FileSystem, home: string, platform: string)
    requires var path := CurrentVersionPath(home, platform);
      && (path in fs1 <==> path in fs2)
      && (path in fs1 ==> fs1[path] == fs2[path])
      && forall v: string, e: Executable ::
           ExecutablePath(home, platform, v, e) in fs1 <==> ExecutablePath(home, platform, v, e) in fs2
    ensures CheckCurrentVersion(fs1, home, platform) == CheckCurrentVersion(fs2, home, platform)
  {
  }

  /** White space around the version in the file does not matter. */
  lemma CheckIgnoresPadding(fs: FileSystem, home: string, platform: string, pre: string, v: string, post: string)
    requires Text.IsBlank(pre) && Text.IsBlank(post)
    ensures var path := CurrentVersionPath(home, platform);
      CheckCurrentVersion(fs[path := pre + v + post], home, platform)
        == CheckCurrentVersion(fs[path := v], home, platform)
  {
    Text.TrimPadded(pre, v, post);
  }
}
