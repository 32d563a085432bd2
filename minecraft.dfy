/** An installed game version: where its files live, and how `launch` turns
    the release manifest into the flags, class path and arguments of the game
    process. */
module Minecraft {
  import opened Wrappers
  import opened Host
  import opened Versions
  import JavaStrings

  // ---------------------------------------------------------------------------
  // Paths

  /** `String.format("versions/%1$s/%1$s", id)`. */
  function FormatVersionPath(id: string): (r: string)
    ensures |r| == 10 + 2 * |id|
    ensures r[..9] == "versions/" && r[9..9 + |id|] == id && r[9 + |id|..] == "/" + id
  {
    var r := "versions/" + id + "/" + id;
    assert r[..9] == "versions/";
    assert r[9..9 + |id|] == id;
    assert r[9 + |id|..] == "/" + id;
    r
  }

  /** Different version ids never share a version path. */
  lemma VersionPathInjective(a: string, b: string)
    requires FormatVersionPath(a) == FormatVersionPath(b)
    ensures a == b
  {
    var pa, pb := FormatVersionPath(a), FormatVersionPath(b);
    assert |a| == |b|;
    assert pa[9..9 + |a|] == pb[9..9 + |b|];
  }

  /** Version paths of different ids stay different when the same suffix is
      added to both. */
  lemma VersionPathSuffixDiffers(a: string, b: string, suffix: string)
    requires a != b
    ensures FormatVersionPath(a) + suffix != FormatVersionPath(b) + suffix
  {
    var pa, pb := FormatVersionPath(a) + suffix, FormatVersionPath(b) + suffix;
    if |a| == |b| {
      assert pa[9..9 + |a|] == a;
      assert pb[9..9 + |b|] == b;
    } else {
      assert |pa| != |pb|;
    }
  }

  /** The profile an installation belongs to: its content directory and the
      directory shared between its installations (both absolute). */
  datatype Profile = Profile(contentDir: Path, sharedDir: Path)

  /** The player the game is launched for. */
  datatype Identity = Identity(name: string, accessToken: string, clientToken: string)

  /** What a launch is given besides the installation. The environment is the
      one `Library.getPath` resolves each library's path for; that resolution
      happens before the model, in `Library.path`. */
  datatype LaunchContext = LaunchContext(identity: Identity, environment: Environment)

  /** The extraction rule of a native library: the entries to leave out. */
  datatype Extract = Extract(exclude: seq<string>)

  /** A library of the release manifest, with its path for the launch
      environment, relative to the libraries directory. */
  datatype Library = Library(path: string, extract: Option<Extract>)

  /** The parts of the release manifest that `launch` reads. */
  datatype ReleaseManifest = ReleaseManifest(
    id: string, mainClass: string, minecraftArguments: string, libraries: seq<Library>)

  /** A native library unpacked into the extraction directory. */
  datatype Extraction = Extraction(archive: Path, into: Path, exclude: seq<string>)

  /** Where `launch` puts one library. */
  datatype LibraryUse = Skipped | Extracted(extraction: Extraction) | OnClassPath(path: Path)

  /** What `launch` hands to the process builder. */
  datatype LaunchPlan = LaunchPlan(
    flags: seq<string>, classPath: seq<Path>, args: seq<string>, mainClass: string,
    extractions: seq<Extraction>, directory: Path)

  /** Why `launch` throws. */
  datatype LaunchError = UpdateRequired(message: string) | ManifestUnreadable(file: Path)

  /** The values substituted into the argument template. */
  datatype ArgumentValues = ArgumentValues(
    versionName: string, gameDirectory: string, gameAssets: string,
    playerName: string, accessToken: string, session: string)

  // ---------------------------------------------------------------------------
  // Argument templating

  /** The placeholders of the argument template, in the order `launch`
      replaces them. */
  const PlaceholderNames: seq<string> := [
    "${version_name}", "${game_directory}", "${game_assets}", "${auth_player_name}",
    "${auth_username}", "${auth_access_token}", "${auth_session}"]

  /** The value for each placeholder, position by position (the player name
      serves both name placeholders). */
  function PlaceholderValues(v: ArgumentValues): (r: seq<string>)
    ensures |r| == |PlaceholderNames|
  {
    [v.versionName, v.gameDirectory, v.gameAssets, v.playerName, v.playerName, v.accessToken, v.session]
  }

  /** A chain of `replace` calls: each name in turn, every occurrence, by its value. */
  function ReplaceEach(s: string, names: seq<string>, values: seq<string>): string
    requires |names| == |values|
    requires forall i :: 0 <= i < |names| ==> names[i] != []
    decreases |names|
  {
    if names == [] then s
    else ReplaceEach(JavaStrings.Replace(s, names[0], values[0]), names[1..], values[1..])
  }

  /** One template token after the seven replacements. */
  function SubstituteArgument(token: string, v: ArgumentValues): string
  {
    ReplaceEach(token, PlaceholderNames, PlaceholderValues(v))
  }

  /** A placeholder: `${`, then no `$` and no `}`, then a closing `}`. */
  predicate IsPlaceholder(t: string)
  {
    |t| >= 3 && t[0] == '$' && t[1] == '{' && t[|t| - 1] == '}'
    && '$' !in t[1..] && '}' !in t[..|t| - 1]
  }

  /** A placeholder's only `}` is its last character. */
  lemma ClosingBraceOnlyAtEnd(t: string)
    requires IsPlaceholder(t)
    ensures forall i :: 0 <= i < |t| - 1 ==> t[i] != '}'
  {
    forall i | 0 <= i < |t| - 1
      ensures t[i] != '}'
    {
      assert t[..|t| - 1][i] == t[i];
    }
  }

  /** A placeholder occurs inside another placeholder only when the two are
      the same. */
  lemma PlaceholderOccursOnlyWhole(s: string, t: string)
    requires IsPlaceholder(s) && IsPlaceholder(t)
    ensures JavaStrings.Occurs(s, t) ==> s == t
  {
    if JavaStrings.Occurs(s, t) {
      JavaStrings.OccursOnlyAsPrefix(s, t);
      assert s[|t| - 1] == t[|t| - 1];
      ClosingBraceOnlyAtEnd(s);
      assert s == s[..|t|];
    }
  }

  lemma VersionNameIsPlaceholder() ensures IsPlaceholder("${version_name}") {}
  lemma GameDirectoryIsPlaceholder() ensures IsPlaceholder("${game_directory}") {}
  lemma GameAssetsIsPlaceholder() ensures IsPlaceholder("${game_assets}") {}
  lemma PlayerNameIsPlaceholder() ensures IsPlaceholder("${auth_player_name}") {}
  lemma UsernameIsPlaceholder() ensures IsPlaceholder("${auth_username}") {}
  lemma AccessTokenIsPlaceholder() ensures IsPlaceholder("${auth_access_token}") {}
  lemma SessionIsPlaceholder() ensures IsPlaceholder("${auth_session}") {}

  /** The seven placeholder names are placeholders, and pairwise different. */
  lemma PlaceholderNamesWellFormed()
    ensures forall i :: 0 <= i < |PlaceholderNames| ==> IsPlaceholder(PlaceholderNames[i])
    ensures forall i, j :: 0 <= i < j < |PlaceholderNames| ==> PlaceholderNames[i] != PlaceholderNames[j]
  {
    VersionNameIsPlaceholder();
    GameDirectoryIsPlaceholder();
    GameAssetsIsPlaceholder();
    PlayerNameIsPlaceholder();
    UsernameIsPlaceholder();
    AccessTokenIsPlaceholder();
    SessionIsPlaceholder();
    assert "${version_name}"[2] != "${auth_session}"[2];
  }

  /** A string in which no name occurs goes through the chain unchanged. */
  lemma {:induction false} ReplaceEachAbsent(s: string, names: seq<string>, values: seq<string>)
    requires |names| == |values|
    requires forall i :: 0 <= i < |names| ==> names[i] != [] && !JavaStrings.Occurs(s, names[i])
    ensures ReplaceEach(s, names, values) == s
    decreases |names|
  {
    if names != [] {
      JavaStrings.ReplaceAbsent(s, names[0], values[0]);
      ReplaceEachAbsent(s, names[1..], values[1..]);
    }
  }

  /** A token that is exactly the `k`-th name becomes the `k`-th value, when
      that name contains none of the names before it and the value none of
      the names after it. */
  lemma {:induction false} ReplaceEachExact(names: seq<string>, values: seq<string>, k: nat)
    requires |names| == |values| && k < |names|
    requires forall i :: 0 <= i < |names| ==> names[i] != []
    requires forall j :: 0 <= j < k ==> !JavaStrings.Occurs(names[k], names[j])
    requires forall j :: k < j < |names| ==> !JavaStrings.Occurs(values[k], names[j])
    ensures ReplaceEach(names[k], names, values) == values[k]
    decreases k
  {
    if k == 0 {
      JavaStrings.ReplaceWhole(names[0], values[0]);
      ReplaceEachAbsent(values[0], names[1..], values[1..]);
    } else {
      JavaStrings.ReplaceAbsent(names[k], names[0], values[0]);
      ReplaceEachExact(names[1..], values[1..], k - 1);
    }
  }

  /** Template tokens without a `$` pass through verbatim. */
  lemma PlainArgumentVerbatim(token: string, v: ArgumentValues)
    requires '$' !in token
    ensures SubstituteArgument(token, v) == token
  {
    PlaceholderNamesWellFormed();
    forall i | 0 <= i < |PlaceholderNames|
      ensures !JavaStrings.Occurs(token, PlaceholderNames[i])
    {
      JavaStrings.AbsentFirstCharNeverOccurs(token, PlaceholderNames[i]);
    }
    ReplaceEachAbsent(token, PlaceholderNames, PlaceholderValues(v));
  }

  /** A token that is exactly one placeholder becomes that placeholder's
      value, provided no value contains a `$`. */
  lemma PlaceholderArgumentBecomesValue(v: ArgumentValues, k: nat)
    requires k < |PlaceholderNames|
    requires forall i :: 0 <= i < |PlaceholderNames| ==> '$' !in PlaceholderValues(v)[i]
    ensures SubstituteArgument(PlaceholderNames[k], v) == PlaceholderValues(v)[k]
  {
    var names, values := PlaceholderNames, PlaceholderValues(v);
    PlaceholderNamesWellFormed();
    forall j | 0 <= j < k
      ensures !JavaStrings.Occurs(names[k], names[j])
    {
      PlaceholderOccursOnlyWhole(names[k], names[j]);
    }
    forall j | k < j < |names|
      ensures !JavaStrings.Occurs(values[k], names[j])
    {
      JavaStrings.AbsentFirstCharNeverOccurs(values[k], names[j]);
    }
    ReplaceEachExact(names, values, k);
  }

  /** One step of the chain: the `i`-th replacement, then the rest. */
  lemma ReplaceEachStep(s: string, names: seq<string>, values: seq<string>, i: nat)
    requires |names| == |values| && i < |names|
    requires forall j :: 0 <= j < |names| ==> names[j] != []
    ensures ReplaceEach(s, names[i..], values[i..])
      == ReplaceEach(JavaStrings.Replace(s, names[i], values[i]), names[i + 1..], values[i + 1..])
  {
    assert names[i..][1..] == names[i + 1..];
    assert values[i..][1..] == values[i + 1..];
  }

  /** A different placeholder never starts where a placeholder does. */
  lemma OtherPlaceholderNotAtHead(s: string, b: string, t: string)
    requires IsPlaceholder(s) && IsPlaceholder(t) && s != t
    requires |t| <= |s + b|
    ensures (s + b)[..|t|] != t
  {
    PlaceholderOccursOnlyWhole(s, t);
    if |t| <= |s| {
      assert (s + b)[..|t|] == s[..|t|];
    } else {
      ClosingBraceOnlyAtEnd(t);
      assert (s + b)[..|t|][|s| - 1] == s[|s| - 1];
    }
  }

  /** Replacing a different placeholder leaves a placeholder followed by
      `$`-free text unchanged. */
  lemma ReplaceOtherPlaceholder(s: string, b: string, t: string, r: string)
    requires IsPlaceholder(s) && IsPlaceholder(t) && s != t && '$' !in b
    ensures JavaStrings.Replace(s + b, t, r) == s + b
  {
    var x := s + b;
    if |x| >= |t| {
      OtherPlaceholderNotAtHead(s, b, t);
      assert x[1..] == s[1..] + b;
      assert '$' !in x[1..];
      JavaStrings.AbsentFirstCharNeverOccurs(x[1..], t);
      JavaStrings.ReplaceAbsent(x[1..], t, r);
      assert [x[0]] + x[1..] == x;
    }
  }

  /** A token holding the `k`-th placeholder between `$`-free text becomes the
      text around the `k`-th value, when the names are distinct placeholders
      and that value holds no `$`. */
  lemma {:induction false} ReplaceEachEmbedded(a: string, b: string, names: seq<string>, values: seq<string>, k: nat)
    requires |names| == |values| && k < |names|
    requires forall i :: 0 <= i < |names| ==> names[i] != [] && IsPlaceholder(names[i])
    requires forall j :: 0 <= j < k ==> names[j] != names[k]
    requires '$' !in a && '$' !in b && '$' !in values[k]
    ensures ReplaceEach(a + names[k] + b, names, values) == a + values[k] + b
    decreases k
  {
    var n0, v0 := names[0], values[0];
    if k == 0 {
      JavaStrings.ReplaceAfterPlainPrefix(a, n0, b, v0);
      JavaStrings.AbsentFirstCharNeverOccurs(b, n0);
      JavaStrings.ReplaceAbsent(b, n0, v0);
      var x := a + v0 + b;
      assert '$' !in x;
      forall i | 0 <= i < |names[1..]|
        ensures names[1..][i] != [] && !JavaStrings.Occurs(x, names[1..][i])
      {
        JavaStrings.AbsentFirstCharNeverOccurs(x, names[1..][i]);
      }
      ReplaceEachAbsent(x, names[1..], values[1..]);
    } else {
      var nk := names[k];
      assert a + nk + b == a + (nk + b);
      JavaStrings.ReplaceAfterPlain(a, nk + b, n0, v0);
      ReplaceOtherPlaceholder(nk, b, n0, v0);
      ReplaceEachEmbedded(a, b, names[1..], values[1..], k - 1);
    }
  }

  /** A placeholder inside other `$`-free text, as in "--gameDir=${game_directory}",
      is replaced by its value and the text around it is kept, provided that
      value holds no `$`. */
  lemma PlaceholderInTextBecomesValue(a: string, b: string, v: ArgumentValues, k: nat)
    requires k < |PlaceholderNames|
    requires '$' !in a && '$' !in b && '$' !in PlaceholderValues(v)[k]
    ensures SubstituteArgument(a + PlaceholderNames[k] + b, v) == a + PlaceholderValues(v)[k] + b
  {
    PlaceholderNamesWellFormed();
    ReplaceEachEmbedded(a, b, PlaceholderNames, PlaceholderValues(v), k);
  }

  /** A token that is the `k`-th placeholder, whose value is the later `m`-th
      placeholder, comes out as the `m`-th value: each `replace` also scans
      what the earlier ones put in. */
  lemma {:induction false} ReplaceEachChained(names: seq<string>, values: seq<string>, k: nat, m: nat)
    requires |names| == |values| && k < m < |names|
    requires forall i :: 0 <= i < |names| ==> names[i] != [] && IsPlaceholder(names[i])
    requires forall i, j :: 0 <= i < j < |names| ==> names[i] != names[j]
    requires values[k] == names[m] && '$' !in values[m]
    ensures ReplaceEach(names[k], names, values) == values[m]
    decreases k
  {
    if k == 0 {
      JavaStrings.ReplaceWhole(names[0], values[0]);
      assert [] + names[1..][m - 1] + [] == values[0];
      ReplaceEachEmbedded([], [], names[1..], values[1..], m - 1);
    } else {
      assert names[k] + [] == names[k];
      ReplaceOtherPlaceholder(names[k], [], names[0], values[0]);
      ReplaceEachChained(names[1..], values[1..], k - 1, m - 1);
    }
  }

  /** The chain re-scans what it has substituted: a player name that is itself
      the session placeholder comes out as the client token. */
  lemma PlayerNameIsRescanned(v: ArgumentValues)
    requires v.playerName == "${auth_session}" && '$' !in v.session
    ensures SubstituteArgument("${auth_player_name}", v) == v.session
  {
    PlaceholderNamesWellFormed();
    ReplaceEachChained(PlaceholderNames, PlaceholderValues(v), 3, 6);
  }

  /** The seven `replace` calls `launch` applies to each token, in order. */
  method Substitute(token: string, v: ArgumentValues) returns (arg: string)
    ensures arg == SubstituteArgument(token, v)
  {
    ghost var names, values := PlaceholderNames, PlaceholderValues(v);
    assert forall j :: 0 <= j < |names| ==> names[j] != [];
    assert names[0..] == names && values[0..] == values;
    arg := token;
    ReplaceEachStep(arg, names, values, 0);
    arg := JavaStrings.Replace(arg, "${version_name}", v.versionName);
    ReplaceEachStep(arg, names, values, 1);
    arg := JavaStrings.Replace(arg, "${game_directory}", v.gameDirectory);
    ReplaceEachStep(arg, names, values, 2);
    arg := JavaStrings.Replace(arg, "${game_assets}", v.gameAssets);
    ReplaceEachStep(arg, names, values, 3);
    arg := JavaStrings.Replace(arg, "${auth_player_name}", v.playerName);
    ReplaceEachStep(arg, names, values, 4);
    arg := JavaStrings.Replace(arg, "${auth_username}", v.playerName);
    ReplaceEachStep(arg, names, values, 5);
    arg := JavaStrings.Replace(arg, "${auth_access_token}", v.accessToken);
    ReplaceEachStep(arg, names, values, 6);
    arg := JavaStrings.Replace(arg, "${auth_session}", v.session);
    assert names[7..] == [] && values[7..] == [];
  }

  /** Each token of the argument string yields one argument, in token order. */
  method SubstituteAll(tokens: seq<string>, v: ArgumentValues) returns (args: seq<string>)
    ensures |args| == |tokens|
    ensures forall i :: 0 <= i < |tokens| ==> args[i] == SubstituteArgument(tokens[i], v)
  {
    args := [];
    var i := 0;
    while i < |tokens|
      invariant 0 <= i <= |tokens|
      invariant |args| == i
      invariant forall j :: 0 <= j < i ==> args[j] == SubstituteArgument(tokens[j], v)
    {
      var arg := Substitute(tokens[i], v);
      args := args + [arg];
      i := i + 1;
    }
  }

  // ---------------------------------------------------------------------------
  // Libraries

  /** Where one library goes: nowhere when its file is missing; unpacked into
      the extraction directory when it has an extraction rule; otherwise onto
      the class path. */
  function Classify(lib: Library, librariesDir: Path, existing: set<Path>, extractDir: Path): (u: LibraryUse)
    ensures u.Skipped? <==> Join(librariesDir, lib.path) !in existing
    ensures u.Extracted? <==> Join(librariesDir, lib.path) in existing && lib.extract.Some?
    ensures u.OnClassPath? <==> Join(librariesDir, lib.path) in existing && lib.extract.None?
    ensures u.Extracted? ==> u.extraction.archive == Join(librariesDir, lib.path) && u.extraction.into == extractDir
    ensures u.OnClassPath? ==> u.path == Join(librariesDir, lib.path)
  {
    var path := Join(librariesDir, lib.path);
    if path !in existing then Skipped
    else if lib.extract.Some? then Extracted(Extraction(path, extractDir, lib.extract.value.exclude))
    else OnClassPath(path)
  }

  /** The class-path entries of `libs`, in library order. */
  function ClassPathOf(libs: seq<Library>, librariesDir: Path, existing: set<Path>, extractDir: Path): (cp: seq<Path>)
    ensures forall i :: 0 <= i < |cp| ==> cp[i] in existing
  {
    if libs == [] then []
    else
      var u := Classify(libs[|libs| - 1], librariesDir, existing, extractDir);
      ClassPathOf(libs[..|libs| - 1], librariesDir, existing, extractDir) + (if u.OnClassPath? then [u.path] else [])
  }

  /** The extractions of `libs`, in library order. */
  function ExtractionsOf(libs: seq<Library>, librariesDir: Path, existing: set<Path>, extractDir: Path): (es: seq<Extraction>)
    ensures forall i :: 0 <= i < |es| ==> es[i].archive in existing && es[i].into == extractDir
  {
    if libs == [] then []
    else
      var u := Classify(libs[|libs| - 1], librariesDir, existing, extractDir);
      ExtractionsOf(libs[..|libs| - 1], librariesDir, existing, extractDir) + (if u.Extracted? then [u.extraction] else [])
  }

  /** How many of `libs` have their file present. */
  function PresentCount(libs: seq<Library>, librariesDir: Path, existing: set<Path>): nat
  {
    if libs == [] then 0
    else
      var present := Join(librariesDir, libs[|libs| - 1].path) in existing;
      PresentCount(libs[..|libs| - 1], librariesDir, existing) + (if present then 1 else 0)
  }

  /** Every present library is used exactly once, extracted or on the class
      path; the missing ones are not used at all. */
  lemma {:induction false} PresentLibrariesUsedOnce(libs: seq<Library>, librariesDir: Path, existing: set<Path>, extractDir: Path)
    ensures |ClassPathOf(libs, librariesDir, existing, extractDir)| + |ExtractionsOf(libs, librariesDir, existing, extractDir)|
      == PresentCount(libs, librariesDir, existing)
  {
    if libs != [] {
      PresentLibrariesUsedOnce(libs[..|libs| - 1], librariesDir, existing, extractDir);
    }
  }

  /** The library loop of `launch`. */
  method ClassifyLibraries(libraries: seq<Library>, librariesDir: Path, existing: set<Path>, extractDir: Path)
    returns (classPath: seq<Path>, extractions: seq<Extraction>)
    ensures classPath == ClassPathOf(libraries, librariesDir, existing, extractDir)
    ensures extractions == ExtractionsOf(libraries, librariesDir, existing, extractDir)
  {
    classPath, extractions := [], [];
    var i := 0;
    while i < |libraries|
      invariant 0 <= i <= |libraries|
      invariant classPath == ClassPathOf(libraries[..i], librariesDir, existing, extractDir)
      invariant extractions == ExtractionsOf(libraries[..i], librariesDir, existing, extractDir)
    {
      var library := libraries[i];
      var path := Join(librariesDir, library.path);
      if path in existing {
        if library.extract.Some? {
          extractions := extractions + [Extraction(path, extractDir, library.extract.value.exclude)];
        } else {
          classPath := classPath + [path];
        }
      }
      assert libraries[..i + 1][..i] == libraries[..i];
      i := i + 1;
    }
    assert libraries[..|libraries|] == libraries;
  }

  // ---------------------------------------------------------------------------
  // The installation

  /** An installed version of the game, in a profile, for an environment. */
  datatype MinecraftInstall = MinecraftInstall(profile: Profile, version: Version, environment: Environment)
  {
    /** "versions/<id>/<id>", relative to the content directory; the alias
        lives under "versions/stable/stable". */
    function VersionPath(): (r: string)
      ensures r == FormatVersionPath(version.GetId())
      ensures version.LatestStable? ==> r == "versions/stable/stable"
    {
      FormatVersionPath(version.GetId())
    }

    /** The release manifest, in the content directory. */
    function ManifestPath(): (p: Path)
      ensures Under(p, profile.contentDir) && EndsWith(p, VersionPath() + ".json")
      ensures |p| == |profile.contentDir| + 1 + |VersionPath() + ".json"|
      ensures EndsWith(p, ".json")
    {
      var p := Join(profile.contentDir, VersionPath() + ".json");
      EndsWithTail(p, VersionPath(), ".json");
      p
    }

    /** The game jar, in the content directory. */
    function JarPath(): (p: Path)
      ensures Under(p, profile.contentDir) && EndsWith(p, VersionPath() + ".jar")
      ensures |p| == |profile.contentDir| + 1 + |VersionPath() + ".jar"|
      ensures EndsWith(p, ".jar")
    {
      var p := Join(profile.contentDir, VersionPath() + ".jar");
      EndsWithTail(p, VersionPath(), ".jar");
      p
    }

    /** The jar patcher's configuration file. */
    function PatchesFile(): (p: Path)
      ensures Under(p, profile.contentDir) && EndsWith(p, VersionPath() + "-patches.json")
      ensures |p| == |profile.contentDir| + 1 + |VersionPath() + "-patches.json"|
      ensures EndsWith(p, "-patches.json")
    {
      var p := Join(profile.contentDir, VersionPath() + "-patches.json");
      EndsWithTail(p, VersionPath(), "-patches.json");
      p
    }

    /** The directory of jar patches. */
    function PatchDir(): (p: Path)
      ensures Under(p, profile.contentDir) && EndsWith(p, VersionPath() + "-jar-patches")
      ensures |p| == |profile.contentDir| + 1 + |VersionPath() + "-jar-patches"|
      ensures EndsWith(p, "-jar-patches")
    {
      var p := Join(profile.contentDir, VersionPath() + "-jar-patches");
      EndsWithTail(p, VersionPath(), "-jar-patches");
      p
    }

    /** The patched jar. */
    function PatchedJar(): (p: Path)
      ensures Under(p, profile.contentDir) && EndsWith(p, VersionPath() + "-patched.jar")
      ensures |p| == |profile.contentDir| + 1 + |VersionPath() + "-patched.jar"|
      ensures EndsWith(p, "-patched.jar")
    {
      var p := Join(profile.contentDir, VersionPath() + "-patched.jar");
      EndsWithTail(p, VersionPath(), "-patched.jar");
      p
    }

    /** The assets directory shared by the profile's installations. */
    function AssetsDir(): (p: Path)
      ensures Under(p, profile.sharedDir) && EndsWith(p, "assets")
      ensures |p| == |profile.sharedDir| + 7
    {
      Join(profile.sharedDir, "assets")
    }

    /** The libraries directory shared by the profile's installations. */
    function LibrariesDir(): (p: Path)
      ensures Under(p, profile.sharedDir) && EndsWith(p, "libraries")
      ensures |p| == |profile.sharedDir| + 10
    {
      Join(profile.sharedDir, "libraries")
    }

    /** `createExtractDir` at time `millis`: a natives directory in the content
        directory, named after the version and the time. */
    function ExtractDir(millis: nat): (p: Path)
      ensures Under(p, profile.contentDir)
      ensures EndsWith(p, VersionPath() + "-natives-" + JavaStrings.Decimal(millis))
      ensures |p| == |profile.contentDir| + 1 + |VersionPath() + "-natives-" + JavaStrings.Decimal(millis)|
      ensures EndsWith(p, "-natives-" + JavaStrings.Decimal(millis))
    {
      var p := Join(profile.contentDir, VersionPath() + "-natives-" + JavaStrings.Decimal(millis));
      assert VersionPath() + "-natives-" + JavaStrings.Decimal(millis)
        == VersionPath() + ("-natives-" + JavaStrings.Decimal(millis));
      EndsWithTail(p, VersionPath(), "-natives-" + JavaStrings.Decimal(millis));
      p
    }

    /** The files of one version never collide: manifest, jar, patch
        configuration, patch directory and patched jar are five different paths,
        and none of them is a natives directory. */
    lemma ContentPathsDistinct(millis: nat)
      ensures ManifestPath() != JarPath() && ManifestPath() != PatchesFile()
      ensures ManifestPath() != PatchDir() && ManifestPath() != PatchedJar()
      ensures JarPath() != PatchesFile() && JarPath() != PatchDir() && JarPath() != PatchedJar()
      ensures PatchesFile() != PatchDir() && PatchesFile() != PatchedJar() && PatchDir() != PatchedJar()
      ensures ExtractDir(millis) !in {ManifestPath(), JarPath(), PatchesFile(), PatchDir(), PatchedJar()}
    {
      var base := profile.contentDir + "/" + VersionPath();
      var n := |base|;
      var m, j, f, d, pj, e :=
        ManifestPath(), JarPath(), PatchesFile(), PatchDir(), PatchedJar(), ExtractDir(millis);
      assert m[..n] == base && j[..n] == base && f[..n] == base;
      assert d[..n] == base && pj[..n] == base && e[..n] == base;
      assert m[n] == '.' && j[n] == '.' && f[n] == '-' && d[n] == '-' && pj[n] == '-' && e[n] == '-';
      assert |m| == n + 5 && |j| == n + 4;
      assert f[n + 1] == 'p' && d[n + 1] == 'j' && pj[n + 1] == 'p' && e[n + 1] == 'n';
      assert f[n + 7] == 's' && pj[n + 7] == 'd';
    }

    /** Launches at different times unpack into different directories. */
    lemma ExtractDirsDiffer(m1: nat, m2: nat)
      requires m1 != m2
      ensures ExtractDir(m1) != ExtractDir(m2)
    {
      var base := profile.contentDir + "/" + VersionPath() + "-natives-";
      var d1, d2 := JavaStrings.Decimal(m1), JavaStrings.Decimal(m2);
      JavaStrings.DecimalInjective(m1, m2);
      assert ExtractDir(m1) == base + d1 && ExtractDir(m2) == base + d2;
      assert (base + d1)[|base|..] == d1 && (base + d2)[|base|..] == d2;
    }

    /** The JVM flags of a launch: the two dock flags only on Mac OS X, and the
        native library path always, last. */
    function Flags(extractDir: Path): (f: seq<string>)
      ensures |f| == if environment.platform == MacOsX then 3 else 1
      ensures f[|f| - 1] == "-Djava.library.path=" + extractDir
      ensures environment.platform == MacOsX ==>
        f[0] == "-Xdock:icon=" + Join(AssetsDir(), "icons/minecraft.icns") && f[1] == "-Xdock:name=Minecraft"
    {
      (if environment.platform == MacOsX
       then ["-Xdock:icon=" + Join(AssetsDir(), "icons/minecraft.icns"), "-Xdock:name=Minecraft"]
       else [])
      + ["-Djava.library.path=" + extractDir]
    }

    /** The values the argument template is filled with for a launch: the
        manifest's id, the content and assets directories, the player's name
        (twice), access token and client token, placeholder by placeholder. */
    function ArgumentValuesFor(manifest: ReleaseManifest, identity: Identity): (v: ArgumentValues)
      ensures PlaceholderValues(v) == [manifest.id, profile.contentDir, AssetsDir(),
        identity.name, identity.name, identity.accessToken, identity.clientToken]
    {
      ArgumentValues(manifest.id, profile.contentDir, AssetsDir(),
        identity.name, identity.accessToken, identity.clientToken)
    }

    /** `launch`, up to the point where the process builder is complete.
        `existing` is the set of files present, `manifest` the parsed
        manifest (`None` when it cannot be read), `millis` the clock, and
        `executedJar` the jar the patcher says to run. */
    method Launch(context: LaunchContext, existing: set<Path>, manifest: Option<ReleaseManifest>,
                  millis: nat, executedJar: Path)
      returns (r: Result<LaunchPlan, LaunchError>)
      ensures JarPath() !in existing ==> r == Failure(UpdateRequired("Not yet installed"))
      ensures JarPath() in existing && manifest.None? ==> r == Failure(ManifestUnreadable(ManifestPath()))
      ensures JarPath() in existing && manifest.Some? ==> r.Success?
      ensures r.Success? ==>
        var m, plan, extractDir := manifest.value, r.value, ExtractDir(millis);
        var tokens := JavaStrings.Split(m.minecraftArguments);
        && JarPath() in existing && manifest.Some?
        && plan.classPath == ClassPathOf(m.libraries, LibrariesDir(), existing, extractDir) + [executedJar]
        && plan.extractions == ExtractionsOf(m.libraries, LibrariesDir(), existing, extractDir)
        && |plan.args| == |tokens|
        && (forall i :: 0 <= i < |tokens| ==>
              plan.args[i] == SubstituteArgument(tokens[i], ArgumentValuesFor(m, context.identity)))
        && plan.flags == Flags(extractDir)
        && plan.mainClass == m.mainClass
        && plan.directory == profile.contentDir
    {
      if JarPath() !in existing {
        return Failure(UpdateRequired("Not yet installed"));
      }
      var extractDir := ExtractDir(millis);
      if manifest.None? {
        return Failure(ManifestUnreadable(ManifestPath()));
      }
      var m := manifest.value;

      var classPath, extractions := ClassifyLibraries(m.libraries, LibrariesDir(), existing, extractDir);

      var tokens := JavaStrings.Split(m.minecraftArguments);
      var args := SubstituteAll(tokens, ArgumentValuesFor(m, context.identity));

      var flags := [];
      if environment.platform == MacOsX {
        var icns := Join(AssetsDir(), "icons/minecraft.icns");
        flags := flags + ["-Xdock:icon=" + icns];
        flags := flags + ["-Xdock:name=Minecraft"];
      }
      flags := flags + ["-Djava.library.path=" + extractDir];
      classPath := classPath + [executedJar];

      r := Success(LaunchPlan(flags, classPath, args, m.mainClass, extractions, profile.contentDir));
    }
  }

  /** Two installations of different versions in one profile never share a
      file: manifests, jars, patch files and directories, patched jars and
      natives directories of the same launch time all differ. */
  lemma VersionFilesDiffer(a: MinecraftInstall, b: MinecraftInstall, millis: nat)
    requires a.profile == b.profile && a.version.GetId() != b.version.GetId()
    ensures a.ManifestPath() != b.ManifestPath() && a.JarPath() != b.JarPath()
    ensures a.PatchesFile() != b.PatchesFile() && a.PatchDir() != b.PatchDir()
    ensures a.PatchedJar() != b.PatchedJar() && a.ExtractDir(millis) != b.ExtractDir(millis)
  {
    var dir, x, y := a.profile.contentDir, a.version.GetId(), b.version.GetId();
    var natives := "-natives-" + JavaStrings.Decimal(millis);
    var suffixes := [".json", ".jar", "-patches.json", "-jar-patches", "-patched.jar", natives];
    forall i | 0 <= i < |suffixes|
      ensures Join(dir, FormatVersionPath(x) + suffixes[i]) != Join(dir, FormatVersionPath(y) + suffixes[i])
    {
      VersionPathSuffixDiffers(x, y, suffixes[i]);
      JoinChildDiffers(dir, FormatVersionPath(x) + suffixes[i], FormatVersionPath(y) + suffixes[i]);
    }
    assert suffixes[0] == ".json" && suffixes[1] == ".jar" && suffixes[5] == natives;
    assert suffixes[2] == "-patches.json" && suffixes[3] == "-jar-patches" && suffixes[4] == "-patched.jar";
    assert a.VersionPath() + natives == a.VersionPath() + "-natives-" + JavaStrings.Decimal(millis);
    assert b.VersionPath() + natives == b.VersionPath() + "-natives-" + JavaStrings.Decimal(millis);
  }
}
