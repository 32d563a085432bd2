# Own-Launcher core in Dafny

A model of the installing and launching core of the Own-Launcher game launcher
(package `com.sk89q.skmcl`), with proofs about it.

- **Install** (`install.dfy`) covers the installer runtime and its resources.
  `copyTo` binds a resource to the runtime and registers a copy task.
  An HTTP resource submits its fetch to the downloader and delegates to a
  delete-on-cleanup file resource over the fetched file.
  `fetch` accepts only the `http` and `https` protocols, in any letter case.
  `call` drains the downloads and then runs the tasks in registration order.
  It checks for interruption before each task and advances the progress by one step after each.
- **Versions / Releases** (`versions.dfy`) cover the "latest stable" version
  alias and the release list's `find`.
- **Minecraft** (`minecraft.dfy`) covers the paths of an installed version and
  `launch`. `launch` sorts the manifest's libraries onto the class path or into
  the natives directory. It splits the argument template on runs of spaces and
  fills in the seven placeholders. It also assembles the JVM flags.
- **JavaStrings** (`java_strings.dfy`) writes out the Java string operations
  this core relies on: `toLowerCase`, `replace`, `split(" +")` and
  `Long.toString`.
- **Wrappers / Host** (`common.dfy`) hold Option/Result values, paths and platforms.

Java's `null` results and thrown exceptions become `Option`, `Result` and
`Outcome` values.
The file system is a `set<Path>` of existing files, passed in and handed back.
The clock, the parsed manifest, the downloader's result and the thread's
interrupt flag are parameters.

## Model

| member | source | states |
|---|---|---|
| Install.MatchesHttpSchemeExactly | src/main/java/com/sk89q/skmcl/install/InstallerRuntime.java:142 | `matches("^https?")` is a whole-string match, so it accepts exactly "http" and "https" |
| Install.MatchesHttpScheme | src/main/java/com/sk89q/skmcl/install/InstallerRuntime.java:142 | `matches("^https?")` as a whole-string match: "http" followed by nothing or by one "s" |
| Install.AcceptsProtocol | src/main/java/com/sk89q/skmcl/install/InstallerRuntime.java:142 | a protocol is accepted iff its lower-cased form is "http" or "https" |
| Install.HttpDownloader.constructor | src/main/java/com/sk89q/skmcl/install/InstallerRuntime.java:76 | a new downloader has an empty queue |
| Install.HttpDownloader.Submit | src/main/java/com/sk89q/skmcl/install/InstallerRuntime.java:143 | submitting appends one download to the queue and names the file it will produce |
| Install.AfterCleanup | src/main/java/com/sk89q/skmcl/install/FileResource.java:53-58 | cleanup removes the resource's file exactly when the delete flag is set, and no other file |
| Install.CleanupIdempotent | src/main/java/com/sk89q/skmcl/install/FileResource.java:53-58 | cleaning up twice leaves the same files as cleaning up once |
| Install.FileResource.constructor | src/main/java/com/sk89q/skmcl/install/FileResource.java:33-37 | a new file resource keeps its file and does not delete it on cleanup |
| Install.FileResource.DeleteOnCleanup | src/main/java/com/sk89q/skmcl/install/FileResource.java:39-42 | sets the delete flag and returns the same resource |
| Install.FileResource.SetInstaller | src/main/java/com/sk89q/skmcl/install/FileResource.java:44-46 | binding a file resource changes neither it, the runtime nor the downloader |
| Install.FileResource.GetInputStream | src/main/java/com/sk89q/skmcl/install/FileResource.java:48-51 | opens a stream iff the file exists (an existing path is taken to be a readable file), else fails with file-not-found |
| Install.FileResource.Cleanup | src/main/java/com/sk89q/skmcl/install/FileResource.java:53-58 | the files left are AfterCleanup's: the file is gone if flagged, else nothing changes |
| Install.HttpResource.constructor | src/main/java/com/sk89q/skmcl/install/HttpResource.java:36-38 | a new HTTP resource has its URL, no delegate and no version id |
| Install.HttpResource.WithId | src/main/java/com/sk89q/skmcl/install/HttpResource.java:40-43 | records the version id and returns the same resource |
| Install.HttpResource.SetInstaller | src/main/java/com/sk89q/skmcl/install/HttpResource.java:45-48 | an accepted URL queues exactly one download, hashed by the version id, and binds a fresh delete-on-cleanup delegate over its file; a refused URL fails with IllegalArgument and changes nothing |
| Install.HttpResource.GetInputStream | src/main/java/com/sk89q/skmcl/install/HttpResource.java:50-53 | fails before binding; afterwards reads the delegate's file, under the same readable-file assumption |
| Install.HttpResource.Cleanup | src/main/java/com/sk89q/skmcl/install/HttpResource.java:55-58 | fails before binding; once bound, removes exactly the fetched file |
| Install.TaskActions | src/main/java/com/sk89q/skmcl/install/InstallerRuntime.java:120-131 | what a task's `run` does: a copy task is one copy; a write task prunes first and takes three steps when persisting throws, two otherwise |
| Install.WriteTaskOrder | src/main/java/com/sk89q/skmcl/install/InstallerRuntime.java:119-132 | the write task prunes before it persists, persists iff pruning did not throw, and only warns on failure |
| Install.Applied | src/main/java/com/sk89q/skmcl/install/InstallerRuntime.java:159-165 | running k tasks gives k events, the i-th being task i |
| Install.FirstInterrupt | src/main/java/com/sk89q/skmcl/install/InstallerRuntime.java:159-160 | the first index whose interruption check fires; no check before it fires |
| Install.AppliedAt | src/main/java/com/sk89q/skmcl/install/InstallerRuntime.java:159-165 | task i runs with exactly its own steps and fault |
| Install.AppliedPrefix | src/main/java/com/sk89q/skmcl/install/InstallerRuntime.java:159-165 | a shorter run is a prefix of a longer one |
| Install.AppliedRunsEachOnceInOrder | src/main/java/com/sk89q/skmcl/install/InstallerRuntime.java:159-165 | k tasks run as 0, 1, ..., k-1: each exactly once, in registration order |
| Install.InterruptedRunIsPrefix | src/main/java/com/sk89q/skmcl/install/InstallerRuntime.java:159-160 | an interrupted run is the prefix of the full run up to the interruption |
| Install.UninterruptedRunsAll | src/main/java/com/sk89q/skmcl/install/InstallerRuntime.java:159-160 | with no interruption, every registered task runs |
| Install.InstallerRuntime.constructor | src/main/java/com/sk89q/skmcl/install/InstallerRuntime.java:62-64 | a new runtime has a fresh empty log, a fresh idle downloader, no tasks and no directories |
| Install.InstallerRuntime.WithLog | src/main/java/com/sk89q/skmcl/install/InstallerRuntime.java:73-77 | the same, over the given previous log |
| Install.InstallerRuntime.GetLog | src/main/java/com/sk89q/skmcl/install/InstallerRuntime.java:84-86 | returns the previous log, not the new one |
| Install.InstallerRuntime.SetTemporaryDir | src/main/java/com/sk89q/skmcl/install/InstallerRuntime.java:93-96 | sets the temporary directory, with the download directory "download" inside it |
| Install.InstallerRuntime.CopyTo | src/main/java/com/sk89q/skmcl/install/InstallerRuntime.java:105-110 | binds the resource first; on success appends exactly one copy task and returns it; a refused URL adds no task and queues no download |
| Install.InstallerRuntime.Write | src/main/java/com/sk89q/skmcl/install/InstallerRuntime.java:119-135 | appends exactly one deferred write task and returns the cache given |
| Install.InstallerRuntime.FetchUrl | src/main/java/com/sk89q/skmcl/install/InstallerRuntime.java:137-139 | a fetch without an expected hash |
| Install.InstallerRuntime.Fetch | src/main/java/com/sk89q/skmcl/install/InstallerRuntime.java:141-147 | http(s) URLs are queued into the download directory; any other protocol throws IllegalArgument and queues nothing |
| Install.InstallerRuntime.Call | src/main/java/com/sk89q/skmcl/install/InstallerRuntime.java:149-168 | drains the downloads first; then runs the tasks in order until the first interruption, with one progress step per task run; reports completion or the interrupted index |
| Versions.Version.GetId | src/main/java/com/sk89q/skmcl/application/LatestStable.java:30-33 | the alias's id is always "stable" |
| Versions.Version.SetId | src/main/java/com/sk89q/skmcl/application/LatestStable.java:35-37 | setting the id of the alias changes nothing |
| Versions.ResolveOnline | src/main/java/com/sk89q/skmcl/application/LatestStable.java:44-52 | passes the application's answer through; an interruption re-sets the interrupt flag and fails with "Interrupted" |
| Versions.StableEquals | src/main/java/com/sk89q/skmcl/application/LatestStable.java:54-57 | equal iff the inherited check holds and the other is also the alias |
| Versions.StableNeverEqualsPinned | src/main/java/com/sk89q/skmcl/application/LatestStable.java:54-57 | the alias never equals a pinned version, even a pinned "stable" that shares its id |
| Releases.FindIn | src/main/java/com/sk89q/skmcl/minecraft/model/ReleaseList.java:41-48 | none iff no version has the id; otherwise a listed version with that id |
| Releases.ReleaseList.Find | src/main/java/com/sk89q/skmcl/minecraft/model/ReleaseList.java:41-48 | `find` is the first-match search over the list |
| Releases.FindIsFirstMatch | src/main/java/com/sk89q/skmcl/minecraft/model/ReleaseList.java:41-48 | if version i has the id, find succeeds with a version from the first i+1 |
| Minecraft.FormatVersionPath | src/main/java/com/sk89q/skmcl/minecraft/MinecraftInstall.java:79 | the version path is "versions/", the id, "/" and the id again |
| Minecraft.VersionPathInjective | src/main/java/com/sk89q/skmcl/minecraft/MinecraftInstall.java:79 | different version ids give different version paths |
| Minecraft.MinecraftInstall.VersionPath | src/main/java/com/sk89q/skmcl/minecraft/MinecraftInstall.java:79 | the path formatted from the version's id; "versions/stable/stable" for the alias |
| Minecraft.MinecraftInstall.PatchesFile | src/main/java/com/sk89q/skmcl/minecraft/MinecraftInstall.java:82 | the patcher configuration is exactly the child `<version path>-patches.json` of the content directory: under it, ending with that name, one separator longer |
| Minecraft.MinecraftInstall.PatchDir | src/main/java/com/sk89q/skmcl/minecraft/MinecraftInstall.java:83 | the patch directory is exactly the child `<version path>-jar-patches` of the content directory |
| Minecraft.MinecraftInstall.PatchedJar | src/main/java/com/sk89q/skmcl/minecraft/MinecraftInstall.java:84 | the patched jar is exactly the child `<version path>-patched.jar` of the content directory |
| Minecraft.MinecraftInstall.ManifestPath | src/main/java/com/sk89q/skmcl/minecraft/MinecraftInstall.java:96-98 | the manifest is exactly the child `versions/<id>/<id>.json` of the content directory, for this version's id |
| Minecraft.MinecraftInstall.JarPath | src/main/java/com/sk89q/skmcl/minecraft/MinecraftInstall.java:105-107 | the jar is exactly the child `versions/<id>/<id>.jar` of the content directory, for this version's id |
| Minecraft.MinecraftInstall.AssetsDir | src/main/java/com/sk89q/skmcl/minecraft/MinecraftInstall.java:114-116 | the assets directory is exactly the direct child "assets" of the shared directory |
| Minecraft.MinecraftInstall.LibrariesDir | src/main/java/com/sk89q/skmcl/minecraft/MinecraftInstall.java:123-125 | the libraries directory is exactly the direct child "libraries" of the shared directory |
| Minecraft.MinecraftInstall.ExtractDir | src/main/java/com/sk89q/skmcl/minecraft/MinecraftInstall.java:134-137 | the natives directory is exactly the child `<version path>-natives-<time in decimal>` of the content directory |
| Minecraft.MinecraftInstall.ContentPathsDistinct | src/main/java/com/sk89q/skmcl/minecraft/MinecraftInstall.java:79-107 | manifest, jar, patch file, patch directory and patched jar are five distinct paths, and none is a natives directory |
| Minecraft.MinecraftInstall.ExtractDirsDiffer | src/main/java/com/sk89q/skmcl/minecraft/MinecraftInstall.java:134-137 | launches at different times get different natives directories |
| Minecraft.VersionPathSuffixDiffers | src/main/java/com/sk89q/skmcl/minecraft/MinecraftInstall.java:79 | version paths of different ids stay different with the same suffix appended |
| Minecraft.VersionFilesDiffer | src/main/java/com/sk89q/skmcl/minecraft/MinecraftInstall.java:79-137 | two installations of different versions in one profile share no manifest, jar, patch file, patch directory, patched jar or natives directory |
| Minecraft.Classify | src/main/java/com/sk89q/skmcl/minecraft/MinecraftInstall.java:160-174 | a missing library is skipped; a present one is extracted iff it has an extract rule, else put on the class path |
| Minecraft.ClassPathOf | src/main/java/com/sk89q/skmcl/minecraft/MinecraftInstall.java:160-174 | every class-path entry is an existing file |
| Minecraft.ExtractionsOf | src/main/java/com/sk89q/skmcl/minecraft/MinecraftInstall.java:160-174 | every extraction reads an existing archive into the natives directory |
| Minecraft.PresentLibrariesUsedOnce | src/main/java/com/sk89q/skmcl/minecraft/MinecraftInstall.java:160-174 | class-path entries plus extractions number exactly the present libraries |
| Minecraft.ClassifyLibraries | src/main/java/com/sk89q/skmcl/minecraft/MinecraftInstall.java:160-174 | the library loop yields exactly ClassPathOf and ExtractionsOf, in manifest order |
| Minecraft.PlaceholderValues | src/main/java/com/sk89q/skmcl/minecraft/MinecraftInstall.java:179-185 | one value per placeholder |
| Minecraft.SubstituteArgument | src/main/java/com/sk89q/skmcl/minecraft/MinecraftInstall.java:179-185 | one token after the seven replacements, each replacing every occurrence of its placeholder, in source order |
| Minecraft.MinecraftInstall.ArgumentValuesFor | src/main/java/com/sk89q/skmcl/minecraft/MinecraftInstall.java:179-185 | the placeholders take, in order, the manifest id, the content directory, the assets directory, the player name twice, the access token and the client token |
| Minecraft.PlaceholderNamesWellFormed | src/main/java/com/sk89q/skmcl/minecraft/MinecraftInstall.java:179-185 | the seven names are "${...}" placeholders and pairwise different |
| Minecraft.PlaceholderOccursOnlyWhole | src/main/java/com/sk89q/skmcl/minecraft/MinecraftInstall.java:179-185 | one placeholder never occurs inside a different one |
| Minecraft.ReplaceEachAbsent | src/main/java/com/sk89q/skmcl/minecraft/MinecraftInstall.java:179-185 | a token containing none of the names passes the replacement chain unchanged |
| Minecraft.ReplaceEachExact | src/main/java/com/sk89q/skmcl/minecraft/MinecraftInstall.java:179-185 | a token that is exactly the k-th name becomes the k-th value, when no earlier name occurs in it and no later name occurs in the value |
| Minecraft.PlainArgumentVerbatim | src/main/java/com/sk89q/skmcl/minecraft/MinecraftInstall.java:179-185 | an argument without "$" is passed verbatim |
| Minecraft.PlaceholderArgumentBecomesValue | src/main/java/com/sk89q/skmcl/minecraft/MinecraftInstall.java:179-185 | an argument that is exactly a placeholder becomes its value, when no value contains "$" |
| Minecraft.ReplaceOtherPlaceholder | src/main/java/com/sk89q/skmcl/minecraft/MinecraftInstall.java:179-185 | replacing one placeholder leaves a different placeholder followed by `$`-free text as it is |
| Minecraft.ReplaceEachEmbedded | src/main/java/com/sk89q/skmcl/minecraft/MinecraftInstall.java:179-185 | a placeholder between `$`-free text becomes its value with the text around it kept, when that value holds no `$` |
| Minecraft.PlaceholderInTextBecomesValue | src/main/java/com/sk89q/skmcl/minecraft/MinecraftInstall.java:179-185 | a token such as "--gameDir=${game_directory}" becomes the text around the placeholder's value |
| Minecraft.ReplaceEachChained | src/main/java/com/sk89q/skmcl/minecraft/MinecraftInstall.java:179-185 | a later replacement also scans values put in by earlier ones: a placeholder whose value is a later placeholder ends up as that later value |
| Minecraft.PlayerNameIsRescanned | src/main/java/com/sk89q/skmcl/minecraft/MinecraftInstall.java:182-185 | a player name equal to "${auth_session}" comes out as the client token |
| Minecraft.Substitute | src/main/java/com/sk89q/skmcl/minecraft/MinecraftInstall.java:179-185 | the seven replace calls, in source order, equal the replacement chain |
| Minecraft.SubstituteAll | src/main/java/com/sk89q/skmcl/minecraft/MinecraftInstall.java:177-187 | one argument per template token, position by position |
| Minecraft.MinecraftInstall.Flags | src/main/java/com/sk89q/skmcl/minecraft/MinecraftInstall.java:189-196 | the dock icon and name flags appear only on Mac OS X and come first; the native library path flag is always last |
| Minecraft.MinecraftInstall.Launch | src/main/java/com/sk89q/skmcl/minecraft/MinecraftInstall.java:145-201 | fails with UpdateRequired when the jar is missing; otherwise fails when the manifest is unreadable. Else the class path is the present non-native libraries followed by the executed jar, the natives are extracted, there is one argument per template token, and the flags, main class and working directory are as in the manifest and profile |
| JavaStrings.Lower | src/main/java/com/sk89q/skmcl/install/InstallerRuntime.java:142 | `toLowerCase` keeps the length and lowers each ASCII letter |
| JavaStrings.Replace | src/main/java/com/sk89q/skmcl/minecraft/MinecraftInstall.java:179 | `String.replace`: scanning left to right, every non-overlapping occurrence of the target is replaced |
| JavaStrings.ReplaceAbsent | src/main/java/com/sk89q/skmcl/minecraft/MinecraftInstall.java:179 | `replace` of a target that does not occur changes nothing |
| JavaStrings.ReplaceAfterPlain | src/main/java/com/sk89q/skmcl/minecraft/MinecraftInstall.java:179 | text without the target's first character is passed over unchanged |
| JavaStrings.ReplaceAfterPlainPrefix | src/main/java/com/sk89q/skmcl/minecraft/MinecraftInstall.java:179 | a target after such text is replaced and the scan continues after it |
| JavaStrings.ReplaceWhole | src/main/java/com/sk89q/skmcl/minecraft/MinecraftInstall.java:179 | `replace` on a string that is exactly the target gives the replacement |
| JavaStrings.Split | src/main/java/com/sk89q/skmcl/minecraft/MinecraftInstall.java:177 | `split(" +")`: no token it returns holds a space |
| JavaStrings.Words | src/main/java/com/sk89q/skmcl/minecraft/MinecraftInstall.java:177 | the words of a string are non-empty and space-free |
| JavaStrings.SplitIsWords | src/main/java/com/sk89q/skmcl/minecraft/MinecraftInstall.java:177 | `split(" +")` gives the whole string if it has no space; otherwise its words, after one empty token iff it starts with a space and has a word |
| JavaStrings.Decimal | src/main/java/com/sk89q/skmcl/minecraft/MinecraftInstall.java:135 | the decimal form of the clock is a non-empty digit string |
| JavaStrings.DecimalRoundTrip | src/main/java/com/sk89q/skmcl/minecraft/MinecraftInstall.java:135 | reading the decimal form back gives the number |
| JavaStrings.DecimalInjective | src/main/java/com/sk89q/skmcl/minecraft/MinecraftInstall.java:135 | different times have different decimal forms |

## Left out

- Network transfers, deduplication and hash checking inside the downloader: it is modelled as a queue plus a function naming each download's file. Its `call` is a success/failure input. Because that naming is a function, two submissions of the same directory, URL and hash always name the same file; the real `submit` need not, and the model claims no deduplication from it.
- The executor, threads and concurrency: the interrupt checks are a function of the task index.
- Progress reporting (`split(0.9)`, `split(0.1, n)`, `push`) and logging, except the write task's failure warning (`WarnWriteFailed`), including localized messages and `getName` of the alias: only the count of `advance` steps is modelled.
- A task that throws out of `run` and aborts `call`, leaving the later tasks unrun, is not modelled. This covers an exception from the copy task's own copying (`FileCopy.run`) and an unchecked exception from `removeOldEntries` or `Persistence.write` in the write task. Only the write task's caught `IOException`s are modelled.
- `InstallLog` and `VersionCache` contents, `removeOldEntries` and `Persistence.write`: only their order and the fault they may raise are modelled.
- The jar patcher (`Persistence.load`/`bind`, `JarBuilder`): the jar it executes is an input to `Launch`.
- Reading the manifest with Jackson: it is an input, `None` when unreadable. The manifest's fields are taken as present: a manifest that parses but has a null `libraries` or `minecraftArguments`, which would throw a NullPointerException in `launch`, is not modelled. `Library.getPath` is taken as already resolved for the launch environment.
- `ZipExtract`, starting the process and `LaunchedProcess.close`: `Launch` returns what it would extract and the process description instead.
- `System.currentTimeMillis` is the `millis` input.
- File paths are strings joined with "/". Profile directories are taken as absolute, so `getAbsolutePath` is the path itself.
- JavaStrings.Lower: lowers ASCII letters only, not the rest of Java's Unicode case mapping, so protocols with non-ASCII letters are not modelled faithfully.
- `@NonNull` checks and null arguments are not representable. The nulls the core itself produces are modelled: the `HttpResource` delegate before binding (`NoDelegate`), the download directory before `setTemporaryDir`, a missing version id, and `find` finding nothing (all as `None`).
- Install.FileResource.GetInputStream / Install.HttpResource.GetInputStream: every existing path is taken to be a readable regular file; the FileNotFoundException on a directory or unreadable file is not modelled.
- Install.AfterCleanup / Install.FileResource.Cleanup / Install.HttpResource.Cleanup: take `file.delete()` to succeed. When it fails (a non-empty directory, no permission) the file stays and the ignored `false` is not modelled.
- Tokens holding two or more placeholders are not proved about. The lemmas cover tokens without `$`, a single placeholder with `$`-free text around it, and the re-scan of values.
- The inherited `OnlineVersion.thisEquals` is a boolean input to `StableEquals`.
- `getUpdater`, `getEnvironment`, `getTemporaryDir` and the other Lombok getters are not modelled beyond the fields they read.
