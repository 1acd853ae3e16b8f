/** `install_package`: reads a package's manifest, turns its exclude list
    into ignore overrides, removes any earlier copy of the package from the
    local package cache and copies the package's files into it.

    The filesystem is a map from paths (sequences of components) to file
    contents; directories exist only as prefixes of file paths. The manifest
    reader, the glob compiler, the directory walk and the copy of a single
    file are parameters of the model. */
module Installer {
  import opened Base
  import opened Text
  import opened Cli

  type Path = seq<string>
  type Bytes = seq<bv8>
  type Files = map<Path, Bytes>

  /** The parts of `typst.toml` the review tool looks at. */
  datatype Template = Template(entrypoint: string)
  datatype Manifest = Manifest(exclude: seq<string>, template: Option<Template>)

  /** One item yielded by the directory walk: an entry with its path
      relative to the package directory, or a traversal error. */
  datatype WalkItem = Entry(rel: Path, isFile: bool, bytes: Bytes) | Broken

  /** What `install_package` relies on outside its own code. */
  datatype Env = Env(
    dataDir: Path,
    readManifest: Path -> Result<Manifest>,
    globOk: string -> bool,
    walk: (Path, seq<string>) -> seq<WalkItem>,
    removeOk: Path -> bool,
    copyOk: Path -> bool)

  /** `packages/packages/preview/<name>/<vers>` in the checked-out repository. */
  function PackageDir(p: Package): Path { ["packages", "packages", "preview", p.name, p.vers] }

  /** `<data dir>/typst/packages/preview/<name>/<vers>`, where typst looks
      for `@preview` packages. */
  function TargetDir(dataDir: Path, p: Package): Path
  {
    dataDir + ["typst", "packages", "preview", p.name, p.vers]
  }

  /** `p` lies inside the directory `dir` (or is `dir` itself). */
  predicate Under(p: Path, dir: Path) { |dir| <= |p| && p[..|dir|] == dir }

  /** Different packages are installed into different, non-nested
      directories, so installing one never touches another. */
  lemma TargetsDisjoint(dataDir: Path, p1: Package, p2: Package, q: Path)
    requires p1 != p2
    ensures !(Under(q, TargetDir(dataDir, p1)) && Under(q, TargetDir(dataDir, p2)))
  {
    var t1, t2 := TargetDir(dataDir, p1), TargetDir(dataDir, p2);
    assert t1[|dataDir| + 3] == p1.name && t2[|dataDir| + 3] == p2.name;
    assert t1[|dataDir| + 4] == p1.vers && t2[|dataDir| + 4] == p2.vers;
    assert t1 != t2;
  }

  // ---------------------------------------------------------------------
  // Exclude patterns

  /** The override string for one exclude pattern: every leading `./`
      removed and the result negated with `!`. */
  function Inverted(exclude: string): string { "!" + TrimLeadingDotSlash(exclude) }

  /** Why one exclude pattern is refused, if it is. */
  function ExcludeError(exclude: string, globOk: string -> bool): Option<Error>
  {
    if |exclude| > 0 && exclude[0] == '!' then Some(NegatedExclude(exclude))
    else if !globOk(Inverted(exclude)) then Some(InvalidGlob(Inverted(exclude)))
    else None
  }

  /** The override list built from the exclude patterns, or the error of
      the first pattern refused. */
  function Overrides(excludes: seq<string>, globOk: string -> bool): Result<seq<string>>
    decreases |excludes|
  {
    if excludes == [] then Ok([])
    else match Overrides(excludes[..|excludes| - 1], globOk)
      case Err(e) => Err(e)
      case Ok(os) => OverrideStep(os, excludes[|excludes| - 1], globOk)
  }

  /** One pattern handed to the builder after the patterns giving `os`. */
  function OverrideStep(os: seq<string>, exclude: string, globOk: string -> bool): Result<seq<string>>
  {
    match ExcludeError(exclude, globOk)
    case Some(err) => Err(err)
    case None => Ok(os + [Inverted(exclude)])
  }

  /** Once a prefix of the patterns is refused, later patterns are never
      looked at. */
  lemma {:induction false} OverridesFailEarly(excludes: seq<string>, k: nat, globOk: string -> bool)
    requires 0 < k <= |excludes| && Overrides(excludes[..k], globOk).Err?
    ensures Overrides(excludes, globOk) == Overrides(excludes[..k], globOk)
    decreases |excludes|
  {
    if k < |excludes| {
      var init := excludes[..|excludes| - 1];
      assert init[..k] == excludes[..k];
      OverridesFailEarly(init, k, globOk);
    } else {
      assert excludes[..k] == excludes;
    }
  }

  /** The exclude loop of `install_package`: each pattern is checked and
      handed to the override builder in manifest order; the first refused
      pattern ends the installation. */
  method BuildOverrides(excludes: seq<string>, globOk: string -> bool) returns (r: Result<seq<string>>)
    ensures r == Overrides(excludes, globOk)
  {
    var builder: seq<string> := [];
    for i := 0 to |excludes|
      invariant Overrides(excludes[..i], globOk) == Ok(builder)
    {
      assert excludes[..i + 1][..i] == excludes[..i];
      var exclude := excludes[i];
      if |exclude| > 0 && exclude[0] == '!' {
        OverridesFailEarly(excludes, i + 1, globOk);
        return Err(NegatedExclude(exclude));
      }
      var inverted := "!" + TrimLeadingDotSlash(exclude);
      if !globOk(inverted) {
        OverridesFailEarly(excludes, i + 1, globOk);
        return Err(InvalidGlob(inverted));
      }
      builder := builder + [inverted];
    }
    assert excludes[..|excludes|] == excludes;
    return Ok(builder);
  }

  /** The override list is built exactly when every pattern is accepted,
      and then holds one negated pattern per exclude, in manifest order. */
  lemma {:induction false} OverridesOk(excludes: seq<string>, globOk: string -> bool)
    ensures Overrides(excludes, globOk).Ok? <==>
            forall i :: 0 <= i < |excludes| ==> ExcludeError(excludes[i], globOk).None?
    ensures Overrides(excludes, globOk).Ok? ==>
              var os := Overrides(excludes, globOk).value;
              |os| == |excludes| &&
              forall i :: 0 <= i < |excludes| ==> os[i] == Inverted(excludes[i])
    decreases |excludes|
  {
    if excludes != [] {
      var init := excludes[..|excludes| - 1];
      OverridesOk(init, globOk);
      assert forall i :: 0 <= i < |init| ==> init[i] == excludes[i];
    }
  }

  /** A refused list reports the first refused pattern, and every pattern
      before it was accepted. */
  lemma {:induction false} OverridesFirstError(excludes: seq<string>, globOk: string -> bool)
    requires Overrides(excludes, globOk).Err?
    ensures exists k :: 0 <= k < |excludes| &&
              (forall i :: 0 <= i < k ==> ExcludeError(excludes[i], globOk).None?) &&
              ExcludeError(excludes[k], globOk) == Some(Overrides(excludes, globOk).error)
    decreases |excludes|
  {
    var init := excludes[..|excludes| - 1];
    var n := |excludes| - 1;
    if Overrides(init, globOk).Err? {
      OverridesFirstError(init, globOk);
      var k :| 0 <= k < |init| &&
               (forall i :: 0 <= i < k ==> ExcludeError(init[i], globOk).None?) &&
               ExcludeError(init[k], globOk) == Some(Overrides(init, globOk).error);
      assert forall i :: 0 <= i <= k ==> init[i] == excludes[i];
    } else {
      OverridesOk(init, globOk);
      assert forall i :: 0 <= i < n ==> init[i] == excludes[i];
      assert ExcludeError(excludes[n], globOk) == Some(Overrides(excludes, globOk).error);
    }
  }

  /** Stripping is complete: what follows the `!` never starts with `./`,
      and a pattern written with extra `./` prefixes gives the same
      override as the bare one. */
  lemma InvertedStripsDotSlash(exclude: string)
    ensures var o := Inverted(exclude);
            |o| >= 1 && o[0] == '!' && !(|o| >= 3 && o[1] == '.' && o[2] == '/')
    ensures Inverted("./" + exclude) == Inverted(exclude)
  {
    var s := "./" + exclude;
    assert s[2..] == exclude;
    TrimmedDotSlashes(exclude);
    assert "!" + TrimLeadingDotSlash(exclude) == Inverted(exclude);
    assert Inverted(exclude)[1..] == TrimLeadingDotSlash(exclude);
  }

  // ---------------------------------------------------------------------
  // Removing the old copy and copying the files

  /** `files` with everything inside `dir` removed (`remove_dir_all`). */
  function Cleared(files: Files, dir: Path): (r: Files)
    ensures forall p :: p in r <==> p in files && !Under(p, dir)
    ensures forall p :: p in r ==> r[p] == files[p]
  {
    map p | p in files && !Under(p, dir) :: files[p]
  }

  /** The files a walk puts into `target`: every regular-file entry at
      `target` joined with its relative path; a later entry for the same
      path wins. */
  function FileEntries(target: Path, items: seq<WalkItem>): (r: Files)
    ensures forall p :: p in r ==> Under(p, target)
    decreases |items|
  {
    if items == [] then map[]
    else
      var m := FileEntries(target, items[..|items| - 1]);
      match items[|items| - 1]
      case Entry(rel, isFile, bytes) =>
        if isFile then
          assert (target + rel)[..|target|] == target;
          m[target + rel := bytes]
        else m
      case Broken => m
  }

  /** Every file put into `target` comes from a regular-file entry of the
      walk, with that entry's contents, and every regular-file entry is
      put there. */
  lemma {:induction false} FileEntriesFromWalk(target: Path, items: seq<WalkItem>)
    ensures forall p :: p in FileEntries(target, items) ==>
              exists i :: 0 <= i < |items| && items[i].Entry? && items[i].isFile &&
                          p == target + items[i].rel && FileEntries(target, items)[p] == items[i].bytes
    ensures forall i :: 0 <= i < |items| && items[i].Entry? && items[i].isFile ==>
              target + items[i].rel in FileEntries(target, items)
    decreases |items|
  {
    if items != [] {
      var init := items[..|items| - 1];
      FileEntriesFromWalk(target, init);
      assert forall i :: 0 <= i < |init| ==> init[i] == items[i];
    }
  }

  /** An item that stops the copy loop: a traversal error, or a regular
      file that cannot be copied to its place in `target`. */
  predicate Fails(item: WalkItem, target: Path, copyOk: Path -> bool)
  {
    item.Broken? || (item.isFile && !copyOk(target + item.rel))
  }

  function FailureError(item: WalkItem, target: Path): Error
  {
    if item.Broken? then TraverseFailed else CopyFailed(target + item.rel)
  }

  /** The index of the first item that stops the copy loop, or the number
      of items when none does. */
  function FirstFailure(items: seq<WalkItem>, target: Path, copyOk: Path -> bool): (k: nat)
    ensures k <= |items|
    ensures forall i :: 0 <= i < k ==> !Fails(items[i], target, copyOk)
    ensures k < |items| ==> Fails(items[k], target, copyOk)
    decreases |items|
  {
    if items == [] then 0
    else
      var init := items[..|items| - 1];
      var k := FirstFailure(init, target, copyOk);
      if k < |init| then k
      else if Fails(items[|items| - 1], target, copyOk) then |init|
      else |items|
  }

  /** The copy loop as a function of the walk: the files after the loop
      and its outcome. */
  function CopyWalk(files: Files, target: Path, items: seq<WalkItem>, copyOk: Path -> bool): (Files, Outcome)
    decreases |items|
  {
    if items == [] then (files, Ok(()))
    else
      var (m, o) := CopyWalk(files, target, items[..|items| - 1], copyOk);
      if o.Err? then (m, o)
      else match items[|items| - 1]
        case Broken => (m, Err(TraverseFailed))
        case Entry(rel, isFile, bytes) =>
          if !isFile then (m, Ok(()))
          else if !copyOk(target + rel) then (m, Err(CopyFailed(target + rel)))
          else (m[target + rel := bytes], Ok(()))
  }

  /** The copy loop copies the items up to the first failing one and no
      further: it succeeds exactly when no item fails, and otherwise
      reports that item's error. */
  lemma {:induction false} CopyWalkResult(files: Files, target: Path, items: seq<WalkItem>, copyOk: Path -> bool)
    ensures var k := FirstFailure(items, target, copyOk);
            var (m, o) := CopyWalk(files, target, items, copyOk);
            m == files + FileEntries(target, items[..k]) &&
            (o.Ok? <==> k == |items|) &&
            (k < |items| ==> o == Err(FailureError(items[k], target)))
    decreases |items|
  {
    if items == [] {
      assert items[..0] == [];
    } else {
      var init := items[..|items| - 1];
      var last := items[|items| - 1];
      CopyWalkResult(files, target, init, copyOk);
      var k0 := FirstFailure(init, target, copyOk);
      if k0 < |init| {
        assert items[..k0] == init[..k0];
      } else {
        assert init[..k0] == init == items[..|items|][..|items| - 1];
        var m := files + FileEntries(target, init);
        if Fails(last, target, copyOk) {
          assert items[..|init|] == init;
        } else {
          assert items[..|items|] == items;
          if last.Entry? && last.isFile {
            var t := target + last.rel;
            assert m[t := last.bytes] == files + FileEntries(target, init)[t := last.bytes];
          }
        }
      }
    }
  }

  /** The whole of `install_package` as a function of the filesystem and
      the environment: the new filesystem and the result. */
  function InstallSpec(files: Files, pkg: Package, env: Env): (Files, Result<Manifest>)
  {
    var dir := PackageDir(pkg);
    var target := TargetDir(env.dataDir, pkg);
    match env.readManifest(dir + ["typst.toml"])
    case Err(e) => (files, Err(e))
    case Ok(manifest) =>
      match Overrides(manifest.exclude, env.globOk)
      case Err(e) => (files, Err(e))
      case Ok(os) =>
        if RemovalFails(files, target, env) then (files, Err(RemoveFailed(target)))
        else
          var (m, o) := CopyWalk(Cleared(files, target), target, env.walk(dir, os), env.copyOk);
          (m, if o.Ok? then Ok(manifest) else Err(o.error))
  }

  /** An earlier copy of the package is present and cannot be removed. */
  predicate RemovalFails(files: Files, target: Path, env: Env)
  {
    (exists p | p in files :: Under(p, target)) && !env.removeOk(target)
  }

  /** The local package cache, the part of the filesystem that
      `install_package` changes. */
  class PackageCache {
    var files: Files

    constructor (files: Files)
      ensures this.files == files
    {
      this.files := files;
    }

    /** `remove_dir_all`: everything inside `dir` is removed. */
    method Clear(dir: Path)
      modifies this
      ensures files == Cleared(old(files), dir)
    {
      files := map p | p in files && !Under(p, dir) :: files[p];
    }

    /** The copy loop: walks the entries, stops at the first traversal
        error or failed copy, and copies every regular file to `target`
        joined with its relative path. */
    method CopyEntries(target: Path, walk: seq<WalkItem>, copyOk: Path -> bool) returns (r: Outcome)
      modifies this
      ensures (files, r) == CopyWalk(old(files), target, walk, copyOk)
    {
      ghost var start := files;
      for i := 0 to |walk|
        invariant CopyWalk(start, target, walk[..i], copyOk) == (files, Ok(()))
      {
        assert walk[..i + 1][..i] == walk[..i];
        var entry := walk[i];
        if entry.Broken? {
          CopyWalkStops(start, target, walk, i + 1, copyOk);
          return Err(TraverseFailed);
        }
        if entry.isFile {
          var targetPath := target + entry.rel;
          if !copyOk(targetPath) {
            CopyWalkStops(start, target, walk, i + 1, copyOk);
            return Err(CopyFailed(targetPath));
          }
          files := files[targetPath := entry.bytes];
        }
      }
      assert walk[..|walk|] == walk;
      return Ok(());
    }

    /** `install_package`: read the manifest, build the overrides, remove
        the old copy if there is one, then copy the walk's files. */
    method InstallPackage(pkg: Package, env: Env) returns (r: Result<Manifest>)
      modifies this
      ensures (files, r) == InstallSpec(old(files), pkg, env)
    {
      var packageDir := PackageDir(pkg);
      var targetDir := TargetDir(env.dataDir, pkg);
      var manifest := env.readManifest(packageDir + ["typst.toml"]);
      if manifest.Err? {
        return Err(manifest.error);
      }
      var overrides := BuildOverrides(manifest.value.exclude, env.globOk);
      if overrides.Err? {
        return Err(overrides.error);
      }
      var walk := env.walk(packageDir, overrides.value);
      if exists p | p in files :: Under(p, targetDir) {
        if !env.removeOk(targetDir) {
          return Err(RemoveFailed(targetDir));
        }
        Clear(targetDir);
      } else {
        assert Cleared(files, targetDir) == files;
      }
      var copied := CopyEntries(targetDir, walk, env.copyOk);
      if copied.Err? {
        return Err(copied.error);
      }
      return Ok(manifest.value);
    }
  }

  /** Once the copy loop has failed on a prefix of the walk, the rest of
      the walk changes nothing. */
  lemma {:induction false} CopyWalkStops(files: Files, target: Path, items: seq<WalkItem>, k: nat, copyOk: Path -> bool)
    requires 0 < k <= |items| && CopyWalk(files, target, items[..k], copyOk).1.Err?
    ensures CopyWalk(files, target, items, copyOk) == CopyWalk(files, target, items[..k], copyOk)
    decreases |items|
  {
    if k < |items| {
      var init := items[..|items| - 1];
      assert init[..k] == items[..k];
      CopyWalkStops(files, target, init, k, copyOk);
    } else {
      assert items[..k] == items;
    }
  }

  /** The manifest `install_package` reads for `pkg`. */
  function ManifestOf(pkg: Package, env: Env): Result<Manifest>
  {
    env.readManifest(PackageDir(pkg) + ["typst.toml"])
  }

  /** The walk of the package directory under the package's overrides;
      only meaningful when the manifest and its exclude list are accepted. */
  function WalkOf(pkg: Package, env: Env): seq<WalkItem>
  {
    var manifest := ManifestOf(pkg, env);
    if manifest.Err? then []
    else
      var os := Overrides(manifest.value.exclude, env.globOk);
      if os.Err? then [] else env.walk(PackageDir(pkg), os.value)
  }

  /** The package's directory in the cache holds exactly the regular files
      of its walk. */
  ghost predicate Installed(files: Files, pkg: Package, env: Env)
  {
    var target := TargetDir(env.dataDir, pkg);
    var entries := FileEntries(target, WalkOf(pkg, env));
    forall p :: Under(p, target) ==>
      (p in files <==> p in entries) && (p in files ==> files[p] == entries[p])
  }

  /** Installing replaces, it does not merge: after a successful install
      the package directory holds exactly the walk's regular files, the
      result is the package's manifest, and nothing outside the package
      directory has changed. */
  lemma InstallReplaces(files: Files, pkg: Package, env: Env)
    requires InstallSpec(files, pkg, env).1.Ok?
    ensures InstallSpec(files, pkg, env).1 == ManifestOf(pkg, env)
    ensures Installed(InstallSpec(files, pkg, env).0, pkg, env)
    ensures var target := TargetDir(env.dataDir, pkg);
            var after := InstallSpec(files, pkg, env).0;
            forall p :: !Under(p, target) ==>
              (p in after <==> p in files) && (p in after ==> after[p] == files[p])
  {
    var target := TargetDir(env.dataDir, pkg);
    var walk := WalkOf(pkg, env);
    CopyWalkResult(Cleared(files, target), target, walk, env.copyOk);
    assert walk[..|walk|] == walk;
  }

  /** Whatever happens, nothing outside the package's own directory
      changes; a failure before the copy (manifest, exclude patterns or
      removal of the earlier copy) changes nothing at all; and once the
      earlier copy is removed, a failure during the copy leaves in the
      package directory only files the walk delivered before the failing
      entry, never files of an earlier install. */
  lemma InstallFailure(files: Files, pkg: Package, env: Env)
    ensures var target := TargetDir(env.dataDir, pkg);
            var after := InstallSpec(files, pkg, env).0;
            forall p :: !Under(p, target) ==>
              (p in after <==> p in files) && (p in after ==> after[p] == files[p])
    ensures var target := TargetDir(env.dataDir, pkg);
            var manifest := ManifestOf(pkg, env);
            manifest.Err? ==> InstallSpec(files, pkg, env) == (files, Err(manifest.error))
    ensures var target := TargetDir(env.dataDir, pkg);
            var manifest := ManifestOf(pkg, env);
            manifest.Ok? && Overrides(manifest.value.exclude, env.globOk).Err? ==>
              InstallSpec(files, pkg, env) == (files, Err(Overrides(manifest.value.exclude, env.globOk).error))
    ensures var target := TargetDir(env.dataDir, pkg);
            var manifest := ManifestOf(pkg, env);
            manifest.Ok? && Overrides(manifest.value.exclude, env.globOk).Ok? && RemovalFails(files, target, env) ==>
              InstallSpec(files, pkg, env) == (files, Err(RemoveFailed(target)))
    ensures var target := TargetDir(env.dataDir, pkg);
            var manifest := ManifestOf(pkg, env);
            var after := InstallSpec(files, pkg, env).0;
            manifest.Ok? && Overrides(manifest.value.exclude, env.globOk).Ok? && !RemovalFails(files, target, env) ==>
              var walk := WalkOf(pkg, env);
              var k := FirstFailure(walk, target, env.copyOk);
              forall p :: p in after && Under(p, target) ==> p in FileEntries(target, walk[..k])
  {
    var target := TargetDir(env.dataDir, pkg);
    var manifest := ManifestOf(pkg, env);
    if manifest.Ok? && Overrides(manifest.value.exclude, env.globOk).Ok? && !RemovalFails(files, target, env) {
      CopyWalkResult(Cleared(files, target), target, WalkOf(pkg, env), env.copyOk);
    }
  }

  /** Installing one package leaves every file of another package's
      installed copy as it was. */
  lemma InstallKeepsOthers(files: Files, pkg: Package, other: Package, env: Env, p: Path)
    requires pkg != other && Under(p, TargetDir(env.dataDir, other))
    ensures var after := InstallSpec(files, pkg, env).0;
            (p in after <==> p in files) && (p in after ==> after[p] == files[p])
  {
    TargetsDisjoint(env.dataDir, pkg, other, p);
    InstallFailure(files, pkg, env);
  }
}
