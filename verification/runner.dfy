/** `run` and `test_package`: choose the phases from the command word,
    parse the session, fetch the pull request, install every package
    (stopping at the first failure), then test every package's template
    (running all of them and keeping the first error).

    Everything the tool does to the outside world is recorded as an
    `Event`, in order; outcomes of git, of the `test` directory and of the
    external commands are parameters (`World`). */
module Runner {
  import opened Base
  import opened Text
  import opened Cli
  import opened Naming
  import opened Installer

  // ---------------------------------------------------------------------
  // test_package

  /** A step of `test_package` that can fail. */
  datatype Action =
    | RemoveTemplate(dir: string)      // remove an earlier template copy
    | Init(spec: string, dir: string)  // `typst init <spec> <dir>`
    | Compile(entrypoint: string)      // `typst compile <entrypoint>`
    | OpenPdf(entrypoint: string)      // `xdg-open` on the PDF beside the entrypoint

  /** Whether a path exists, and whether an action succeeds. */
  datatype TestEnv = TestEnv(present: string -> bool, succeeds: Action -> bool)

  /** `test/<name>`, where the template is instantiated. */
  function TemplateDir(p: Package): string { "test/" + p.name }

  /** The steps `test_package` takes when all of them succeed: nothing
      without a template; otherwise remove an existing template directory,
      instantiate the template from the package's spec, compile its
      entrypoint and open the PDF. */
  function TestActions(p: Package, m: Manifest, tenv: TestEnv): seq<Action>
  {
    match m.template
    case None => []
    case Some(t) =>
      var dir := TemplateDir(p);
      var entrypoint := dir + "/" + t.entrypoint;
      (if tenv.present(dir) then [RemoveTemplate(dir)] else []) +
      [Init(Spec(p), dir), Compile(entrypoint), OpenPdf(entrypoint)]
  }

  function ActionError(a: Action): Error
  {
    if a.RemoveTemplate? then TemplateResetFailed(a.dir) else CommandFailed
  }

  /** Takes the steps in order until one fails: the outcome and the steps
      taken, the failing one included. */
  function Perform(actions: seq<Action>, ok: Action -> bool): (Outcome, seq<Action>)
    decreases |actions|
  {
    if actions == [] then (Ok(()), [])
    else if !ok(actions[0]) then (Err(ActionError(actions[0])), [actions[0]])
    else
      var (o, done) := Perform(actions[1..], ok);
      (o, [actions[0]] + done)
  }

  /** `Perform` takes a prefix of the steps; it succeeds exactly when every
      step succeeds, and then takes them all; otherwise it stops at the
      first failing step and reports that step's error. */
  lemma {:induction false} PerformStops(actions: seq<Action>, ok: Action -> bool)
    ensures var (o, done) := Perform(actions, ok);
            |done| <= |actions| && done == actions[..|done|] &&
            (o.Ok? <==> forall i :: 0 <= i < |actions| ==> ok(actions[i])) &&
            (o.Ok? ==> done == actions) &&
            (o.Err? ==> |done| > 0 && !ok(done[|done| - 1]) &&
                        (forall i :: 0 <= i < |done| - 1 ==> ok(done[i])) &&
                        o.error == ActionError(done[|done| - 1]))
    decreases |actions|
  {
    if actions != [] && ok(actions[0]) {
      var rest := actions[1..];
      PerformStops(rest, ok);
      var (o, done) := Perform(rest, ok);
      assert Perform(actions, ok) == (o, [actions[0]] + done);
      assert forall i :: 0 <= i < |rest| ==> rest[i] == actions[i + 1];
      assert forall i :: 1 <= i < |actions| ==> actions[i] == rest[i - 1];
    }
  }

  /** `test_package` for one package and its manifest. */
  function TestPackage(p: Package, m: Manifest, tenv: TestEnv): (Outcome, seq<Action>)
  {
    Perform(TestActions(p, m, tenv), tenv.succeeds)
  }

  /** A package without a template is not tested and passes; with one, a
      successful test ends by instantiating the package's own spec in
      `test/<name>`, compiling the entrypoint there and opening its PDF. */
  lemma TestPackageSteps(p: Package, m: Manifest, tenv: TestEnv)
    ensures m.template.None? ==> TestPackage(p, m, tenv) == (Ok(()), [])
    ensures m.template.Some? && TestPackage(p, m, tenv).0.Ok? ==>
              var done := TestPackage(p, m, tenv).1;
              var entrypoint := TemplateDir(p) + "/" + m.template.value.entrypoint;
              |done| >= 3 &&
              done[|done| - 3..] == [Init(Spec(p), TemplateDir(p)), Compile(entrypoint), OpenPdf(entrypoint)]
    ensures TestPackage(p, m, tenv).0.Err? ==> m.template.Some?
  {
    PerformStops(TestActions(p, m, tenv), tenv.succeeds);
  }

  /** The packages paired with their manifests (`Iterator::zip`). */
  function Zip(ps: seq<Package>, ms: seq<Manifest>): (r: seq<(Package, Manifest)>)
    ensures |r| == if |ps| <= |ms| then |ps| else |ms|
    ensures forall i :: 0 <= i < |r| ==> r[i] == (ps[i], ms[i])
  {
    seq(if |ps| <= |ms| then |ps| else |ms|, i requires 0 <= i < |ps| && i < |ms| => (ps[i], ms[i]))
  }

  /** A test of one package with its manifest: the outcome and the steps
      taken. */
  type PackageTest = (Package, Manifest) -> (Outcome, seq<Action>)

  /** `test_package` as the test loop calls it. */
  function TestStep(tenv: TestEnv): PackageTest
  {
    (p, m) => TestPackage(p, m, tenv)
  }

  /** The test loop of `run`: every package is tested, in order; the
      result is the first error, or success. */
  function TestPhase(pairs: seq<(Package, Manifest)>, test: PackageTest): (Outcome, seq<Action>)
    decreases |pairs|
  {
    if pairs == [] then (Ok(()), [])
    else
      var (res, done) := TestPhase(pairs[..|pairs| - 1], test);
      var last := pairs[|pairs| - 1];
      var (r, steps) := test(last.0, last.1);
      (if res.Ok? then r else res, done + steps)
  }

  /** The test loop: runs `test_package` for every package and keeps the
      first error in `res`. */
  method TestAll(pairs: seq<(Package, Manifest)>, test: PackageTest) returns (res: Outcome, actions: seq<Action>)
    ensures (res, actions) == TestPhase(pairs, test)
  {
    res, actions := Ok(()), [];
    for i := 0 to |pairs|
      invariant TestPhase(pairs[..i], test) == (res, actions)
    {
      assert pairs[..i + 1][..i] == pairs[..i];
      var (package, manifest) := pairs[i];
      var (r, steps) := test(package, manifest);
      actions := actions + steps;
      if res.Ok? {
        res := r;
      }
    }
    assert pairs[..|pairs|] == pairs;
  }

  /** Testing a list in two parts is testing each part: the steps of the
      second part are taken whatever the outcome of the first, and an error
      in the first part is the one reported. */
  lemma {:induction false} TestPhaseSplit(xs: seq<(Package, Manifest)>, ys: seq<(Package, Manifest)>, test: PackageTest)
    ensures var (r1, a1) := TestPhase(xs, test);
            var (r2, a2) := TestPhase(ys, test);
            TestPhase(xs + ys, test) == (if r1.Err? then r1 else r2, a1 + a2)
    decreases |ys|
  {
    if ys == [] {
      assert xs + ys == xs;
      var (r1, a1) := TestPhase(xs, test);
      assert a1 + [] == a1;
      assert r1.Ok? ==> r1.value == ();
    } else {
      var init, last := ys[..|ys| - 1], ys[|ys| - 1];
      TestPhaseSplit(xs, init, test);
      assert xs + ys == (xs + init) + [last];
      assert ys == init + [last];
      TestPhaseSnoc(xs + init, last, test);
      TestPhaseSnoc(init, last, test);
      var a1, a2, steps := TestPhase(xs, test).1, TestPhase(init, test).1, test(last.0, last.1).1;
      assert (a1 + a2) + steps == a1 + (a2 + steps);
    }
  }

  /** One more package: its test runs, and its outcome counts only when
      every earlier test passed. */
  lemma TestPhaseSnoc(pairs: seq<(Package, Manifest)>, x: (Package, Manifest), test: PackageTest)
    ensures var (res, done) := TestPhase(pairs, test);
            var (r, steps) := test(x.0, x.1);
            TestPhase(pairs + [x], test) == (if res.Ok? then r else res, done + steps)
  {
    assert (pairs + [x])[..|pairs|] == pairs;
  }

  /** The test phase succeeds exactly when every package's test succeeds;
      otherwise it reports the error of the first package that failed. */
  lemma {:induction false} TestPhaseFirstError(pairs: seq<(Package, Manifest)>, test: PackageTest)
    ensures TestPhase(pairs, test).0.Ok? <==>
              forall i :: 0 <= i < |pairs| ==> test(pairs[i].0, pairs[i].1).0.Ok?
    ensures TestPhase(pairs, test).0.Err? ==>
              exists k :: 0 <= k < |pairs| &&
                (forall i :: 0 <= i < k ==> test(pairs[i].0, pairs[i].1).0.Ok?) &&
                TestPhase(pairs, test).0 == test(pairs[k].0, pairs[k].1).0
    decreases |pairs|
  {
    if pairs != [] {
      var init := pairs[..|pairs| - 1];
      TestPhaseFirstError(init, test);
      assert forall i :: 0 <= i < |init| ==> init[i] == pairs[i];
    }
  }

  // ---------------------------------------------------------------------
  // The install loop

  /** An installation of one package over the cache: the cache afterwards
      and the manifest or the error. */
  type PackageInstall = (Files, Package) -> (Files, Result<Manifest>)

  /** `install_package` as the install loop calls it. */
  function InstallStep(env: Env): PackageInstall
  {
    (files, p) => InstallSpec(files, p, env)
  }

  /** The install loop of `run` (`collect` into a `Result`): installs the
      packages in order and stops at the first failure. Gives the cache
      afterwards, the manifests or the first error, and the packages whose
      installation was started. */
  function InstallPhase(files: Files, ps: seq<Package>, install: PackageInstall): (Files, Result<seq<Manifest>>, seq<Package>)
    decreases |ps|
  {
    if ps == [] then (files, Ok([]), [])
    else
      var (f, r, tried) := InstallPhase(files, ps[..|ps| - 1], install);
      if r.Err? then (f, r, tried)
      else
        var last := ps[|ps| - 1];
        var (f2, m) := install(f, last);
        (f2, if m.Ok? then Ok(r.value + [m.value]) else Err(m.error), tried + [last])
  }

  /** After a failure on a prefix of the packages, the later packages are
      not installed. */
  lemma {:induction false} InstallPhaseStops(files: Files, ps: seq<Package>, k: nat, install: PackageInstall)
    requires 0 < k <= |ps| && InstallPhase(files, ps[..k], install).1.Err?
    ensures InstallPhase(files, ps, install) == InstallPhase(files, ps[..k], install)
    decreases |ps|
  {
    if k < |ps| {
      var init := ps[..|ps| - 1];
      assert init[..k] == ps[..k];
      InstallPhaseStops(files, init, k, install);
    } else {
      assert ps[..k] == ps;
    }
  }

  /** The install loop over the package cache. */
  method InstallAll(cache: PackageCache, ps: seq<Package>, env: Env) returns (r: Result<seq<Manifest>>, tried: seq<Package>)
    modifies cache
    ensures (cache.files, r, tried) == InstallPhase(old(cache.files), ps, InstallStep(env))
  {
    ghost var start := cache.files;
    var manifests: seq<Manifest> := [];
    tried := [];
    for i := 0 to |ps|
      invariant InstallPhase(start, ps[..i], InstallStep(env)) == (cache.files, Ok(manifests), tried)
    {
      assert ps[..i + 1][..i] == ps[..i];
      tried := tried + [ps[i]];
      var m := cache.InstallPackage(ps[i], env);
      if m.Err? {
        InstallPhaseStops(start, ps, i + 1, InstallStep(env));
        return Err(m.error), tried;
      }
      manifests := manifests + [m.value];
    }
    assert ps[..|ps|] == ps;
    return Ok(manifests), tried;
  }

  /** Another package's install keeps a package installed. */
  lemma InstalledKept(files: Files, p: Package, other: Package, env: Env)
    requires Installed(files, p, env) && p != other
    ensures Installed(InstallSpec(files, other, env).0, p, env)
  {
    var after := InstallSpec(files, other, env).0;
    forall q | Under(q, TargetDir(env.dataDir, p))
      ensures (q in after <==> q in files) && (q in after ==> after[q] == files[q])
    {
      InstallKeepsOthers(files, other, p, env, q);
    }
  }

  /** When the install loop succeeds every package was started, in order,
      and the manifests are the packages' own. */
  lemma {:induction false} InstallPhaseManifests(files: Files, ps: seq<Package>, env: Env)
    requires InstallPhase(files, ps, InstallStep(env)).1.Ok?
    ensures var (f, r, tried) := InstallPhase(files, ps, InstallStep(env));
            tried == ps && |r.value| == |ps| &&
            forall i :: 0 <= i < |ps| ==> Ok(r.value[i]) == ManifestOf(ps[i], env)
    decreases |ps|
  {
    InstallPhaseTried(files, ps, InstallStep(env));
    if ps != [] {
      var init := ps[..|ps| - 1];
      InstallPhaseManifests(files, init, env);
      assert forall i :: 0 <= i < |init| ==> init[i] == ps[i];
    }
  }

  /** When the install loop succeeds every package's directory holds
      exactly its walk's files: a later package never disturbs an earlier
      one. */
  lemma {:induction false} InstallPhaseInstalled(files: Files, ps: seq<Package>, env: Env)
    requires InstallPhase(files, ps, InstallStep(env)).1.Ok?
    ensures forall i :: 0 <= i < |ps| ==> Installed(InstallPhase(files, ps, InstallStep(env)).0, ps[i], env)
    decreases |ps|
  {
    if ps != [] {
      var init, last := ps[..|ps| - 1], ps[|ps| - 1];
      InstallPhaseInstalled(files, init, env);
      var f := InstallPhase(files, init, InstallStep(env)).0;
      var after := InstallSpec(f, last, env).0;
      assert InstallPhase(files, ps, InstallStep(env)).0 == after;
      InstallReplaces(f, last, env);
      forall i | 0 <= i < |ps|
        ensures Installed(after, ps[i], env)
      {
        if ps[i] != last {
          assert i < |init| && ps[i] == init[i];
          InstalledKept(f, ps[i], last, env);
        }
      }
    }
  }

  /** A successful install loop started every package, in order. */
  lemma {:induction false} InstallPhaseTried(files: Files, ps: seq<Package>, install: PackageInstall)
    requires InstallPhase(files, ps, install).1.Ok?
    ensures InstallPhase(files, ps, install).2 == ps
    decreases |ps|
  {
    if ps != [] {
      InstallPhaseTried(files, ps[..|ps| - 1], install);
    }
  }

  /** A failed install loop tried at least one package. */
  lemma {:induction false} InstallPhaseTriedFailing(files: Files, ps: seq<Package>, install: PackageInstall)
    requires InstallPhase(files, ps, install).1.Err?
    ensures |InstallPhase(files, ps, install).2| > 0
    decreases |ps|
  {
    if InstallPhase(files, ps[..|ps| - 1], install).1.Err? {
      InstallPhaseTriedFailing(files, ps[..|ps| - 1], install);
    }
  }

  /** The install loop stopped at package `k`: every earlier package was
      installed, the installation of `k` was started and failed, and its
      error and the cache it left are the loop's. */
  predicate FailedAt(files: Files, ps: seq<Package>, k: nat, install: PackageInstall)
    requires k < |ps|
  {
    var (before, ok, _) := InstallPhase(files, ps[..k], install);
    var (after, installed) := install(before, ps[k]);
    var (f, r, tried) := InstallPhase(files, ps, install);
    ok.Ok? && installed.Err? && tried == ps[..k + 1] && f == after && r == Err(installed.error)
  }

  /** When the install loop fails, it failed on one package, and no later
      package was touched. */
  lemma {:induction false} InstallPhaseFirstError(files: Files, ps: seq<Package>, install: PackageInstall)
    requires InstallPhase(files, ps, install).1.Err?
    ensures exists k :: 0 <= k < |ps| && FailedAt(files, ps, k, install)
    decreases |ps|
  {
    var init := ps[..|ps| - 1];
    if InstallPhase(files, init, install).1.Err? {
      InstallPhaseFirstError(files, init, install);
      var k :| 0 <= k < |init| && FailedAt(files, init, k, install);
      assert init[..k] == ps[..k] && init[..k + 1] == ps[..k + 1] && init[k] == ps[k];
      assert FailedAt(files, ps, k, install);
    } else {
      InstallPhaseTried(files, init, install);
      assert ps[..|ps| - 1 + 1] == ps == init + [ps[|ps| - 1]];
      var k := |ps| - 1;
      var (before, ok, tried0) := InstallPhase(files, init, install);
      var (after, installed) := install(before, ps[k]);
      assert ok.Ok?;
      assert InstallPhase(files, ps, install).0 == after;
      assert installed.Err?;
      assert FailedAt(files, ps, |ps| - 1, install);
    }
  }

  // ---------------------------------------------------------------------
  // run

  /** Everything outside the model that `run` depends on: the outcome of
      `clean`, of checking out the pull request's branch, the installer's
      environment, the outcome of creating `test`, and the test steps. */
  datatype World = World(
    clean: Outcome,
    checkout: (string, U32) -> Outcome,
    env: Env,
    makeTestDir: Outcome,
    tests: TestEnv)

  /** An effect `run` starts, in the order it starts them. */
  datatype Event =
    | Cleaning
    | CheckingOut(branch: string, prNr: U32)
    | Installing(pkg: Package)
    | CreatingTestDir
    | Executing(action: Action)

  function Installings(ps: seq<Package>): (r: seq<Event>)
    ensures |r| == |ps| && forall i :: 0 <= i < |ps| ==> r[i] == Installing(ps[i])
  {
    seq(|ps|, i requires 0 <= i < |ps| => Installing(ps[i]))
  }

  function Executions(actions: seq<Action>): (r: seq<Event>)
    ensures |r| == |actions| && forall i :: 0 <= i < |actions| ==> r[i] == Executing(actions[i])
  {
    seq(|actions|, i requires 0 <= i < |actions| => Executing(actions[i]))
  }

  /** `<data dir>/typst/packages/preview`, the directory `clean` empties. */
  function PreviewDir(dataDir: Path): Path { dataDir + ["typst", "packages", "preview"] }

  /** The install and test phases of `run`: install every package
      (stopping at the first failure), create `test`, then test every
      package with its manifest. */
  function InstallAndTest(ps: seq<Package>, files: Files, w: World): (Outcome, Files, seq<Event>)
  {
    var (f, r, tried) := InstallPhase(files, ps, InstallStep(w.env));
    var installEvents := Installings(tried);
    if r.Err? then (Err(r.error), f, installEvents)
    else if w.makeTestDir.Err? then (w.makeTestDir, f, installEvents + [CreatingTestDir])
    else
      var (res, actions) := TestPhase(Zip(ps, r.value), TestStep(w.tests));
      (res, f, installEvents + [CreatingTestDir] + Executions(actions))
  }

  /** What `run` does once the command and the session are known. */
  function Session(cmd: Cmd, a: Args, files: Files, w: World): (Outcome, Files, seq<Event>)
  {
    var branch := BranchNameSpec(a);
    var fetched := if cmd.Fetches() then w.checkout(branch, a.prNr) else Ok(());
    var fetchEvents := if cmd.Fetches() then [CheckingOut(branch, a.prNr)] else [];
    if fetched.Err? then (fetched, files, fetchEvents)
    else if !cmd.Installs() then (Ok(()), files, fetchEvents)
    else
      var (r, f, events) := InstallAndTest(a.packages, files, w);
      (r, f, fetchEvents + events)
  }

  /** `run`: the outcome, the package cache afterwards and the effects
      started, for the command-line arguments after the program name. */
  function RunSpec(argv: seq<string>, files: Files, w: World): (Outcome, Files, seq<Event>)
  {
    if argv == [] then (Err(MissingCommand), files, [])
    else match ParseCommand(argv[0])
      case Unknown => (Err(UnknownCommand(argv[0])), files, [])
      case Clean =>
        (w.clean, if w.clean.Ok? then Cleared(files, PreviewDir(w.env.dataDir)) else files, [Cleaning])
      case Phases(cmd) =>
        match ParseArgsSpec(Tokenize(argv[1..]))
        case Err(e) => (Err(e), files, [])
        case Ok(a) => Session(cmd, a, files, w)
  }

  /** The body of `if cmd.install()` in `run`. */
  method InstallAndTestAll(cache: PackageCache, ps: seq<Package>, w: World) returns (res: Outcome, events: seq<Event>)
    modifies cache
    ensures (res, cache.files, events) == InstallAndTest(ps, old(cache.files), w)
  {
    var manifests, tried := InstallAll(cache, ps, w.env);
    events := Installings(tried);
    if manifests.Err? {
      return Err(manifests.error), events;
    }
    events := events + [CreatingTestDir];
    if w.makeTestDir.Err? {
      return w.makeTestDir, events;
    }
    var actions;
    res, actions := TestAll(Zip(ps, manifests.value), TestStep(w.tests));
    events := events + Executions(actions);
  }

  /** `run`. */
  method Run(argv: seq<string>, cache: PackageCache, w: World) returns (r: Outcome, events: seq<Event>)
    modifies cache
    ensures (r, cache.files, events) == RunSpec(argv, old(cache.files), w)
  {
    if argv == [] {
      return Err(MissingCommand), [];
    }
    var command := ParseCommand(argv[0]);
    if command.Unknown? {
      return Err(UnknownCommand(argv[0])), [];
    }
    if command.Clean? {
      if w.clean.Ok? {
        cache.Clear(PreviewDir(w.env.dataDir));
      }
      return w.clean, [Cleaning];
    }
    var cmd := command.cmd;
    var parsed := ParseArgs(Tokenize(argv[1..]));
    if parsed.Err? {
      return Err(parsed.error), [];
    }
    var args := parsed.value;
    events := [];
    if cmd.Fetches() {
      var branch := BranchName(args);
      events := [CheckingOut(branch, args.prNr)];
      var fetched := w.checkout(branch, args.prNr);
      if fetched.Err? {
        return fetched, events;
      }
    }
    r := Ok(());
    if cmd.Installs() {
      var more;
      r, more := InstallAndTestAll(cache, args.packages, w);
      events := events + more;
    }
  }

  /** The install and test phases start at least one effect, and only
      installs, the creation of `test` and test steps. Tests start only
      after every package was installed: when the install loop fails, the
      test directory is not created, no test step runs, and the install
      error is the result. */
  lemma InstallAndTestEvents(ps: seq<Package>, files: Files, w: World)
    ensures var (r, f, events) := InstallAndTest(ps, files, w);
            var (f1, installed, tried) := InstallPhase(files, ps, InstallStep(w.env));
            events != [] &&
            (forall i :: 0 <= i < |events| ==>
               events[i].Installing? || events[i].CreatingTestDir? || events[i].Executing?) &&
            ((exists i :: 0 <= i < |events| && (events[i].CreatingTestDir? || events[i].Executing?)) ==>
               installed.Ok? && tried == ps) &&
            (installed.Err? ==>
               r == Err(installed.error) && f == f1 &&
               forall i :: 0 <= i < |events| ==> events[i].Installing?)
  {
    var (f1, installed, tried) := InstallPhase(files, ps, InstallStep(w.env));
    var events := InstallAndTest(ps, files, w).2;
    if installed.Ok? {
      InstallPhaseTried(files, ps, InstallStep(w.env));
      var prefix := Installings(tried) + [CreatingTestDir];
      if w.makeTestDir.Err? {
        assert events == prefix;
      } else {
        var actions := TestPhase(Zip(ps, installed.value), TestStep(w.tests)).1;
        assert events == prefix + Executions(actions);
      }
      assert forall i :: 0 <= i < |events| ==>
        events[i].Installing? || events[i].CreatingTestDir? || events[i].Executing?;
    } else {
      InstallPhaseTriedFailing(files, ps, InstallStep(w.env));
      assert InstallAndTest(ps, files, w) == (Err(installed.error), f1, Installings(tried));
    }
  }

  /** The install and test phases succeed exactly when every install
      succeeds, `test` is created and every package's test passes; and
      then every package is installed. */
  lemma InstallAndTestOk(ps: seq<Package>, files: Files, w: World)
    ensures var (r, f, events) := InstallAndTest(ps, files, w);
            var (f1, installed, tried) := InstallPhase(files, ps, InstallStep(w.env));
            r.Ok? <==>
              installed.Ok? && w.makeTestDir.Ok? &&
              forall i :: 0 <= i < |ps| ==>
                ManifestOf(ps[i], w.env).Ok? &&
                TestPackage(ps[i], ManifestOf(ps[i], w.env).value, w.tests).0.Ok?
    ensures var (r, f, events) := InstallAndTest(ps, files, w);
            r.Ok? ==> forall i :: 0 <= i < |ps| ==> Installed(f, ps[i], w.env)
  {
    var (f1, installed, tried) := InstallPhase(files, ps, InstallStep(w.env));
    if installed.Ok? {
      InstallPhaseManifests(files, ps, w.env);
      InstallPhaseInstalled(files, ps, w.env);
      var pairs := Zip(ps, installed.value);
      TestPhaseFirstError(pairs, TestStep(w.tests));
      assert forall i :: 0 <= i < |ps| ==> pairs[i] == (ps[i], ManifestOf(ps[i], w.env).value);
    }
  }

  /** Input errors have no effect: `run` starts nothing and changes
      nothing exactly when the command is missing or unknown or the session
      cannot be parsed, and it then fails. */
  lemma RunInputErrors(argv: seq<string>, files: Files, w: World)
    ensures var (r, f, events) := RunSpec(argv, files, w);
            var bad := argv == [] || ParseCommand(argv[0]).Unknown? ||
                       (ParseCommand(argv[0]).Phases? && ParseArgsSpec(Tokenize(argv[1..])).Err?);
            (events == [] <==> bad) && (bad ==> r.Err? && f == files)
  {
    if argv != [] && ParseCommand(argv[0]).Phases? && ParseArgsSpec(Tokenize(argv[1..])).Ok? {
      var cmd, a := ParseCommand(argv[0]).cmd, ParseArgsSpec(Tokenize(argv[1..])).value;
      PhaseCoverage(cmd);
      InstallAndTestEvents(a.packages, files, w);
    }
  }

  /** The branch is fetched first, under the session's branch name and
      PR number, and only by the commands that fetch; when the fetch fails
      nothing else is started and the cache is unchanged. */
  lemma SessionFetchFirst(cmd: Cmd, a: Args, files: Files, w: World)
    ensures var (r, f, events) := Session(cmd, a, files, w);
            (cmd.Fetches() ==> |events| > 0 && events[0] == CheckingOut(BranchNameSpec(a), a.prNr)) &&
            (cmd.Fetches() && w.checkout(BranchNameSpec(a), a.prNr).Err? ==>
               r == w.checkout(BranchNameSpec(a), a.prNr) && f == files && |events| == 1) &&
            (forall i :: 0 <= i < |events| && events[i].CheckingOut? ==> i == 0 && cmd.Fetches())
  {
    InstallAndTestEvents(a.packages, files, w);
  }

  /** `fetch` only fetches: no package is installed or tested and the
      cache is unchanged. */
  lemma SessionFetchOnly(cmd: Cmd, a: Args, files: Files, w: World)
    requires !cmd.Installs()
    ensures var (r, f, events) := Session(cmd, a, files, w);
            f == files && forall i :: 0 <= i < |events| ==> events[i].CheckingOut?
  {
  }

  /** `run` succeeds exactly when every phase the command asks for
      succeeds: the fetch, every install, the `test` directory and every
      package's test; and then every package is installed. */
  lemma SessionOk(cmd: Cmd, a: Args, files: Files, w: World)
    ensures var (r, f, events) := Session(cmd, a, files, w);
            var (r2, f2, events2) := InstallAndTest(a.packages, files, w);
            r.Ok? <==>
              (cmd.Fetches() ==> w.checkout(BranchNameSpec(a), a.prNr).Ok?) &&
              (cmd.Installs() ==> r2.Ok?)
    ensures var (r, f, events) := Session(cmd, a, files, w);
            r.Ok? && cmd.Installs() ==> forall i :: 0 <= i < |a.packages| ==> Installed(f, a.packages[i], w.env)
  {
    InstallAndTestOk(a.packages, files, w);
  }
}
