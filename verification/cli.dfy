/** The command line of the review tool: the command word, the tail of
    `<name>:<version>` tokens and the final `#<pr-number>` token. */
module Cli {
  import opened Base
  import opened Text

  /** `Package<'a> { name, vers }`: one package version to review. */
  datatype Package = Package(name: string, vers: string)

  /** `Args<'a> { packages, pr_nr }`: everything after the command word. */
  datatype Args = Args(packages: seq<Package>, prNr: U32)

  /** `enum Cmd`: the three commands that run review phases. */
  datatype Cmd = Review | Fetch | Install {
    /** `Cmd::fetch`: whether the pull request is checked out. */
    predicate Fetches() {
      match this
      case Review | Fetch => true
      case Install => false
    }

    /** `Cmd::install`: whether the packages are installed and tested. */
    predicate Installs() {
      match this
      case Review | Install => true
      case Fetch => false
    }

    function Word(): string {
      match this
      case Review => "review"
      case Fetch => "fetch"
      case Install => "install"
    }
  }

  /** Every command runs at least one phase, and only `review` runs both. */
  lemma PhaseCoverage(c: Cmd)
    ensures c.Fetches() || c.Installs()
    ensures c.Fetches() && c.Installs() <==> c == Review
    ensures c.Fetches() <==> c != Install
    ensures c.Installs() <==> c != Fetch
  {
  }

  /** What the command word selects in `run`. */
  datatype Command = Phases(cmd: Cmd) | Clean | Unknown

  function ParseCommand(word: string): (c: Command)
    ensures c.Phases? ==> c.cmd.Word() == word
  {
    match word
    case "review" => Phases(Review)
    case "fetch" => Phases(Fetch)
    case "install" => Phases(Install)
    case "clean" => Clean
    case _ => Unknown
  }

  /** Each command's word selects that command; "clean" is not a phase command. */
  lemma CommandWords(c: Cmd)
    ensures ParseCommand(c.Word()) == Phases(c)
    ensures c.Word() != "clean"
  {
  }

  /** The pieces that are not empty, in order. */
  function NonEmpty(xs: seq<string>): (r: seq<string>)
    ensures forall i :: 0 <= i < |r| ==> |r[i]| > 0 && r[i] in xs
    decreases |xs|
  {
    if xs == [] then []
    else if xs[0] == [] then NonEmpty(xs[1..])
    else [xs[0]] + NonEmpty(xs[1..])
  }

  /** Lines 95-96 of `run`: the arguments after the command word are joined
      with spaces, split at every space, and empty pieces are dropped. */
  function Tokenize(args: seq<string>): seq<string>
  {
    NonEmpty(SplitOn(Join(args, ' '), ' '))
  }

  lemma {:induction false} ConcatNonEmpty(xs: seq<string>)
    ensures Concat(NonEmpty(xs)) == Concat(xs)
    decreases |xs|
  {
    if xs != [] {
      ConcatNonEmpty(xs[1..]);
    }
  }

  lemma {:induction false} NonEmptyKeepsWords(xs: seq<string>)
    requires forall i :: 0 <= i < |xs| ==> |xs[i]| > 0
    ensures NonEmpty(xs) == xs
    decreases |xs|
  {
    if xs != [] {
      NonEmptyKeepsWords(xs[1..]);
      assert [xs[0]] + xs[1..] == xs;
    }
  }

  /** Tokens are non-empty and space-free, and together they hold exactly
      the non-space characters of the arguments, in order. They break only
      at spaces: the pieces of the space-joined arguments cut at every
      space join back to that text, and the tokens are the non-empty ones
      among any space-free pieces that join to it. */
  lemma Tokens(args: seq<string>)
    ensures forall i :: 0 <= i < |Tokenize(args)| ==> |Tokenize(args)[i]| > 0 && ' ' !in Tokenize(args)[i]
    ensures Concat(Tokenize(args)) == Without(Concat(args), ' ')
    ensures Join(SplitOn(Join(args, ' '), ' '), ' ') == Join(args, ' ')
    ensures forall ws ::
              (|ws| > 0 && (forall i :: 0 <= i < |ws| ==> ' ' !in ws[i]) && Join(ws, ' ') == Join(args, ' ')) ==>
                Tokenize(args) == NonEmpty(ws)
  {
    var pieces := SplitOn(Join(args, ' '), ' ');
    JoinSplit(Join(args, ' '), ' ');
    forall ws | |ws| > 0 && (forall i :: 0 <= i < |ws| ==> ' ' !in ws[i]) && Join(ws, ' ') == Join(args, ' ')
      ensures Tokenize(args) == NonEmpty(ws)
    {
      SplitJoin(ws, ' ');
    }
    forall i | 0 <= i < |Tokenize(args)|
      ensures ' ' !in Tokenize(args)[i]
    {
      var j :| 0 <= j < |pieces| && pieces[j] == Tokenize(args)[i];
    }
    ConcatNonEmpty(pieces);
    ConcatSplit(Join(args, ' '), ' ');
    WithoutJoin(args, ' ');
  }

  /** Arguments that are already single words come through unchanged. */
  lemma TokenizeWords(args: seq<string>)
    requires forall i :: 0 <= i < |args| ==> |args[i]| > 0 && ' ' !in args[i]
    ensures Tokenize(args) == args
  {
    if args == [] {
      assert SplitOn([], ' ') == [[]];
    } else {
      SplitJoin(args, ' ');
      NonEmptyKeepsWords(args);
    }
  }

  /** How the loop of `parse_args` treats one token. */
  datatype TokenKind = Separator | Named(pkg: Package) | Malformed(arg: string)

  function Classify(token: string): TokenKind
  {
    var arg := TrimEndCommas(token);
    if arg == "and" then Separator
    else match SplitOnce(arg, ':')
      case None => Malformed(arg)
      case Some((name, vers)) => Named(Package(name, vers))
  }

  /** The package tokens parsed left to right; the first malformed one fails. */
  function ParsePackages(args: seq<string>): Result<seq<Package>>
    decreases |args|
  {
    if args == [] then Ok([])
    else match ParsePackages(args[..|args| - 1])
      case Err(e) => Err(e)
      case Ok(ps) =>
        match Classify(args[|args| - 1])
        case Separator => Ok(ps)
        case Named(p) => Ok(ps + [p])
        case Malformed(a) => Err(MissingSeparator(a))
  }

  /** `parse_args`, as a function of the tokens. */
  function ParseArgsSpec(tokens: seq<string>): Result<Args>
  {
    if |tokens| < 2 then Err(TooFewArguments)
    else
      var last := tokens[|tokens| - 1];
      if !(|last| > 0 && last[0] == '#') then Err(MissingPrMarker(last))
      else match ParseU32(last[1..])
        case None => Err(InvalidPrNumber(last[1..]))
        case Some(prNr) =>
          match ParsePackages(tokens[..|tokens| - 1])
          case Err(e) => Err(e)
          case Ok(packages) => Ok(Args(packages, prNr))
  }

  /** Once a prefix of the package tokens fails, the whole list fails the
      same way: later tokens are never looked at. */
  lemma {:induction false} PackagesFailEarly(args: seq<string>, k: nat)
    requires 0 < k <= |args| && ParsePackages(args[..k]).Err?
    ensures ParsePackages(args) == ParsePackages(args[..k])
    decreases |args|
  {
    if k < |args| {
      var init := args[..|args| - 1];
      assert init[..k] == args[..k];
      PackagesFailEarly(init, k);
    } else {
      assert args[..k] == args;
    }
  }

  /** One more token, once the tokens before it have parsed. */
  lemma PackagesSnoc(args: seq<string>, i: nat, packages: seq<Package>)
    requires i < |args| && ParsePackages(args[..i]) == Ok(packages)
    ensures ParsePackages(args[..i + 1]) ==
              match Classify(args[i])
              case Separator => Ok(packages)
              case Named(p) => Ok(packages + [p])
              case Malformed(a) => Err(MissingSeparator(a))
  {
    var prefix := args[..i + 1];
    assert prefix[..i] == args[..i] && prefix[i] == args[i];
  }

  /** The loop of `parse_args` over the tokens before the PR number. */
  method ParsePackageTokens(rest: seq<string>) returns (r: Result<seq<Package>>)
    ensures r == ParsePackages(rest)
  {
    var packages: seq<Package> := [];
    for i := 0 to |rest|
      invariant ParsePackages(rest[..i]) == Ok(packages)
    {
      PackagesSnoc(rest, i, packages);
      var arg := TrimEndCommas(rest[i]);
      if arg == "and" {
        assert Classify(rest[i]) == Separator;
        continue;
      }
      var split := SplitOnce(arg, ':');
      if split.None? {
        assert Classify(rest[i]) == Malformed(arg);
        PackagesFailEarly(rest, i + 1);
        return Err(MissingSeparator(arg));
      }
      assert Classify(rest[i]) == Named(Package(split.value.0, split.value.1));
      packages := packages + [Package(split.value.0, split.value.1)];
    }
    assert rest[..|rest|] == rest;
    return Ok(packages);
  }

  /** `parse_args`: the final token is the PR number, every other token is
      a package or the word "and"; the first problem found is reported. */
  method ParseArgs(tokens: seq<string>) returns (r: Result<Args>)
    ensures r == ParseArgsSpec(tokens)
  {
    if |tokens| < 2 {
      return Err(TooFewArguments);
    }
    var last, rest := tokens[|tokens| - 1], tokens[..|tokens| - 1];
    if !(|last| > 0 && last[0] == '#') {
      return Err(MissingPrMarker(last));
    }
    var prNr := ParseU32(last[1..]);
    if prNr.None? {
      return Err(InvalidPrNumber(last[1..]));
    }
    var packages := ParsePackageTokens(rest);
    if packages.Err? {
      return Err(packages.error);
    }
    return Ok(Args(packages.value, prNr.value));
  }

  /** A token that names a package: after its trailing commas are removed
      it is not "and". */
  predicate NamesPackage(token: string) { TrimEndCommas(token) != "and" }

  /** A token `parse_args` accepts before the PR number. */
  predicate WellFormed(token: string) { !NamesPackage(token) || ':' in TrimEndCommas(token) }

  /** The package tokens, trailing commas removed, in input order. */
  function PackageTexts(args: seq<string>): (r: seq<string>)
    ensures |r| <= |args|
    decreases |args|
  {
    if args == [] then []
    else
      var init := PackageTexts(args[..|args| - 1]);
      var last := args[|args| - 1];
      if NamesPackage(last) then init + [TrimEndCommas(last)] else init
  }

  /** `Classify` agrees with the token predicates above. */
  lemma ClassifyToken(token: string)
    ensures Classify(token).Separator? <==> !NamesPackage(token)
    ensures Classify(token).Malformed? <==> !WellFormed(token)
    ensures Classify(token).Malformed? ==> Classify(token).arg == TrimEndCommas(token)
    ensures Classify(token).Named? ==>
              var p := Classify(token).pkg;
              p.name + ":" + p.vers == TrimEndCommas(token) && ':' !in p.name
  {
    var arg := TrimEndCommas(token);
    if arg != "and" {
      var split := SplitOnce(arg, ':');
      if split.Some? {
        assert split.value.0 + ":" + split.value.1 == arg;
      }
    }
  }

  /** One more token keeps the package list successful exactly when the
      token is well formed. */
  lemma PackagesStep(args: seq<string>)
    requires args != []
    ensures ParsePackages(args).Ok? <==>
              ParsePackages(args[..|args| - 1]).Ok? && WellFormed(args[|args| - 1])
  {
    ClassifyToken(args[|args| - 1]);
  }

  /** A token `<name>:<vers>` followed by any number of commas is read back
      as that package, whenever the name has no ':' and the version does not
      end in a comma. */
  lemma ClassifyPackageToken(p: Package, commas: nat)
    requires ':' !in p.name
    requires p.vers == [] || p.vers[|p.vers| - 1] != ','
    ensures Classify(p.name + ":" + p.vers + Commas(commas)) == Named(p)
  {
    var u := p.name + ":" + p.vers;
    assert u + Commas(commas) == p.name + ":" + p.vers + Commas(commas);
    assert u[|u| - 1] != ',';
    TrimAppendedCommas(u, commas);
    assert u[|p.name|] == ':';
    SplitOnceOf(p.name, p.vers, ':');
    assert p.name + [':'] + p.vers == u;
  }

  /** The package list succeeds exactly when every token is well formed. */
  lemma {:induction false} PackagesOkWhenWellFormed(args: seq<string>)
    ensures ParsePackages(args).Ok? <==> forall i :: 0 <= i < |args| ==> WellFormed(args[i])
    decreases |args|
  {
    if args != [] {
      var init, last := args[..|args| - 1], args[|args| - 1];
      PackagesOkWhenWellFormed(init);
      PackagesStep(args);
      assert args == init + [last];
      assert (forall i :: 0 <= i < |args| ==> WellFormed(args[i])) <==>
             (forall i :: 0 <= i < |init| ==> WellFormed(init[i])) && WellFormed(last);
    }
  }

  /** On success there is one package per package token, in order, split
      at the token's first ':'. */
  lemma {:induction false} PackagesMatchTokens(args: seq<string>)
    requires ParsePackages(args).Ok?
    ensures var ps := ParsePackages(args).value;
              |ps| == |PackageTexts(args)| &&
              forall j :: 0 <= j < |ps| ==>
                ps[j].name + ":" + ps[j].vers == PackageTexts(args)[j] && ':' !in ps[j].name
    decreases |args|
  {
    if args != [] {
      var init := args[..|args| - 1];
      PackagesMatchTokens(init);
      ClassifyToken(args[|args| - 1]);
    }
  }

  /** On failure the error names the first malformed token, with its
      trailing commas removed. */
  lemma {:induction false} PackagesFirstMalformed(args: seq<string>)
    requires ParsePackages(args).Err?
    ensures exists k :: 0 <= k < |args| && !WellFormed(args[k]) &&
              (forall i :: 0 <= i < k ==> WellFormed(args[i])) &&
              ParsePackages(args).error == MissingSeparator(TrimEndCommas(args[k]))
    decreases |args|
  {
    var init := args[..|args| - 1];
    assert forall i :: 0 <= i < |init| ==> init[i] == args[i];
    if ParsePackages(init).Err? {
      PackagesFirstMalformed(init);
      var k :| 0 <= k < |init| && !WellFormed(init[k]) &&
        (forall i :: 0 <= i < k ==> WellFormed(init[i])) &&
        ParsePackages(init).error == MissingSeparator(TrimEndCommas(init[k]));
      assert !WellFormed(args[k]);
    } else {
      PackagesOkWhenWellFormed(init);
      ClassifyToken(args[|args| - 1]);
    }
  }

  /** `parse_args` fails whenever fewer than two tokens are given; on
      success the last token is '#' followed by the decimal PR number, and
      there is at most one package per earlier token. */
  lemma ParseArgsShape(tokens: seq<string>)
    ensures |tokens| < 2 ==> ParseArgsSpec(tokens) == Err(TooFewArguments)
    ensures ParseArgsSpec(tokens).Ok? ==>
              |tokens| >= 2 &&
              var last := tokens[|tokens| - 1];
              |last| > 0 && last[0] == '#' &&
              ParseU32(last[1..]) == Some(ParseArgsSpec(tokens).value.prNr) &&
              |ParseArgsSpec(tokens).value.packages| <= |tokens| - 1
  {
    if |tokens| >= 2 && ParseArgsSpec(tokens).Ok? {
      var rest := tokens[..|tokens| - 1];
      PackagesMatchTokens(rest);
    }
  }

  /** Only the last token decides the PR number: two successful parses that
      end in the same token agree on it, and a bad last token fails the
      same way whatever precedes it. */
  lemma PrNumberFromLastToken(t1: seq<string>, t2: seq<string>)
    requires |t1| >= 2 && |t2| >= 2 && t1[|t1| - 1] == t2[|t2| - 1]
    ensures ParseArgsSpec(t1).Ok? && ParseArgsSpec(t2).Ok? ==>
              ParseArgsSpec(t1).value.prNr == ParseArgsSpec(t2).value.prNr
    ensures var last := t1[|t1| - 1];
              !(|last| > 0 && last[0] == '#') || ParseU32(last[1..]).None? ==>
                ParseArgsSpec(t1) == ParseArgsSpec(t2)
  {
  }

  /** The token a reviewer writes for one package. */
  function PackageToken(p: Package): string { p.name + ":" + p.vers }

  /** A package that can be written as a token and read back. */
  predicate Writable(p: Package) { ':' !in p.name && (p.vers == [] || p.vers[|p.vers| - 1] != ',') }

  function PackageTokens(ps: seq<Package>): (r: seq<string>)
    ensures |r| == |ps| && forall i :: 0 <= i < |ps| ==> r[i] == PackageToken(ps[i])
  {
    seq(|ps|, i requires 0 <= i < |ps| => PackageToken(ps[i]))
  }

  /** The command-line tail of a review session: one token per package,
      then '#' and the PR number. */
  function SessionTokens(a: Args): seq<string>
  {
    PackageTokens(a.packages) + ["#" + Decimal(a.prNr)]
  }

  lemma {:induction false} PackageTokensRoundTrip(ps: seq<Package>)
    requires forall i :: 0 <= i < |ps| ==> Writable(ps[i])
    ensures ParsePackages(PackageTokens(ps)) == Ok(ps)
    decreases |ps|
  {
    if ps != [] {
      var init, last := ps[..|ps| - 1], ps[|ps| - 1];
      assert init + [last] == ps;
      PackageTokensRoundTrip(init);
      PackageTokensSnoc(init, last);
    }
  }

  /** One more writable package written after packages that read back. */
  lemma PackageTokensSnoc(init: seq<Package>, last: Package)
    requires ParsePackages(PackageTokens(init)) == Ok(init) && Writable(last)
    ensures ParsePackages(PackageTokens(init + [last])) == Ok(init + [last])
  {
    var tokens := PackageTokens(init + [last]);
    var n := |init|;
    assert tokens[..n] == PackageTokens(init);
    PackagesSnoc(tokens, n, init);
    ClassifyPackageToken(last, 0);
    assert Commas(0) == [];
    assert tokens[n] == last.name + ":" + last.vers + Commas(0);
    assert tokens[..n + 1] == tokens;
  }

  /** Argument parsing round trip: the tail written for a session with at
      least one package parses back to that session. */
  lemma ParseSessionTokens(a: Args)
    requires |a.packages| > 0
    requires forall i :: 0 <= i < |a.packages| ==> Writable(a.packages[i])
    ensures ParseArgsSpec(SessionTokens(a)) == Ok(a)
  {
    var tokens := SessionTokens(a);
    assert tokens[..|tokens| - 1] == PackageTokens(a.packages);
    PackageTokensRoundTrip(a.packages);
    assert tokens[|tokens| - 1][1..] == Decimal(a.prNr);
    ParseDecimal(a.prNr);
  }

  /** A tail that names no package parses to an empty package list. */
  lemma ParseNoPackage()
    ensures ParseArgsSpec(["and", "#5"]) == Ok(Args([], 5))
    ensures ParseArgsSpec(["foo:1.0.0", "42"]) == Err(MissingPrMarker("42"))
  {
    var tokens := ["and", "#5"];
    assert tokens[..1] == ["and"];
    assert tokens[1][1..] == "5";
    assert DigitsValue("5") == 5 by {
      assert "5"[..0] == [];
    }
    assert TrimEndCommas("and") == "and";
    assert ParsePackages(["and"]) == Ok([]) by {
      assert ["and"][..0] == [];
    }
  }
}
