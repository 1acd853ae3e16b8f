/** Names derived from a review session: the git branch that holds the
    pull request (`Args::branch_name`) and the package spec given to
    `typst init` (`Package::spec`). */
module Naming {
  import opened Base
  import opened Text
  import opened Cli

  /** `{name}_{vers}`, one package's part of the branch name. */
  function Piece(p: Package): string { p.name + "_" + p.vers }

  function Pieces(ps: seq<Package>): (r: seq<string>)
    ensures |r| == |ps| && forall i :: 0 <= i < |ps| ==> r[i] == Piece(ps[i])
  {
    seq(|ps|, i requires 0 <= i < |ps| => Piece(ps[i]))
  }

  /** The branch name: the pieces joined by ',', then `_#` and the decimal
      PR number. */
  function BranchNameSpec(a: Args): string
  {
    Join(Pieces(a.packages), ',') + "_#" + Decimal(a.prNr)
  }

  /** `Args::branch_name`: appends to a buffer, a ',' before every piece but
      the first, then `_#<pr_nr>`. */
  method BranchName(a: Args) returns (buf: string)
    ensures buf == BranchNameSpec(a)
  {
    var packages := a.packages;
    buf := "";
    for i := 0 to |packages|
      invariant buf == Join(Pieces(packages[..i]), ',')
    {
      var p := packages[i];
      assert Pieces(packages[..i + 1]) == Pieces(packages[..i]) + [Piece(p)];
      if i > 0 {
        buf := buf + ",";
        JoinSnoc(Pieces(packages[..i]), Piece(p), ',');
      }
      buf := buf + p.name + "_" + p.vers;
    }
    assert packages[..|packages|] == packages;
    buf := buf + "_#" + Decimal(a.prNr);
  }

  /** The name always ends in `_#` and the PR number, and with no package it
      is nothing else. */
  lemma BranchNameSuffix(a: Args)
    ensures var name := BranchNameSpec(a);
            var suffix := "_#" + Decimal(a.prNr);
            |name| >= |suffix| && name[|name| - |suffix|..] == suffix
    ensures a.packages == [] ==> BranchNameSpec(a) == "_#" + Decimal(a.prNr)
  {
    assert Pieces([]) == [];
  }

  /** The PR number can be read back from the branch name, whatever the
      packages: two sessions for different pull requests never share a
      branch. */
  lemma BranchNamePrNumber(a1: Args, a2: Args)
    requires BranchNameSpec(a1) == BranchNameSpec(a2)
    ensures a1.prNr == a2.prNr
  {
    var j1, j2 := Join(Pieces(a1.packages), ','), Join(Pieces(a2.packages), ',');
    var d1, d2 := Decimal(a1.prNr), Decimal(a2.prNr);
    assert "_#" == "_" + ['#'];
    assert BranchNameSpec(a1) == (j1 + "_") + ['#'] + d1;
    assert BranchNameSpec(a2) == (j2 + "_") + ['#'] + d2;
    LastSeparator(j1 + "_", d1, j2 + "_", d2, '#');
    DecimalValue(a1.prNr);
    DecimalValue(a2.prNr);
  }

  /** A package whose name and version stay recognisable in the branch
      name: no '_' in the name and no ',' in either part. */
  predicate Distinguishable(p: Package) { '_' !in p.name && ',' !in p.name && ',' !in p.vers }

  lemma PieceInjective(p1: Package, p2: Package)
    requires Piece(p1) == Piece(p2)
    requires '_' !in p1.name && '_' !in p2.name
    ensures p1 == p2
  {
    FirstSeparator(p1.name, p1.vers, p2.name, p2.vers, '_');
  }

  /** Branch names tell sessions apart: two sessions with the same branch
      name have the same packages in the same order and the same PR number,
      as long as every name and version is distinguishable. */
  lemma BranchNameInjective(a1: Args, a2: Args)
    requires BranchNameSpec(a1) == BranchNameSpec(a2)
    requires forall i :: 0 <= i < |a1.packages| ==> Distinguishable(a1.packages[i])
    requires forall i :: 0 <= i < |a2.packages| ==> Distinguishable(a2.packages[i])
    ensures a1 == a2
  {
    BranchNamePrNumber(a1, a2);
    var x1, x2 := Pieces(a1.packages), Pieces(a2.packages);
    var j1, j2 := Join(x1, ','), Join(x2, ',');
    var d := Decimal(a1.prNr);
    assert "_#" == "_" + ['#'];
    assert BranchNameSpec(a1) == (j1 + "_") + ['#'] + d;
    assert BranchNameSpec(a2) == (j2 + "_") + ['#'] + d;
    LastSeparator(j1 + "_", d, j2 + "_", d, '#');
    assert j1 == (j1 + "_")[..|j1|] && j2 == (j2 + "_")[..|j2|];
    assert j1 == j2;
    forall i | 0 <= i < |x1| ensures ',' !in x1[i] && |x1[i]| > 0 {
      assert x1[i] == a1.packages[i].name + "_" + a1.packages[i].vers;
    }
    forall i | 0 <= i < |x2| ensures ',' !in x2[i] && |x2[i]| > 0 {
      assert x2[i] == a2.packages[i].name + "_" + a2.packages[i].vers;
    }
    if x1 == [] || x2 == [] {
      if x1 != [] {
        JoinStartsWithFirst(x1, ',');
      }
      if x2 != [] {
        JoinStartsWithFirst(x2, ',');
      }
      assert x1 == x2;
    } else {
      SplitJoin(x1, ',');
      SplitJoin(x2, ',');
    }
    assert |a1.packages| == |a2.packages|;
    forall i | 0 <= i < |a1.packages| ensures a1.packages[i] == a2.packages[i] {
      PieceInjective(a1.packages[i], a2.packages[i]);
    }
  }

  /** Without that condition two sessions can share a branch: a package
      named "a_b" at version "c" and one named "a" at version "b_c". */
  lemma BranchNameCollision()
    ensures BranchNameSpec(Args([Package("a_b", "c")], 1)) ==
            BranchNameSpec(Args([Package("a", "b_c")], 1))
  {
    var p1, p2 := Package("a_b", "c"), Package("a", "b_c");
    assert Piece(p1) == "a_b" + "_" + "c" == "a" + "_" + "b_c" == Piece(p2);
    assert Pieces([p1]) == [Piece(p1)] && Pieces([p2]) == [Piece(p2)];
  }

  /** `Package::spec`: the package's spec string, `@preview/<name>:<vers>`. */
  function Spec(p: Package): string
  {
    "@preview/" + p.name + ":" + p.vers
  }

  /** The spec string names the package: after the `@preview/` namespace it
      splits at its first ':' into the name and the version. */
  lemma SpecNamesPackage(p: Package)
    requires ':' !in p.name
    ensures |Spec(p)| > 9 && Spec(p)[..9] == "@preview/"
    ensures SplitOnce(Spec(p)[9..], ':') == Some((p.name, p.vers))
  {
    assert Spec(p)[9..] == p.name + [':'] + p.vers;
    SplitOnceOf(p.name, p.vers, ':');
  }

  /** For a package read from the command line, the spec string is the
      reviewer's own token with its trailing commas removed, prefixed with
      the namespace. */
  lemma SpecOfParsedPackage(tokens: seq<string>, j: nat)
    requires ParseArgsSpec(tokens).Ok?
    requires j < |ParseArgsSpec(tokens).value.packages|
    ensures j < |PackageTexts(tokens[..|tokens| - 1])|
    ensures Spec(ParseArgsSpec(tokens).value.packages[j]) ==
            "@preview/" + PackageTexts(tokens[..|tokens| - 1])[j]
  {
    PackagesMatchTokens(tokens[..|tokens| - 1]);
    var p := ParseArgsSpec(tokens).value.packages[j];
    assert Spec(p) == "@preview/" + (p.name + ":" + p.vers);
  }
}
