/**
 * The branch lister: parsing the output of
 * `git for-each-ref --format=%(committerdate:relative)\t%(refname:short)`,
 * resolving the repository's default branch, and leaving it out.
 */
module Branches {

  import opened Wrappers
  import opened Text
  import opened Git

  /** One local branch as listed: its short name and its relative commit age. */
  datatype Branch = Branch(name: string, relativeDate: string)

  /**
   * The line `for-each-ref` prints for a branch: age, tab, name.  When the
   * age holds no tab, the first tab of the line is the one after the age.
   */
  function Format(b: Branch): (line: string)
    ensures |line| == |b.relativeDate| + 1 + |b.name|
    ensures '\t' !in b.relativeDate ==> Find(line, '\t') == |b.relativeDate|
  {
    var line := b.relativeDate + "\t" + b.name;
    if '\t' in b.relativeDate then line
    else
      assert line[|b.relativeDate|] == '\t' && line[..|b.relativeDate|] == b.relativeDate;
      FindAt(line, '\t', |b.relativeDate|);
      line
  }

  /** The closure of `filter_map`: split at the first tab, or drop the line. */
  function ParseLine(line: string): (r: Option<Branch>)
    ensures r.None? <==> '\t' !in line
    ensures r.Some? ==> Format(r.value) == line && '\t' !in r.value.relativeDate
  {
    match SplitOnce(line, '\t')
    case None => None
    case Some((date, name)) => Some(Branch(name, date))
  }

  /** A listed branch reads back as itself. */
  lemma ParseFormat(b: Branch)
    requires '\t' !in b.relativeDate
    ensures ParseLine(Format(b)) == Some(b)
  {
    var line := Format(b);
    assert line[|b.relativeDate|] == '\t' && line[..|b.relativeDate|] == b.relativeDate;
    FindAt(line, '\t', |b.relativeDate|);
    assert line[|b.relativeDate| + 1..] == b.name;
  }

  /** `lines().filter_map(..).collect()`, over the lines already split. */
  function ParseLines(ls: seq<string>): (r: seq<Branch>)
    ensures |r| <= |ls|
  {
    if ls == [] then []
    else
      match ParseLine(ls[0])
      case None => ParseLines(ls[1..])
      case Some(b) => [b] + ParseLines(ls[1..])
  }

  /** Parsing works line by line, so it keeps the order of the lines. */
  lemma {:induction false} ParseLinesAppend(a: seq<string>, b: seq<string>)
    ensures ParseLines(a + b) == ParseLines(a) + ParseLines(b)
  {
    if a != [] {
      assert (a + b)[0] == a[0];
      assert (a + b)[1..] == a[1..] + b;
      ParseLinesAppend(a[1..], b);
    } else {
      assert a + b == b;
    }
  }

  /** A single line yields exactly one record if it has a tab, none otherwise. */
  lemma ParseSingle(line: string)
    ensures '\t' in line ==> ParseLines([line]) == [ParseLine(line).value]
    ensures '\t' !in line ==> ParseLines([line]) == []
  {
    assert [line][1..] == [];
  }

  /** Every record comes from a line with a tab, and every such line gives one. */
  lemma {:induction false} ParseLinesMembers(ls: seq<string>)
    ensures forall b :: b in ParseLines(ls) <==> exists l :: l in ls && ParseLine(l) == Some(b)
  {
    if ls != [] {
      ParseLinesMembers(ls[1..]);
      forall b ensures b in ParseLines(ls) <==> exists l :: l in ls && ParseLine(l) == Some(b) {
        if ParseLine(ls[0]) == Some(b) {
          assert ls[0] in ls;
        }
        if exists l :: l in ls && ParseLine(l) == Some(b) {
          var l :| l in ls && ParseLine(l) == Some(b);
          if l != ls[0] {
            assert l in ls[1..];
          }
        }
        if b in ParseLines(ls[1..]) {
          var l :| l in ls[1..] && ParseLine(l) == Some(b);
          assert l in ls;
        }
      }
    }
  }

  /** No line is lost exactly when every line has a tab. */
  lemma {:induction false} ParseLinesCount(ls: seq<string>)
    ensures |ParseLines(ls)| == |ls| <==> forall l :: l in ls ==> '\t' in l
  {
    if ls != [] {
      ParseLinesCount(ls[1..]);
      assert forall l :: l in ls <==> l == ls[0] || l in ls[1..];
    }
  }

  /**
   * `local_branches`: a failed `for-each-ref` ends the program with its
   * standard error; otherwise every line of its standard output is parsed.
   */
  function LocalBranches(listing: ProcessOutput): (r: Result<seq<Branch>, string>)
    ensures r.Err? <==> !listing.success
    ensures r.Err? ==> r.error == listing.stderr
    ensures r.Ok? ==> |r.value| <= |Lines(listing.stdout)|
  {
    if !listing.success then Err(listing.stderr)
    else Ok(ParseLines(Lines(listing.stdout)))
  }

  /** A branch whose fields `for-each-ref` can print on one line and read back. */
  predicate Listable(b: Branch) {
    '\t' !in b.relativeDate && '\n' !in b.relativeDate && '\n' !in b.name && !EndsWithCr(b.name)
  }

  function FormatAll(bs: seq<Branch>): (ls: seq<string>)
    ensures |ls| == |bs|
    ensures forall k :: 0 <= k < |bs| ==> ls[k] == Format(bs[k])
  {
    if bs == [] then [] else [Format(bs[0])] + FormatAll(bs[1..])
  }

  /**
   * Whatever branches `for-each-ref` lists, one per line, are exactly the
   * branches `local_branches` returns, in the same order.
   */
  lemma {:induction false} LocalBranchesOfListing(bs: seq<Branch>, stderr: string)
    requires forall b :: b in bs ==> Listable(b)
    ensures LocalBranches(ProcessOutput(true, Terminated(FormatAll(bs)), stderr)) == Ok(bs)
  {
    var ls := FormatAll(bs);
    forall l | l in ls ensures '\n' !in l && !EndsWithCr(l) {
      var k :| 0 <= k < |ls| && ls[k] == l;
      var b := bs[k];
      assert b in bs;
      assert l == b.relativeDate + "\t" + b.name;
      assert forall j :: 0 <= j < |l| ==> l[j] == (if j < |b.relativeDate| then b.relativeDate[j] else if j == |b.relativeDate| then '\t' else b.name[j - |b.relativeDate| - 1]);
      if b.name != [] {
        assert l[|l| - 1] == b.name[|b.name| - 1];
      }
    }
    LinesOfTerminated(ls);
    ParseAll(bs);
  }

  lemma {:induction false} ParseAll(bs: seq<Branch>)
    requires forall b :: b in bs ==> '\t' !in b.relativeDate
    ensures ParseLines(FormatAll(bs)) == bs
  {
    if bs != [] {
      assert bs[0] in bs;
      ParseFormat(bs[0]);
      assert FormatAll(bs)[1..] == FormatAll(bs[1..]);
      assert forall b :: b in bs[1..] ==> b in bs;
      ParseAll(bs[1..]);
    }
  }

  /** The `filter` in `main`: drop every branch named like the default branch. */
  function WithoutDefault(bs: seq<Branch>, default: Option<string>): (r: seq<Branch>)
    ensures forall b :: b in r <==> b in bs && default != Some(b.name)
    ensures default.None? ==> r == bs
    ensures |r| <= |bs|
  {
    if bs == [] then []
    else if default == Some(bs[0].name) then WithoutDefault(bs[1..], default)
    else [bs[0]] + WithoutDefault(bs[1..], default)
  }

  /** The filter keeps the surviving branches in their original order. */
  lemma {:induction false} WithoutDefaultAppend(a: seq<Branch>, b: seq<Branch>, default: Option<string>)
    ensures WithoutDefault(a + b, default) == WithoutDefault(a, default) + WithoutDefault(b, default)
  {
    if a != [] {
      assert (a + b)[0] == a[0];
      assert (a + b)[1..] == a[1..] + b;
      WithoutDefaultAppend(a[1..], b, default);
    } else {
      assert a + b == b;
    }
  }

  /** Nothing changes when no branch carries the default name. */
  lemma {:induction false} WithoutDefaultAbsent(bs: seq<Branch>, default: Option<string>)
    requires forall b :: b in bs ==> default != Some(b.name)
    ensures WithoutDefault(bs, default) == bs
  {
    if bs != [] {
      assert bs[0] in bs;
      assert forall b :: b in bs[1..] ==> b in bs;
      WithoutDefaultAbsent(bs[1..], default);
    }
  }

  const OriginPrefix := "refs/remotes/origin/"

  /** The ref that `git rev-parse --verify` is asked about for a branch name. */
  function HeadsRef(name: string): string {
    "refs/heads/" + name
  }

  /** How git answers `rev-parse --verify`; `None` when git cannot be started. */
  type Probe = string -> Option<ProcessOutput>

  predicate Verified(probe: Probe, name: string) {
    probe(HeadsRef(name)).Some? && probe(HeadsRef(name)).value.success
  }

  predicate Rejected(probe: Probe, name: string) {
    probe(HeadsRef(name)).Some? && !probe(HeadsRef(name)).value.success
  }

  /** Index of the first candidate git does not reject, or `|names|`. */
  function FirstUnrejected(names: seq<string>, probe: Probe): (k: nat)
    ensures k <= |names|
    ensures forall j :: 0 <= j < k ==> Rejected(probe, names[j])
    ensures k < |names| ==> !Rejected(probe, names[k])
  {
    if names == [] || !Rejected(probe, names[0]) then 0
    else 1 + FirstUnrejected(names[1..], probe)
  }

  /**
   * The `for name in ["main", "master"]` fallback: the first candidate that
   * verifies; a candidate whose check cannot even be started ends the search
   * with `None` (the `?` on `.ok()`).  So the answer is the first candidate
   * git does not reject, if git accepts it.
   */
  function FirstVerified(names: seq<string>, probe: Probe): (r: Option<string>)
    ensures var k := FirstUnrejected(names, probe);
            r == if k < |names| && Verified(probe, names[k]) then Some(names[k]) else None
  {
    if names == [] then None
    else
      match probe(HeadsRef(names[0]))
      case None => None
      case Some(out) =>
        if out.success then Some(names[0])
        else FirstVerified(names[1..], probe)
  }

  /**
   * `default_branch`: the branch `refs/remotes/origin/HEAD` points to, when
   * that symbolic ref resolves; otherwise the first of `main` and `master`
   * that exists locally.
   */
  function DefaultBranch(originHead: Option<ProcessOutput>, probe: Probe): (r: Option<string>)
    // git could not be started at all
    ensures originHead.None? ==> r.None?
    // origin/HEAD resolved: the name after the prefix, if the prefix is there
    ensures originHead.Some? && originHead.value.success ==>
      (r.Some? <==> OriginPrefix <= Trim(originHead.value.stdout))
      && (r.Some? ==> OriginPrefix + r.value == Trim(originHead.value.stdout))
    // no origin/HEAD: main if it verifies, else master if main is absent and master verifies
    ensures originHead.Some? && !originHead.value.success ==>
      (r == Some("main") <==> Verified(probe, "main"))
      && (r == Some("master") <==> Rejected(probe, "main") && Verified(probe, "master"))
      && (r.Some? ==> r == Some("main") || r == Some("master"))
  {
    match originHead
    case None => None
    case Some(out) =>
      if out.success then StripPrefix(Trim(out.stdout), OriginPrefix)
      else
        var r := FirstVerified(["main", "master"], probe);
        assert ["main", "master"][1..] == ["master"];
        r
  }
}
