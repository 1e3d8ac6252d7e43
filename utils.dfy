/**
 * Helpers around the dependency usage index: which packages consume which
 * dependency, how that list is shown next to a dependency, and the order
 * catalog entries are written in.
 */
module Utils {
  import opened Wrappers
  import opened Objects
  import opened Strings
  import opened Constants
  import opened Types

  // ---------------------------------------------------------------------------
  // scanDependencyUsage

  /** The name a package is recorded under: its `name` field when truthy, `root`
      for the top-level manifest, otherwise its path with `/package.json` removed. */
  function PackageLabel(pkgPath: string, p: Package): string
  {
    if p.name != "" then p.name
    else if pkgPath == "package.json" then "root"
    else ReplaceFirst(pkgPath, "/package.json", "")
  }

  /** A manifest below the root, whose path mentions `/package.json` only at its end,
      is labelled by its directory. */
  lemma PackageLabelOfDirectory(dir: string, p: Package)
    requires p.name == ""
    requires forall i :: 0 <= i < |dir| ==> !("/package.json" <= (dir + "/package.json")[i..])
    ensures PackageLabel(dir + "/package.json", p) == dir
  {
    assert |dir + "/package.json"| == |dir| + 13;
    ReplaceFirstSuffix(dir, "/package.json", "");
    assert dir + "" == dir;
  }

  /** A nameless manifest other than the root whose path never mentions
      `/package.json` keeps its path as the label: `replace` finds nothing to cut. */
  lemma PackageLabelUnmatched(pkgPath: string, p: Package)
    requires p.name == "" && pkgPath != "package.json"
    requires forall i :: 0 <= i <= |pkgPath| ==> !("/package.json" <= pkgPath[i..])
    ensures PackageLabel(pkgPath, p) == pkgPath
  {
    ReplaceFirstAbsent(pkgPath, "/package.json", "");
  }

  /** The (dependency, consumer) pairs one block contributes, in key order. */
  function BlockOccurrences(pkgName: string, names: seq<string>): (occ: seq<(string, string)>)
    ensures |occ| == |names|
    ensures forall i :: 0 <= i < |names| ==> occ[i] == (names[i], pkgName)
  {
    seq(|names|, i requires 0 <= i < |names| => (names[i], pkgName))
  }

  /** The pairs one package contributes over the block kinds `kinds`, visited in order. */
  function KindsOccurrences(pkgName: string, p: Package, kinds: seq<string>): seq<(string, string)>
  {
    if |kinds| == 0 then []
    else
      var kind := kinds[|kinds| - 1];
      KindsOccurrences(pkgName, p, kinds[..|kinds| - 1])
        + (if kind in p.blocks then BlockOccurrences(pkgName, Keys(p.blocks[kind])) else [])
  }

  /** Every (dependency, consumer) pair, in the order the scan meets them. */
  function Occurrences(pkgs: seq<(string, Package)>): seq<(string, string)>
  {
    if |pkgs| == 0 then []
    else
      var (path, p) := pkgs[|pkgs| - 1];
      Occurrences(pkgs[..|pkgs| - 1]) + KindsOccurrences(PackageLabel(path, p), p, DependencyTypes)
  }

  /** One `set`-if-missing and `push`. */
  function Record(usage: Object<seq<string>>, o: (string, string)): Object<seq<string>>
  {
    Put(usage, o.0, Get(usage, o.0).GetOr([]) + [o.1])
  }

  /** The usage index the scan builds from a list of pairs. */
  function Index(occ: seq<(string, string)>): Object<seq<string>>
  {
    if |occ| == 0 then [] else Record(Index(occ[..|occ| - 1]), occ[|occ| - 1])
  }

  /**
   * `scanDependencyUsage` over already-read manifests, given as (path relative
   * to the working directory, parsed manifest): for every package, every block
   * kind and every declared name, the package label is appended to the
   * name's list, creating the list on first sight.
   */
  method ScanDependencyUsage(pkgs: seq<(string, Package)>) returns (usageMap: Object<seq<string>>)
    ensures usageMap == Index(Occurrences(pkgs))
  {
    usageMap := [];
    for i := 0 to |pkgs|
      invariant usageMap == Index(Occurrences(pkgs[..i]))
    {
      var (pkgPath, pkgData) := pkgs[i];
      var pkgName := PackageLabel(pkgPath, pkgData);
      usageMap := ScanKinds(usageMap, Occurrences(pkgs[..i]), pkgName, pkgData, DependencyTypes);
      assert pkgs[..i + 1][..i] == pkgs[..i];
    }
    assert pkgs[..|pkgs|] == pkgs;
  }

  /** The loop over the dependency kinds of one package; a kind the package lacks is skipped. */
  method ScanKinds(usageMap: Object<seq<string>>, ghost scanned: seq<(string, string)>, pkgName: string, pkgData: Package,
                   kinds: seq<string>)
    returns (u: Object<seq<string>>)
    requires usageMap == Index(scanned)
    ensures u == Index(scanned + KindsOccurrences(pkgName, pkgData, kinds))
  {
    u := usageMap;
    assert scanned + KindsOccurrences(pkgName, pkgData, kinds[..0]) == scanned;
    for t := 0 to |kinds|
      invariant u == Index(scanned + KindsOccurrences(pkgName, pkgData, kinds[..t]))
    {
      var depType := kinds[t];
      ghost var done := scanned + KindsOccurrences(pkgName, pkgData, kinds[..t]);
      KindsNext(scanned, pkgName, pkgData, kinds, t);
      if depType in pkgData.blocks {
        u := ScanBlock(u, done, pkgName, Keys(pkgData.blocks[depType]));
      }
    }
    assert kinds[..|kinds|] == kinds;
  }

  /** The loop over the declared names of one block. */
  method ScanBlock(usageMap: Object<seq<string>>, ghost done: seq<(string, string)>, pkgName: string, names: seq<string>)
    returns (u: Object<seq<string>>)
    requires usageMap == Index(done)
    ensures u == Index(done + BlockOccurrences(pkgName, names))
  {
    u := usageMap;
    assert done + BlockOccurrences(pkgName, names[..0]) == done;
    for j := 0 to |names|
      invariant u == Index(done + BlockOccurrences(pkgName, names[..j]))
    {
      var depName := names[j];
      ghost var before := u;
      PushOnce(u, depName, pkgName);
      if Get(u, depName).None? {
        u := Put(u, depName, []);
      }
      u := Put(u, depName, Get(u, depName).value + [pkgName]);
      RecordNext(before, done, pkgName, names, j);
    }
    assert names[..|names|] == names;
  }

  /** Recording the next name of a block extends the scanned pairs by one. */
  lemma RecordNext(u: Object<seq<string>>, done: seq<(string, string)>, pkgName: string, names: seq<string>, j: nat)
    requires j < |names| && u == Index(done + BlockOccurrences(pkgName, names[..j]))
    ensures Record(u, (names[j], pkgName)) == Index(done + BlockOccurrences(pkgName, names[..j + 1]))
  {
    var next := done + BlockOccurrences(pkgName, names[..j + 1]);
    BlockOccurrencesSnoc(pkgName, names, j);
    assert next == (done + BlockOccurrences(pkgName, names[..j])) + [(names[j], pkgName)];
    assert next[..|next| - 1] == done + BlockOccurrences(pkgName, names[..j]);
  }

  lemma KindsNext(scanned: seq<(string, string)>, pkgName: string, p: Package, kinds: seq<string>, t: nat)
    requires t < |kinds|
    ensures kinds[t] in p.blocks ==>
      scanned + KindsOccurrences(pkgName, p, kinds[..t + 1])
        == (scanned + KindsOccurrences(pkgName, p, kinds[..t])) + BlockOccurrences(pkgName, Keys(p.blocks[kinds[t]]))
    ensures kinds[t] !in p.blocks ==>
      scanned + KindsOccurrences(pkgName, p, kinds[..t + 1]) == scanned + KindsOccurrences(pkgName, p, kinds[..t])
  {
    KindsSnoc(pkgName, p, kinds, t);
    if kinds[t] !in p.blocks {
      assert KindsOccurrences(pkgName, p, kinds[..t]) + [] == KindsOccurrences(pkgName, p, kinds[..t]);
    }
  }

  lemma KindsSnoc(pkgName: string, p: Package, kinds: seq<string>, t: nat)
    requires t < |kinds|
    ensures KindsOccurrences(pkgName, p, kinds[..t + 1]) == KindsOccurrences(pkgName, p, kinds[..t])
      + (if kinds[t] in p.blocks then BlockOccurrences(pkgName, Keys(p.blocks[kinds[t]])) else [])
  {
    assert kinds[..t + 1][..t] == kinds[..t];
  }

  lemma BlockOccurrencesSnoc(pkgName: string, names: seq<string>, j: nat)
    requires j < |names|
    ensures BlockOccurrences(pkgName, names[..j + 1]) == BlockOccurrences(pkgName, names[..j]) + [(names[j], pkgName)]
  {
  }

  /** Creating a missing list and pushing onto it is recording one pair. */
  lemma PushOnce(usage: Object<seq<string>>, dep: string, pkgName: string)
    ensures var u := if Get(usage, dep).None? then Put(usage, dep, []) else usage;
      && Get(u, dep).Some?
      && Put(u, dep, Get(u, dep).value + [pkgName]) == Record(usage, (dep, pkgName))
  {
    if Get(usage, dep).None? {
      var u := Put(usage, dep, []);
      assert u == usage + [(dep, [])];
      GetAppended(usage, dep, []);
      assert [] + [pkgName] == [pkgName];
      PutAppended(usage, dep, [], [pkgName]);
      assert Record(usage, (dep, pkgName)) == usage + [(dep, [pkgName])];
    }
  }

  lemma {:induction false} GetAppended<V>(o: Object<V>, k: string, v: V)
    requires !HasKey(o, k)
    ensures Get(o + [(k, v)], k) == Some(v)
  {
    if |o| > 0 {
      HasKeyTail(o, k);
      assert (o + [(k, v)])[1..] == o[1..] + [(k, v)];
      GetAppended(o[1..], k, v);
    }
  }

  lemma {:induction false} PutAppended<V>(o: Object<V>, k: string, v: V, w: V)
    requires !HasKey(o, k)
    ensures Put(o + [(k, v)], k, w) == o + [(k, w)]
  {
    if |o| > 0 {
      HasKeyTail(o, k);
      assert (o + [(k, v)])[1..] == o[1..] + [(k, v)];
      PutAppended(o[1..], k, v, w);
    }
  }

  /** The consumers recorded for `dep` in a list of pairs, in order. */
  function LabelsOf(occ: seq<(string, string)>, dep: string): seq<string>
  {
    if |occ| == 0 then []
    else LabelsOf(occ[..|occ| - 1], dep) + (if occ[|occ| - 1].0 == dep then [occ[|occ| - 1].1] else [])
  }

  /** The distinct dependency names of a list of pairs, in order of first appearance. */
  function FirstSeen(occ: seq<(string, string)>): seq<string>
  {
    if |occ| == 0 then []
    else
      var seen := FirstSeen(occ[..|occ| - 1]);
      if occ[|occ| - 1].0 in seen then seen else seen + [occ[|occ| - 1].0]
  }

  lemma HasKeyIsKey<V>(o: Object<V>, k: string)
    ensures HasKey(o, k) <==> k in Keys(o)
  {
    if k in Keys(o) {
      var i :| 0 <= i < |o| && Keys(o)[i] == k;
    }
  }

  /** A consumer list as the index holds it: no entry when there is no consumer. */
  function Listed(users: seq<string>): Option<seq<string>>
  {
    if users == [] then None else Some(users)
  }

  /** The usage index has one entry per distinct dependency, in first-seen order,
      and a dependency's list holds exactly its consumers, one per pair, in order. */
  lemma {:induction false} IndexSpec(occ: seq<(string, string)>)
    ensures UniqueKeys(Index(occ))
    ensures Keys(Index(occ)) == FirstSeen(occ)
    ensures forall d :: Get(Index(occ), d) == Listed(LabelsOf(occ, d))
  {
    if |occ| > 0 {
      var prefix := occ[..|occ| - 1];
      IndexSpec(prefix);
      IndexKeys(prefix, occ);
      forall d ensures Get(Index(occ), d) == Listed(LabelsOf(occ, d)) {
        IndexEntry(prefix, occ, d);
      }
    }
  }

  /** Recording the last pair keeps the keys distinct and in first-seen order. */
  lemma IndexKeys(prefix: seq<(string, string)>, occ: seq<(string, string)>)
    requires |occ| > 0 && prefix == occ[..|occ| - 1]
    requires UniqueKeys(Index(prefix)) && Keys(Index(prefix)) == FirstSeen(prefix)
    ensures UniqueKeys(Index(occ))
    ensures Keys(Index(occ)) == FirstSeen(occ)
  {
    var x := occ[|occ| - 1];
    var u := Index(prefix);
    var v := Get(u, x.0).GetOr([]) + [x.1];
    assert Index(occ) == Put(u, x.0, v);
    PutSpec(u, x.0, v);
    HasKeyIsKey(u, x.0);
  }

  /** Recording the last pair appends its consumer to its dependency's list and leaves the other lists alone. */
  lemma IndexEntry(prefix: seq<(string, string)>, occ: seq<(string, string)>, d: string)
    requires |occ| > 0 && prefix == occ[..|occ| - 1]
    requires UniqueKeys(Index(prefix))
    requires Get(Index(prefix), d) == Listed(LabelsOf(prefix, d))
    ensures Get(Index(occ), d) == Listed(LabelsOf(occ, d))
  {
    var x := occ[|occ| - 1];
    var u := Index(prefix);
    var v := Get(u, x.0).GetOr([]) + [x.1];
    assert Index(occ) == Put(u, x.0, v);
    PutSpec(u, x.0, v);
    var before := LabelsOf(prefix, d);
    if d == x.0 {
      assert LabelsOf(occ, d) == before + [x.1];
    } else {
      assert LabelsOf(occ, d) == before;
    }
  }

  /** The blocks of package `p` among `kinds` that declare `dep`, one pkgName per such block. */
  function KindsUsage(pkgName: string, p: Package, kinds: seq<string>, dep: string): seq<string>
  {
    if |kinds| == 0 then []
    else
      var kind := kinds[|kinds| - 1];
      KindsUsage(pkgName, p, kinds[..|kinds| - 1], dep)
        + (if kind in p.blocks && HasKey(p.blocks[kind], dep) then [pkgName] else [])
  }

  /** Reference definition of a dependency's consumer list: for each package in
      order, its label once for every examined block that declares the dependency. */
  function UsageList(pkgs: seq<(string, Package)>, dep: string): seq<string>
  {
    if |pkgs| == 0 then []
    else
      var (path, p) := pkgs[|pkgs| - 1];
      UsageList(pkgs[..|pkgs| - 1], dep) + KindsUsage(PackageLabel(path, p), p, DependencyTypes, dep)
  }

  lemma {:induction false} LabelsOfAppend(a: seq<(string, string)>, b: seq<(string, string)>, dep: string)
    ensures LabelsOf(a + b, dep) == LabelsOf(a, dep) + LabelsOf(b, dep)
    decreases |b|
  {
    if |b| == 0 {
      assert a + b == a;
    } else {
      assert (a + b)[..|a + b| - 1] == a + b[..|b| - 1];
      LabelsOfAppend(a, b[..|b| - 1], dep);
    }
  }

  lemma {:induction false} LabelsOfBlock(pkgName: string, names: seq<string>, dep: string)
    requires forall i, j :: 0 <= i < j < |names| ==> names[i] != names[j]
    ensures LabelsOf(BlockOccurrences(pkgName, names), dep) == if dep in names then [pkgName] else []
  {
    if |names| > 0 {
      var init := names[..|names| - 1];
      assert BlockOccurrences(pkgName, names)[..|names| - 1] == BlockOccurrences(pkgName, init);
      LabelsOfBlock(pkgName, init, dep);
      assert names == init + [names[|names| - 1]];
    }
  }

  lemma {:induction false} LabelsOfKinds(pkgName: string, p: Package, kinds: seq<string>, dep: string)
    requires forall k :: k in p.blocks ==> UniqueKeys(p.blocks[k])
    ensures LabelsOf(KindsOccurrences(pkgName, p, kinds), dep) == KindsUsage(pkgName, p, kinds, dep)
  {
    if |kinds| > 0 {
      var kind := kinds[|kinds| - 1];
      LabelsOfKinds(pkgName, p, kinds[..|kinds| - 1], dep);
      var extra := if kind in p.blocks then BlockOccurrences(pkgName, Keys(p.blocks[kind])) else [];
      LabelsOfAppend(KindsOccurrences(pkgName, p, kinds[..|kinds| - 1]), extra, dep);
      if kind in p.blocks {
        LabelsOfBlock(pkgName, Keys(p.blocks[kind]), dep);
        HasKeyIsKey(p.blocks[kind], dep);
      }
    }
  }

  /** The scan agrees with the reference definition: a dependency's entry is its
      consumer list, one pkgName per (package, block) that declares it, and it has
      an entry exactly when that list is non-empty. */
  lemma {:induction false} ScanUsage(pkgs: seq<(string, Package)>, dep: string)
    requires forall i :: 0 <= i < |pkgs| ==> forall k :: k in pkgs[i].1.blocks ==> UniqueKeys(pkgs[i].1.blocks[k])
    ensures Get(Index(Occurrences(pkgs)), dep) == Listed(UsageList(pkgs, dep))
  {
    UsageLabels(pkgs, dep);
    IndexSpec(Occurrences(pkgs));
  }

  lemma {:induction false} UsageLabels(pkgs: seq<(string, Package)>, dep: string)
    requires forall i :: 0 <= i < |pkgs| ==> forall k :: k in pkgs[i].1.blocks ==> UniqueKeys(pkgs[i].1.blocks[k])
    ensures LabelsOf(Occurrences(pkgs), dep) == UsageList(pkgs, dep)
  {
    if |pkgs| > 0 {
      var (path, p) := pkgs[|pkgs| - 1];
      UsageLabels(pkgs[..|pkgs| - 1], dep);
      LabelsOfAppend(Occurrences(pkgs[..|pkgs| - 1]), KindsOccurrences(PackageLabel(path, p), p, DependencyTypes), dep);
      LabelsOfKinds(PackageLabel(path, p), p, DependencyTypes, dep);
    }
  }

  /** The scan's keys are exactly the names declared in some examined block of some package. */
  lemma ScanKeys(pkgs: seq<(string, Package)>, dep: string)
    requires forall i :: 0 <= i < |pkgs| ==> forall k :: k in pkgs[i].1.blocks ==> UniqueKeys(pkgs[i].1.blocks[k])
    ensures HasKey(Index(Occurrences(pkgs)), dep) <==>
      exists i, k :: 0 <= i < |pkgs| && k in DependencyTypes && k in pkgs[i].1.blocks && HasKey(pkgs[i].1.blocks[k], dep)
  {
    ScanUsage(pkgs, dep);
    UsageListNonEmpty(pkgs, dep);
  }

  lemma {:induction false} UsageListNonEmpty(pkgs: seq<(string, Package)>, dep: string)
    ensures UsageList(pkgs, dep) != [] <==>
      exists i, k :: 0 <= i < |pkgs| && k in DependencyTypes && k in pkgs[i].1.blocks && HasKey(pkgs[i].1.blocks[k], dep)
  {
    if |pkgs| > 0 {
      var n := |pkgs| - 1;
      UsageListNonEmpty(pkgs[..n], dep);
      KindsUsageNonEmpty(PackageLabel(pkgs[n].0, pkgs[n].1), pkgs[n].1, DependencyTypes, dep);
      DeclaredSnoc(pkgs[..n], pkgs[n], dep);
      assert pkgs == pkgs[..n] + [pkgs[n]];
    }
  }

  /** Some package before the last declares `dep`, or the last one does. */
  lemma DeclaredSnoc(prefix: seq<(string, Package)>, last: (string, Package), dep: string)
    ensures (exists i, k :: 0 <= i < |prefix + [last]| && k in DependencyTypes && k in (prefix + [last])[i].1.blocks
                            && HasKey((prefix + [last])[i].1.blocks[k], dep))
        <==> || (exists i, k :: 0 <= i < |prefix| && k in DependencyTypes && k in prefix[i].1.blocks
                                && HasKey(prefix[i].1.blocks[k], dep))
             || (exists k :: k in DependencyTypes && k in last.1.blocks && HasKey(last.1.blocks[k], dep))
  {
    var pkgs := prefix + [last];
    assert pkgs[|prefix|] == last;
    forall i | 0 <= i < |prefix| ensures pkgs[i] == prefix[i] {
    }
  }

  lemma {:induction false} KindsUsageNonEmpty(pkgName: string, p: Package, kinds: seq<string>, dep: string)
    ensures KindsUsage(pkgName, p, kinds, dep) != [] <==> exists k :: k in kinds && k in p.blocks && HasKey(p.blocks[k], dep)
  {
    if |kinds| > 0 {
      KindsUsageNonEmpty(pkgName, p, kinds[..|kinds| - 1], dep);
      assert kinds == kinds[..|kinds| - 1] + [kinds[|kinds| - 1]];
    }
  }

  // ---------------------------------------------------------------------------
  // formatDependencyUsage

  /** The optional settings of `formatDependencyUsage`; `None` takes the default. */
  datatype FormatOptions = FormatOptions(
    unusedText: Option<string>,
    abbreviationTemplate: Option<(string, string) -> string>)

  function DefaultAbbreviation(firstFew: string, total: string): string
  {
    "use on " + firstFew + " and other " + total + " project packages"
  }

  /** The hint shown for a dependency, with colouring left out: the consumer list
      when it has one or two entries, the first two and the total from three on,
      and the "unused" text when there is no entry or it is empty. */
  function FormatDependencyUsage(usageMap: Object<seq<string>>, depName: string, options: FormatOptions): string
  {
    var unusedText := options.unusedText.GetOr("unUsed");
    var abbreviationTemplate := options.abbreviationTemplate.GetOr(DefaultAbbreviation);
    var users := Get(usageMap, depName).GetOr([]);
    if |users| == 0 then unusedText
    else if |users| < 3 then Join(users, ", ")
    else abbreviationTemplate(Join(users[..2], ", "), NatToString(|users|))
  }

  /** The hint for a dependency, stated over the packages scanned: unused when no
      examined block declares it, the consumer names for one or two declarations,
      and otherwise the first two names with the total count. */
  lemma FormatScanned(pkgs: seq<(string, Package)>, dep: string, options: FormatOptions)
    requires forall i :: 0 <= i < |pkgs| ==> forall k :: k in pkgs[i].1.blocks ==> UniqueKeys(pkgs[i].1.blocks[k])
    ensures var users := UsageList(pkgs, dep);
      var r := FormatDependencyUsage(Index(Occurrences(pkgs)), dep, options);
      && (|users| == 0 ==> r == options.unusedText.GetOr("unUsed"))
      && (1 <= |users| <= 2 ==> r == Join(users, ", "))
      && (|users| >= 3 ==>
            r == options.abbreviationTemplate.GetOr(DefaultAbbreviation)(Join(users[..2], ", "), NatToString(|users|)))
  {
    ScanUsage(pkgs, dep);
  }

  /** With default options a dependency without consumers is shown as `unUsed`. */
  lemma FormatDefaultUnused()
    ensures FormatDependencyUsage([], "vite", FormatOptions(None, None)) == "unUsed"
    ensures FormatDependencyUsage([("vite", [])], "vite", FormatOptions(None, None)) == "unUsed"
  {
  }

  /** Two consumers are listed in full. */
  lemma FormatDefaultTwo()
    ensures FormatDependencyUsage([("vite", ["web", "docs"])], "vite", FormatOptions(None, None)) == "web, docs"
  {
    JoinTwo("web", "docs", ", ");
  }

  /** Three consumers are abbreviated to the first two and the total. */
  lemma FormatDefaultThree(dep: string, x: string, y: string, z: string)
    ensures FormatDependencyUsage([(dep, [x, y, z])], dep, FormatOptions(None, None))
      == "use on " + x + ", " + y + " and other 3 project packages"
  {
    var users := [x, y, z];
    assert Get([(dep, users)], dep) == Some(users);
    assert users[..2] == [x, y];
    JoinTwo(x, y, ", ");
    NatToStringThree();
  }

  lemma NatToStringThree()
    ensures NatToString(3) == "3"
  {
  }

  // ---------------------------------------------------------------------------
  // packageSort

  /** The comparator: scoped (`@`-prefixed) names first, ascending within each group. */
  predicate Before(a: string, b: string)
  {
    if IsScoped(a) == IsScoped(b) then LexLess(a, b) else IsScoped(a)
  }

  /** `Before` is a strict total order on names. */
  lemma BeforeOrder(a: string, b: string, c: string)
    ensures !Before(a, a)
    ensures Before(a, b) ==> !Before(b, a)
    ensures a != b ==> Before(a, b) || Before(b, a)
    ensures Before(a, b) && Before(b, c) ==> Before(a, c)
  {
    LexLessIrreflexive(a);
    if Before(a, b) && IsScoped(a) == IsScoped(b) {
      LexLessAsymmetric(a, b);
    }
    if a != b && IsScoped(a) == IsScoped(b) {
      LexLessTotal(a, b);
    }
    if Before(a, b) && Before(b, c) && IsScoped(a) == IsScoped(b) == IsScoped(c) {
      LexLessTransitive(a, b, c);
    }
  }

  predicate SortedByKey(o: Object<string>)
  {
    forall i, j :: 0 <= i < j < |o| ==> Before(o[i].0, o[j].0)
  }

  function Insert(e: (string, string), o: Object<string>): (r: Object<string>)
    ensures multiset(r) == multiset(o) + multiset{e}
    ensures |r| == |o| + 1
  {
    if |o| == 0 then [e]
    else if Before(e.0, o[0].0) then [e] + o
    else
      assert o == [o[0]] + o[1..];
      [o[0]] + Insert(e, o[1..])
  }

  lemma {:induction false} InsertSorted(e: (string, string), o: Object<string>)
    requires SortedByKey(o) && !HasKey(o, e.0)
    ensures SortedByKey(Insert(e, o))
  {
    if |o| > 0 && !Before(e.0, o[0].0) {
      HasKeyTail(o, e.0);
      InsertSorted(e, o[1..]);
      var r := Insert(e, o);
      BeforeOrder(e.0, o[0].0, e.0);
      assert Before(o[0].0, e.0);
      forall j | 0 < j < |r| ensures Before(o[0].0, r[j].0) {
        var x := r[j];
        assert x in multiset(Insert(e, o[1..]));
        if x == e {
        } else {
          assert x in multiset(o[1..]);
          var i :| 0 <= i < |o[1..]| && o[1..][i] == x;
          assert o[i + 1] == x;
        }
      }
    } else if |o| > 0 {
      var r := Insert(e, o);
      forall i, j | 0 <= i < j < |r| ensures Before(r[i].0, r[j].0) {
        if i == 0 && j > 1 {
          BeforeOrder(e.0, o[0].0, o[j - 1].0);
        }
      }
    }
  }

  /** `packageSort`: the same pairs, scoped names first, each group in ascending order. */
  function PackageSort(packages: Object<string>): (r: Object<string>)
    ensures multiset(r) == multiset(packages)
    ensures |r| == |packages|
    ensures UniqueKeys(packages) ==> SortedByKey(r)
  {
    if |packages| == 0 then []
    else
      var rest := PackageSort(packages[1..]);
      assert packages == [packages[0]] + packages[1..];
      SortStep(packages, rest);
      Insert(packages[0], rest)
  }

  lemma SortStep(packages: Object<string>, rest: Object<string>)
    requires |packages| > 0 && multiset(rest) == multiset(packages[1..])
    requires UniqueKeys(packages[1..]) ==> SortedByKey(rest)
    ensures UniqueKeys(packages) ==> SortedByKey(Insert(packages[0], rest))
  {
    if UniqueKeys(packages) {
      NotInSorted(packages, rest);
      InsertSorted(packages[0], rest);
    }
  }

  lemma NotInSorted(packages: Object<string>, rest: Object<string>)
    requires |packages| > 0 && UniqueKeys(packages)
    requires multiset(rest) == multiset(packages[1..])
    ensures !HasKey(rest, packages[0].0)
  {
    forall i | 0 <= i < |rest| ensures rest[i].0 != packages[0].0 {
      assert rest[i] in multiset(packages[1..]);
      var j :| 0 <= j < |packages[1..]| && packages[1..][j] == rest[i];
      assert packages[j + 1] == rest[i];
    }
  }

  /** Two key-sorted objects holding the same pairs are the same object. */
  lemma {:induction false} SortedUnique(a: Object<string>, b: Object<string>)
    requires SortedByKey(a) && SortedByKey(b) && multiset(a) == multiset(b)
    ensures a == b
  {
    if |a| == 0 {
      assert |multiset(b)| == 0;
    } else {
      SortedHeads(a, b);
      TailMultiset(a, b);
      assert SortedByKey(a[1..]) && SortedByKey(b[1..]);
      SortedUnique(a[1..], b[1..]);
      assert a == [a[0]] + a[1..] && b == [b[0]] + b[1..];
    }
  }

  /** The least pair of a sorted object is its first. */
  lemma SortedHeads(a: Object<string>, b: Object<string>)
    requires SortedByKey(a) && SortedByKey(b) && multiset(a) == multiset(b) && |a| > 0
    ensures |b| == |a| && b[0] == a[0]
  {
    assert |b| == |multiset(b)| == |a|;
    assert a[0] in multiset(b);
    var j :| 0 <= j < |b| && b[j] == a[0];
    assert b[0] in multiset(a);
    var i :| 0 <= i < |a| && a[i] == b[0];
    BeforeOrder(a[0].0, b[0].0, a[0].0);
    BeforeOrder(b[0].0, a[0].0, b[0].0);
    assert j == 0;
  }

  lemma TailMultiset(a: Object<string>, b: Object<string>)
    requires |a| > 0 && |b| > 0 && a[0] == b[0] && multiset(a) == multiset(b)
    ensures multiset(a[1..]) == multiset(b[1..])
  {
    assert a == [a[0]] + a[1..] && b == [b[0]] + b[1..];
    assert multiset(a) == multiset{a[0]} + multiset(a[1..]);
    assert multiset(b) == multiset{a[0]} + multiset(b[1..]);
    assert multiset(a[1..]) == multiset(a) - multiset{a[0]};
    assert multiset(b[1..]) == multiset(b) - multiset{a[0]};
  }

  lemma SortedHasUniqueKeys(o: Object<string>)
    requires SortedByKey(o)
    ensures UniqueKeys(o)
  {
    forall i, j | 0 <= i < j < |o| ensures o[i].0 != o[j].0 {
      BeforeOrder(o[i].0, o[j].0, o[j].0);
    }
  }

  /** Sorting an already sorted object leaves it, key order included, unchanged;
      in particular sorting twice is sorting once. */
  lemma PackageSortIdempotent(o: Object<string>)
    requires UniqueKeys(o)
    ensures SortedByKey(o) ==> PackageSort(o) == o
    ensures PackageSort(PackageSort(o)) == PackageSort(o)
  {
    if SortedByKey(o) {
      SortedUnique(PackageSort(o), o);
    }
    var r := PackageSort(o);
    SortedHasUniqueKeys(r);
    SortedUnique(PackageSort(r), r);
  }

  /** The order of the input does not matter: any reordering of the pairs sorts alike. */
  lemma PackageSortPermutation(a: Object<string>, b: Object<string>)
    requires UniqueKeys(a) && UniqueKeys(b) && multiset(a) == multiset(b)
    ensures PackageSort(a) == PackageSort(b)
  {
    SortedUnique(PackageSort(a), PackageSort(b));
  }

  /** Sorting keeps every key with its value. */
  lemma PackageSortLookup(o: Object<string>, k: string)
    requires UniqueKeys(o)
    ensures UniqueKeys(PackageSort(o))
    ensures Get(PackageSort(o), k) == Get(o, k)
  {
    var r := PackageSort(o);
    SortedHasUniqueKeys(r);
    SameLookup(o, r, k);
  }

  /** Two objects holding the same pairs read alike. */
  lemma SameLookup(a: Object<string>, b: Object<string>, k: string)
    requires UniqueKeys(a) && UniqueKeys(b) && multiset(a) == multiset(b)
    ensures Get(a, k) == Get(b, k)
  {
    SameKeys(a, b, k);
    SameKeys(b, a, k);
    if HasKey(a, k) {
      var i :| 0 <= i < |a| && a[i].0 == k;
      assert a[i] in multiset(b);
      var j :| 0 <= j < |b| && b[j] == a[i];
      GetAt(a, i);
      GetAt(b, j);
    }
  }

  lemma SameKeys(a: Object<string>, b: Object<string>, k: string)
    requires multiset(a) == multiset(b)
    ensures HasKey(a, k) ==> HasKey(b, k)
  {
    if HasKey(a, k) {
      var i :| 0 <= i < |a| && a[i].0 == k;
      assert a[i] in multiset(b);
      var j :| 0 <= j < |b| && b[j] == a[i];
      assert b[j].0 == k;
    }
  }

  /** Three entries given in the order (last, first, middle) come out ascending. */
  lemma SortThree(r: (string, string), a: (string, string), l: (string, string))
    requires Before(a.0, l.0) && Before(l.0, r.0)
    ensures PackageSort([r, a, l]) == [a, l, r]
  {
    BeforeOrder(a.0, l.0, r.0);
    BeforeOrder(r.0, a.0, l.0);
    BeforeOrder(l.0, r.0, a.0);
    assert [r, a, l][1..] == [a, l] && [a, l][1..] == [l];
    assert PackageSort([l]) == [l];
    assert PackageSort([a, l]) == [a, l];
    assert Insert(r, [l]) == [l, r];
  }

  /** Sorting yields the one sorted arrangement of the same pairs. */
  lemma PackageSortIsSorted(o: Object<string>, s: Object<string>)
    requires UniqueKeys(o) && SortedByKey(s) && multiset(o) == multiset(s)
    ensures PackageSort(o) == s
  {
    SortedUnique(PackageSort(o), s);
  }

  lemma FourAscending(c: (string, string), t: (string, string), r: (string, string), z: (string, string))
    requires Before(c.0, t.0) && Before(t.0, r.0) && Before(r.0, z.0)
    ensures SortedByKey([c, t, r, z])
  {
    BeforeOrder(c.0, t.0, r.0);
    BeforeOrder(c.0, r.0, z.0);
    BeforeOrder(t.0, r.0, z.0);
  }

  lemma FourDistinct(z: (string, string), t: (string, string), r: (string, string), c: (string, string))
    requires Before(c.0, t.0) && Before(t.0, r.0) && Before(r.0, z.0)
    ensures UniqueKeys([z, t, r, c])
  {
    BeforeOrder(c.0, t.0, r.0);
    BeforeOrder(c.0, r.0, z.0);
    BeforeOrder(t.0, r.0, z.0);
    BeforeOrder(c.0, c.0, c.0);
    BeforeOrder(t.0, t.0, t.0);
    BeforeOrder(r.0, r.0, r.0);
  }

  /** Four entries given in the order (fourth, second, third, first) come out ascending. */
  lemma SortFour(z: (string, string), t: (string, string), r: (string, string), c: (string, string))
    requires Before(c.0, t.0) && Before(t.0, r.0) && Before(r.0, z.0)
    ensures PackageSort([z, t, r, c]) == [c, t, r, z]
  {
    FourAscending(c, t, r, z);
    FourDistinct(z, t, r, c);
    FourPermuted(z, t, r, c);
    PackageSortIsSorted([z, t, r, c], [c, t, r, z]);
  }

  lemma FourPermuted<T>(z: T, t: T, r: T, c: T)
    ensures multiset([z, t, r, c]) == multiset([c, t, r, z])
  {
    assert multiset([z, t, r, c]) == multiset{z, t, r, c};
    assert multiset([c, t, r, z]) == multiset{c, t, r, z};
  }

  /** The tool's own example of unscoped names. */
  lemma PackageSortUnscopedExample()
    ensures PackageSort([("react", "18.2.0"), ("axios", "1.3.0"), ("lodash", "4.17.21")])
      == [("axios", "1.3.0"), ("lodash", "4.17.21"), ("react", "18.2.0")]
  {
    assert Before("axios", "lodash") && Before("lodash", "react");
    SortThree(("react", "18.2.0"), ("axios", "1.3.0"), ("lodash", "4.17.21"));
  }

  /** The tool's own example with scoped names: they come first. */
  lemma PackageSortScopedExample()
    ensures PackageSort([("zod", "3.21.4"), ("@types/node", "18.15.0"), ("react", "18.2.0"), ("@clack/prompts", "0.6.0")])
      == [("@clack/prompts", "0.6.0"), ("@types/node", "18.15.0"), ("react", "18.2.0"), ("zod", "3.21.4")]
  {
    assert Before("@clack/prompts", "@types/node") && Before("@types/node", "react") && Before("react", "zod");
    SortFour(("zod", "3.21.4"), ("@types/node", "18.15.0"), ("react", "18.2.0"), ("@clack/prompts", "0.6.0"));
  }
}
