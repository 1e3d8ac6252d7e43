/**
 * Catalog reconciliation: every declared dependency of a package manifest
 * that the finalized catalog definition covers is rewritten to
 * `catalog:<category>`, and a manifest is re-serialized only when at least
 * one of its declarations actually changed.
 */
module Dependencies {
  import opened Wrappers
  import opened Objects
  import opened Constants
  import opened Types

  /** JavaScript truthiness of a looked-up version: present and not the empty string. */
  predicate Truthy(v: Option<string>)
  {
    v.Some? && v.value != ""
  }

  /** `workspace.catalogs.dependencies[depName]` is truthy: the dependency is managed by the catalogs. */
  predicate IsHit(c: CatalogSet, dep: string)
  {
    Truthy(Get(c.dependencies, dep))
  }

  /** `categories.find(cat => cat.dependencies[dep])`, as an index: the first category
      giving `dep` a truthy version, or `|cats|` when there is none. */
  function FindCategory(cats: seq<Category>, dep: string): (r: nat)
    ensures r <= |cats|
    ensures r < |cats| ==> Truthy(Get(cats[r].dependencies, dep))
    ensures forall j :: 0 <= j < r ==> !Truthy(Get(cats[j].dependencies, dep))
  {
    if |cats| == 0 then 0
    else if Truthy(Get(cats[0].dependencies, dep)) then 0
    else 1 + FindCategory(cats[1..], dep)
  }

  /** The catalog a managed dependency is referred to: its first category, else the combined group name. */
  function CategoryName(c: CatalogSet, dep: string): string
  {
    match c.categories
    case None => c.name
    case Some(cats) =>
      var i := FindCategory(cats, dep);
      if i < |cats| then cats[i].name else c.name
  }

  function TargetVersion(c: CatalogSet, dep: string): string
  {
    CatalogPlaceholder + CategoryName(c, dep)
  }

  /** The reference a managed dependency gets: `catalog:` and the first category holding it,
      or `catalog:` and the group name when no category holds it or there are no categories. */
  lemma TargetVersionSpec(c: CatalogSet, dep: string)
    ensures c.categories.None? ==> TargetVersion(c, dep) == "catalog:" + c.name
    ensures c.categories.Some? ==>
      var cats := c.categories.value;
      || ((forall j :: 0 <= j < |cats| ==> !Truthy(Get(cats[j].dependencies, dep))) && TargetVersion(c, dep) == "catalog:" + c.name)
      || (exists i :: 0 <= i < |cats| && Truthy(Get(cats[i].dependencies, dep))
           && (forall j :: 0 <= j < i ==> !Truthy(Get(cats[j].dependencies, dep)))
           && TargetVersion(c, dep) == "catalog:" + cats[i].name)
  {
    if c.categories.Some? {
      var cats := c.categories.value;
      var i := FindCategory(cats, dep);
      if i < |cats| {
        assert TargetVersion(c, dep) == "catalog:" + cats[i].name;
      } else {
        assert TargetVersion(c, dep) == "catalog:" + c.name;
      }
    }
  }

  /** A declaration the rewrite changes: managed, and not already at its target. */
  predicate Stale(c: CatalogSet, e: (string, string))
  {
    IsHit(c, e.0) && e.1 != TargetVersion(c, e.0)
  }

  /** One declaration after reconciliation. */
  function Rewrite(c: CatalogSet, e: (string, string)): (string, string)
  {
    if IsHit(c, e.0) then (e.0, TargetVersion(c, e.0)) else e
  }

  /** A dependency block after reconciliation: every managed declaration is at its target. */
  function ReconcileBlock(c: CatalogSet, deps: Object<string>): Object<string>
  {
    seq(|deps|, i requires 0 <= i < |deps| => Rewrite(c, deps[i]))
  }

  predicate BlockStale(c: CatalogSet, deps: Object<string>)
  {
    exists i :: 0 <= i < |deps| && Stale(c, deps[i])
  }

  /** Parsed JSON objects never repeat a key. */
  predicate WellFormed(p: Package)
  {
    forall k :: k in p.blocks ==> UniqueKeys(p.blocks[k])
  }

  /** The parsed manifest after the rewrite: the three dependency kinds are reconciled,
      every other field, `peerDependencies` included, is left as it was. */
  function ReconcilePackage(c: CatalogSet, p: Package): Package
  {
    p.(blocks := map k | k in p.blocks :: if k in DependencyTypes then ReconcileBlock(c, p.blocks[k]) else p.blocks[k])
  }

  /** Whether the rewrite flags the manifest as updated. */
  predicate NeedsUpdate(c: CatalogSet, p: Package)
  {
    exists k :: k in DependencyTypes && k in p.blocks && BlockStale(c, p.blocks[k])
  }

  /**
   * `Object.keys(dependencies).forEach(...)` on one block: each managed
   * declaration that differs from its target is overwritten, and the flag
   * records whether any was.
   */
  method RewriteBlock(c: CatalogSet, deps: Object<string>) returns (r: Object<string>, updated: bool)
    requires UniqueKeys(deps)
    ensures r == ReconcileBlock(c, deps)
    ensures updated == BlockStale(c, deps)
  {
    r := deps;
    updated := false;
    var names := Keys(deps);
    for j := 0 to |names|
      invariant |r| == |deps|
      invariant forall i :: 0 <= i < j ==> r[i] == Rewrite(c, deps[i])
      invariant forall i :: j <= i < |deps| ==> r[i] == deps[i]
      invariant updated <==> exists i :: 0 <= i < j && Stale(c, deps[i])
    {
      var changed;
      r, changed := RewriteDependency(c, r, deps, j, names[j]);
      updated := updated || changed;
    }
  }

  /** The callback for one dependency name of a block being rewritten. */
  method RewriteDependency(c: CatalogSet, r: Object<string>, deps: Object<string>, ghost j: nat, depName: string)
    returns (r': Object<string>, changed: bool)
    requires UniqueKeys(deps) && |r| == |deps| && j < |r| && depName == deps[j].0 && r[j] == deps[j]
    requires forall i :: 0 <= i < |r| ==> r[i].0 == deps[i].0
    ensures r' == r[j := Rewrite(c, deps[j])]
    ensures changed == Stale(c, deps[j])
  {
    r', changed := r, false;
    if IsHit(c, depName) {
      var targetVersion := TargetVersion(c, depName);
      WriteAtKey(r, deps, j, targetVersion);
      if Get(r, depName) != Some(targetVersion) {
        r' := Put(r, depName, targetVersion);
        changed := true;
      } else {
        assert r[j] == Rewrite(c, deps[j]);
      }
    } else {
      assert r[j] == Rewrite(c, deps[j]);
    }
  }

  /** While a block is being rewritten its keys stay those of the original, so the
      dependency at index `j` is read and written at index `j`. */
  lemma WriteAtKey(r: Object<string>, deps: Object<string>, j: nat, v: string)
    requires UniqueKeys(deps) && |r| == |deps| && j < |r|
    requires forall i :: 0 <= i < |r| ==> r[i].0 == deps[i].0
    ensures Get(r, deps[j].0) == Some(r[j].1)
    ensures Put(r, deps[j].0, v) == r[j := (deps[j].0, v)]
  {
    GetAt(r, j);
    PutAt(r, j, v);
  }

  /**
   * One manifest: visit `dependencies`, `devDependencies` and
   * `optionalDependencies` in turn, rewrite each present block, and return
   * the re-rendered text only when something changed, otherwise the text
   * as read. `render` stands for `JSON.stringify(pkgData, null, 2)`.
   */
  method ResolvePackage(c: CatalogSet, m: Manifest, render: Package -> string) returns (res: Resolved)
    requires WellFormed(m.data)
    ensures res.path == m.filePath
    ensures res.isUpdate == NeedsUpdate(c, m.data)
    ensures res.isUpdate ==> res.context == render(ReconcilePackage(c, m.data)) + "\n"
    ensures !res.isUpdate ==> res.context == m.text
  {
    var pkgData := m.data;
    var isUpdated := false;
    for t := 0 to |DependencyTypes|
      invariant pkgData == m.data.(blocks := ReconcileKinds(c, m.data.blocks, DependencyTypes[..t]))
      invariant isUpdated == StaleIn(c, m.data.blocks, DependencyTypes[..t])
    {
      var depType := DependencyTypes[t];
      VisitKind(c, m.data.blocks, DependencyTypes[..t], depType);
      assert DependencyTypes[..t + 1] == DependencyTypes[..t] + [depType];
      if depType in pkgData.blocks {
        var rewritten, changed := RewriteBlock(c, pkgData.blocks[depType]);
        pkgData := pkgData.(blocks := pkgData.blocks[depType := rewritten]);
        isUpdated := isUpdated || changed;
      }
    }
    assert DependencyTypes[..|DependencyTypes|] == DependencyTypes;
    res := Resolved(m.filePath, if isUpdated then render(pkgData) + "\n" else m.text, isUpdated);
  }

  /** The blocks once the kinds in `kinds` have been visited. */
  ghost function ReconcileKinds(c: CatalogSet, blocks: map<string, Object<string>>, kinds: seq<string>): map<string, Object<string>>
  {
    map k | k in blocks :: if k in kinds then ReconcileBlock(c, blocks[k]) else blocks[k]
  }

  /** Whether any of the visited kinds held a declaration to rewrite. */
  ghost predicate StaleIn(c: CatalogSet, blocks: map<string, Object<string>>, kinds: seq<string>)
  {
    exists k :: k in kinds && k in blocks && BlockStale(c, blocks[k])
  }

  /** Visiting one more kind, not visited before, rewrites that block (when present) and nothing else. */
  lemma VisitKind(c: CatalogSet, blocks: map<string, Object<string>>, kinds: seq<string>, kind: string)
    requires kind !in kinds
    ensures kind in blocks ==> ReconcileKinds(c, blocks, kinds + [kind]) == ReconcileKinds(c, blocks, kinds)[kind := ReconcileBlock(c, blocks[kind])]
    ensures kind !in blocks ==> ReconcileKinds(c, blocks, kinds + [kind]) == ReconcileKinds(c, blocks, kinds)
    ensures StaleIn(c, blocks, kinds + [kind]) == (StaleIn(c, blocks, kinds) || (kind in blocks && BlockStale(c, blocks[kind])))
    ensures kind in blocks ==> ReconcileKinds(c, blocks, kinds)[kind] == blocks[kind]
  {
  }

  /** `resolvePackageDependencies`: one result per manifest, in the given order. */
  method ResolvePackageDependencies(c: CatalogSet, manifests: seq<Manifest>, render: Package -> string)
    returns (results: seq<Resolved>)
    requires forall i :: 0 <= i < |manifests| ==> WellFormed(manifests[i].data)
    ensures |results| == |manifests|
    ensures forall i :: 0 <= i < |manifests| ==>
      && results[i].path == manifests[i].filePath
      && results[i].isUpdate == NeedsUpdate(c, manifests[i].data)
      && (results[i].isUpdate ==> results[i].context == render(ReconcilePackage(c, manifests[i].data)) + "\n")
      && (!results[i].isUpdate ==> results[i].context == manifests[i].text)
  {
    results := [];
    for i := 0 to |manifests|
      invariant |results| == i
      invariant forall j :: 0 <= j < i ==>
        && results[j].path == manifests[j].filePath
        && results[j].isUpdate == NeedsUpdate(c, manifests[j].data)
        && (results[j].isUpdate ==> results[j].context == render(ReconcilePackage(c, manifests[j].data)) + "\n")
        && (!results[j].isUpdate ==> results[j].context == manifests[j].text)
    {
      var res := ResolvePackage(c, manifests[i], render);
      results := results + [res];
    }
  }

  /** In a reconciled block the keys are those of the input, every managed
      dependency reads as its target and every other one as declared. */
  lemma {:induction false} ReconcileBlockSpec(c: CatalogSet, deps: Object<string>)
    ensures Keys(ReconcileBlock(c, deps)) == Keys(deps)
    ensures forall k :: HasKey(deps, k) && IsHit(c, k) ==> Get(ReconcileBlock(c, deps), k) == Some(TargetVersion(c, k))
    ensures forall k :: !IsHit(c, k) ==> Get(ReconcileBlock(c, deps), k) == Get(deps, k)
  {
    var r := ReconcileBlock(c, deps);
    if |deps| > 0 {
      assert r[1..] == ReconcileBlock(c, deps[1..]);
      ReconcileBlockSpec(c, deps[1..]);
      forall k | k != deps[0].0 ensures HasKey(deps, k) <==> HasKey(deps[1..], k) {
        HasKeyTail(deps, k);
      }
    }
  }

  /** Reconciling twice is reconciling once, and a reconciled block has nothing left to update. */
  lemma ReconcileBlockIdempotent(c: CatalogSet, deps: Object<string>)
    ensures ReconcileBlock(c, ReconcileBlock(c, deps)) == ReconcileBlock(c, deps)
    ensures !BlockStale(c, ReconcileBlock(c, deps))
  {
  }

  /** A block is flagged exactly when the rewrite changes it. */
  lemma BlockStaleIffChanged(c: CatalogSet, deps: Object<string>)
    ensures BlockStale(c, deps) <==> ReconcileBlock(c, deps) != deps
  {
    if ReconcileBlock(c, deps) != deps {
      var i :| 0 <= i < |deps| && ReconcileBlock(c, deps)[i] != deps[i];
      assert Stale(c, deps[i]);
    }
  }

  /** The rewrite keeps the package name and the set of fields, rewrites only the
      three dependency kinds, and leaves every other block, `peerDependencies`
      included, as it was; within a rewritten block managed dependencies read as
      their target and the rest as declared. */
  lemma ReconcilePackageSpec(c: CatalogSet, p: Package)
    ensures ReconcilePackage(c, p).name == p.name
    ensures ReconcilePackage(c, p).blocks.Keys == p.blocks.Keys
    ensures forall k :: k in p.blocks && k !in DependencyTypes ==> ReconcilePackage(c, p).blocks[k] == p.blocks[k]
    ensures "peerDependencies" in p.blocks ==> ReconcilePackage(c, p).blocks["peerDependencies"] == p.blocks["peerDependencies"]
    ensures forall k, d :: k in p.blocks && k in DependencyTypes && HasKey(p.blocks[k], d) && IsHit(c, d) ==>
      Get(ReconcilePackage(c, p).blocks[k], d) == Some(TargetVersion(c, d))
    ensures forall k, d :: k in p.blocks && !IsHit(c, d) ==>
      Get(ReconcilePackage(c, p).blocks[k], d) == Get(p.blocks[k], d)
  {
    forall k | k in p.blocks {
      ReconcileBlockSpec(c, p.blocks[k]);
    }
  }

  /** Idempotence: a second run over the rewritten manifest changes nothing and flags nothing. */
  lemma ReconcileIdempotent(c: CatalogSet, p: Package)
    ensures ReconcilePackage(c, ReconcilePackage(c, p)) == ReconcilePackage(c, p)
    ensures !NeedsUpdate(c, ReconcilePackage(c, p))
  {
    var q := ReconcilePackage(c, p);
    forall k | k in p.blocks && k in DependencyTypes {
      ReconcileBlockIdempotent(c, p.blocks[k]);
    }
    assert ReconcilePackage(c, q).blocks == q.blocks;
  }

  /** `isUpdate` is set exactly when the rewritten manifest differs from the one read:
      an untouched manifest keeps its original text because nothing in it would change. */
  lemma NeedsUpdateIffChanged(c: CatalogSet, p: Package)
    ensures NeedsUpdate(c, p) <==> ReconcilePackage(c, p) != p
  {
    if NeedsUpdate(c, p) {
      var k :| k in DependencyTypes && k in p.blocks && BlockStale(c, p.blocks[k]);
      BlockStaleIffChanged(c, p.blocks[k]);
      assert ReconcilePackage(c, p).blocks[k] != p.blocks[k];
    } else {
      forall k | k in p.blocks && k in DependencyTypes ensures ReconcileBlock(c, p.blocks[k]) == p.blocks[k] {
        BlockStaleIffChanged(c, p.blocks[k]);
      }
      assert ReconcilePackage(c, p).blocks == p.blocks;
    }
  }

  /** A two-entry catalog named `dev` with no categories. */
  function DevCatalog(): CatalogSet
  {
    CatalogSet(["bumpp", "eslint"], "dev", [("bumpp", "^10.3.2"), ("eslint", "^9.39.2")], None)
  }

  /** A declaration written as the bare `catalog:` does not equal `catalog:dev`, so the
      manifest is rewritten and flagged: the comparison is against the full target. */
  lemma BarePlaceholderIsRewritten()
    ensures var p := Package("", map["devDependencies" := [("bumpp", "catalog:"), ("eslint", "catalog:")]]);
      && NeedsUpdate(DevCatalog(), p)
      && ReconcilePackage(DevCatalog(), p).blocks["devDependencies"] == [("bumpp", "catalog:dev"), ("eslint", "catalog:dev")]
  {
    var c, block := DevCatalog(), [("bumpp", "catalog:"), ("eslint", "catalog:")];
    var p := Package("", map["devDependencies" := block]);
    assert Stale(c, block[0]);
    assert "devDependencies" in DependencyTypes;
    assert ReconcilePackage(c, p).blocks["devDependencies"] == ReconcileBlock(c, block);
    assert CatalogPlaceholder + "dev" == "catalog:dev";
    assert Rewrite(c, block[0]) == ("bumpp", "catalog:dev");
    assert Rewrite(c, block[1]) == ("eslint", "catalog:dev");
  }

  /** A literal version of a managed dependency is replaced by `catalog:dev`. */
  lemma LiteralVersionIsRewritten()
    ensures var p := Package("", map["devDependencies" := [("bumpp", "^10.0.0")]]);
      && NeedsUpdate(DevCatalog(), p)
      && ReconcilePackage(DevCatalog(), p).blocks["devDependencies"] == [("bumpp", "catalog:dev")]
  {
    var c, block := DevCatalog(), [("bumpp", "^10.0.0")];
    var p := Package("", map["devDependencies" := block]);
    assert Stale(c, block[0]);
    assert "devDependencies" in DependencyTypes;
    assert ReconcilePackage(c, p).blocks["devDependencies"] == ReconcileBlock(c, block);
    assert CatalogPlaceholder + "dev" == "catalog:dev";
    assert Rewrite(c, block[0]) == ("bumpp", "catalog:dev");
  }

  /** With categories, a dependency goes to the category holding it and an uncategorized
      one falls back to the combined group name. */
  lemma CategoryOrGroupName()
    ensures var c := CatalogSet(["bumpp", "eslint"], "build, lint", [("bumpp", "^10.3.2"), ("eslint", "^9.39.2")],
                                Some([Category("build", ["bumpp"], [("bumpp", "^10.3.2")])]));
      && TargetVersion(c, "bumpp") == "catalog:build"
      && TargetVersion(c, "eslint") == "catalog:build, lint"
  {
  }
}
