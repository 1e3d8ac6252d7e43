/**
 * The interactive classification of `pnpm-workspace.yaml`: dependencies are
 * moved round by round out of the flat `catalog` into named `catalogs`
 * entries, every confirmed round is recorded, and at the end the rounds are
 * combined into the catalog definition the reconciler consumes. Prompt
 * answers arrive as parameters.
 */
module WorkSpace {
  import opened Wrappers
  import opened Objects
  import opened Strings
  import opened Constants
  import opened Types
  import opened Utils
  import opened Dependencies

  /** The two parts of the workspace file the session touches: the flat
      `catalog` and the optional named `catalogs`. */
  datatype Workspace = Workspace(catalog: Object<string>, catalogs: Option<Object<Object<string>>>)

  /** Every named catalog holds distinct keys. */
  predicate EntriesUnique(cs: Object<Object<string>>)
  {
    forall i :: 0 <= i < |cs| ==> UniqueKeys(cs[i].1)
  }

  /** What a parsed YAML document guarantees: no key occurs twice in any of the objects. */
  predicate Valid(w: Workspace)
  {
    && UniqueKeys(w.catalog)
    && (w.catalogs.Some? ==> UniqueKeys(w.catalogs.value) && EntriesUnique(w.catalogs.value))
  }

  // ---------------------------------------------------------------------
  // updateCatalogsWithContext
  // ---------------------------------------------------------------------

  /** `catalog` after `delete catalog[key]` for each chosen key in turn. */
  function RemoveAll(catalog: Object<string>, choice: seq<string>): Object<string>
  {
    if |choice| == 0 then catalog
    else Delete(RemoveAll(catalog, choice[..|choice| - 1]), choice[|choice| - 1])
  }

  /** The named catalogs present before the update, or none. */
  function Existing(catalogs: Option<Object<Object<string>>>, name: string): Object<string>
  {
    match Get(catalogs.GetOr([]), name)
    case Some(prior) => prior
    case None => []
  }

  /** `catalogs` after the chosen dependencies are placed under `name`: merged
      into the existing entry (new versions win) or forming a new one, sorted
      either way; a missing `catalogs` starts out empty. */
  function Placed(catalogs: Option<Object<Object<string>>>, name: string, dependencies: Object<string>): Object<Object<string>>
  {
    var cs := catalogs.GetOr([]);
    match Get(cs, name)
    case Some(prior) => Put(cs, name, PackageSort(Assign(prior, dependencies)))
    case None => Put(cs, name, PackageSort(dependencies))
  }

  function Updated(w: Workspace, choice: seq<string>, name: string, dependencies: Object<string>): Workspace
  {
    Workspace(RemoveAll(w.catalog, choice), Some(Placed(w.catalogs, name, dependencies)))
  }

  /** Removing the chosen keys: exactly they disappear, every other key keeps its version. */
  lemma {:induction false} RemoveAllSpec(catalog: Object<string>, choice: seq<string>)
    requires UniqueKeys(catalog)
    ensures UniqueKeys(RemoveAll(catalog, choice))
    ensures forall k :: Get(RemoveAll(catalog, choice), k) == if k in choice then None else Get(catalog, k)
  {
    if |choice| > 0 {
      var prefix := choice[..|choice| - 1];
      var last := choice[|choice| - 1];
      RemoveAllSpec(catalog, prefix);
      DeleteSpec(RemoveAll(catalog, prefix), last);
      assert forall k :: k in choice <==> k in prefix || k == last by {
        assert choice == prefix + [last];
      }
    }
  }

  /** Removing at least one present key makes the catalog strictly smaller. */
  lemma {:induction false} RemoveAllShrinks(catalog: Object<string>, choice: seq<string>, j: nat)
    requires UniqueKeys(catalog) && j < |choice| && HasKey(catalog, choice[j])
    ensures |RemoveAll(catalog, choice)| < |catalog|
  {
    var prefix := choice[..|choice| - 1];
    var last := choice[|choice| - 1];
    var p := RemoveAll(catalog, prefix);
    RemoveAllNoLarger(catalog, prefix);
    if j < |choice| - 1 {
      assert prefix[j] == choice[j];
      RemoveAllShrinks(catalog, prefix, j);
    } else if !HasKey(p, last) {
      RemoveAllSpec(catalog, prefix);
      assert last in prefix by {
        assert Get(catalog, last).Some?;
      }
      var i :| 0 <= i < |prefix| && prefix[i] == last;
      RemoveAllShrinks(catalog, prefix, i);
    }
  }

  lemma {:induction false} RemoveAllNoLarger(catalog: Object<string>, choice: seq<string>)
    ensures |RemoveAll(catalog, choice)| <= |catalog|
  {
    if |choice| > 0 {
      RemoveAllNoLarger(catalog, choice[..|choice| - 1]);
    }
  }

  /** Placing dependencies under `name`: that entry becomes the sorted merge (new
      versions override, keys only in the old entry stay), every other named
      catalog is untouched, and no object gains a duplicate key. */
  lemma PlacedSpec(catalogs: Option<Object<Object<string>>>, name: string, dependencies: Object<string>)
    requires catalogs.Some? ==> UniqueKeys(catalogs.value) && EntriesUnique(catalogs.value)
    requires UniqueKeys(dependencies)
    ensures UniqueKeys(Placed(catalogs, name, dependencies)) && EntriesUnique(Placed(catalogs, name, dependencies))
    ensures Get(Placed(catalogs, name, dependencies), name).Some?
    ensures SortedByKey(Get(Placed(catalogs, name, dependencies), name).value)
    ensures forall k :: Get(Get(Placed(catalogs, name, dependencies), name).value, k)
                        == (if HasKey(dependencies, k) then Get(dependencies, k) else Get(Existing(catalogs, name), k))
    ensures forall n :: n != name ==> Get(Placed(catalogs, name, dependencies), n) == Get(catalogs.GetOr([]), n)
  {
    var cs := catalogs.GetOr([]);
    var prior := Existing(catalogs, name);
    var merged := if Get(cs, name).Some? then Assign(prior, dependencies) else dependencies;
    assert UniqueKeys(prior) by {
      if Get(cs, name).Some? {
        ExistingAt(cs, name);
      }
    }
    AssignSpec(prior, dependencies);
    forall k ensures Get(merged, k) == if HasKey(dependencies, k) then Get(dependencies, k) else Get(prior, k) {
    }
    var entry := PackageSort(merged);
    forall k ensures Get(entry, k) == Get(merged, k) {
      PackageSortLookup(merged, k);
    }
    SortedHasUniqueKeys(entry);
    assert Placed(catalogs, name, dependencies) == Put(cs, name, entry);
    PutSpec(cs, name, entry);
    PutEntriesUnique(cs, name, entry);
  }

  lemma ExistingAt(cs: Object<Object<string>>, name: string)
    requires EntriesUnique(cs) && Get(cs, name).Some?
    ensures UniqueKeys(Get(cs, name).value)
  {
    var i :| 0 <= i < |cs| && cs[i].0 == name;
    var i0 := FirstAt(cs, name, i);
    assert Get(cs, name).value == cs[i0].1;
  }

  /** The pair `Get` reads is the first one holding the key. */
  lemma {:induction false} FirstAt<V>(o: Object<V>, k: string, i: nat) returns (i0: nat)
    requires i < |o| && o[i].0 == k
    ensures i0 < |o| && o[i0].0 == k && Get(o, k) == Some(o[i0].1)
  {
    if o[0].0 == k {
      i0 := 0;
    } else {
      var j := FirstAt(o[1..], k, i - 1);
      i0 := j + 1;
    }
  }

  lemma {:induction false} PutEntriesUnique(cs: Object<Object<string>>, name: string, e: Object<string>)
    requires EntriesUnique(cs) && UniqueKeys(e)
    ensures EntriesUnique(Put(cs, name, e))
  {
    if |cs| > 0 && cs[0].0 != name {
      PutEntriesUnique(cs[1..], name, e);
      assert Put(cs, name, e) == [cs[0]] + Put(cs[1..], name, e);
    }
  }

  // ---------------------------------------------------------------------
  // One round of processCatalog
  // ---------------------------------------------------------------------

  /** The answers one round may ask for: the multiselect `choice`, the catalog
      name, whether to place the dependencies there, and whether to go on. */
  datatype Answer = Answer(choice: seq<string>, name: string, confirmed: bool, proceed: bool)

  /** The multiselect only offers the keys still in `catalog`. */
  predicate Offered(choice: seq<string>, catalog: Object<string>)
  {
    forall k :: k in choice ==> HasKey(catalog, k)
  }

  /** `dependencies[key] = catalog[key]` for each chosen key in turn. */
  function Pick(catalog: Object<string>, choice: seq<string>): Object<string>
    requires Offered(choice, catalog)
  {
    if |choice| == 0 then []
    else
      var last := choice[|choice| - 1];
      assert last in choice;
      Put(Pick(catalog, choice[..|choice| - 1]), last, Get(catalog, last).value)
  }

  /** The dependencies of a round hold exactly the chosen keys, each with its
      version in `catalog` as read before removal. */
  lemma {:induction false} PickSpec(catalog: Object<string>, choice: seq<string>)
    requires Offered(choice, catalog)
    ensures UniqueKeys(Pick(catalog, choice))
    ensures forall k :: HasKey(Pick(catalog, choice), k) <==> k in choice
    ensures forall k :: k in choice ==> Get(Pick(catalog, choice), k) == Get(catalog, k)
  {
    if |choice| > 0 {
      var prefix := choice[..|choice| - 1];
      PickSpec(catalog, prefix);
      PickStep(catalog, prefix, choice);
    }
  }

  /** Reading one more chosen key adds it with its catalog version. */
  lemma PickStep(catalog: Object<string>, prefix: seq<string>, choice: seq<string>)
    requires Offered(choice, catalog) && |choice| > 0 && prefix == choice[..|choice| - 1]
    requires UniqueKeys(Pick(catalog, prefix))
    requires forall k :: HasKey(Pick(catalog, prefix), k) <==> k in prefix
    requires forall k :: k in prefix ==> Get(Pick(catalog, prefix), k) == Get(catalog, k)
    ensures UniqueKeys(Pick(catalog, choice))
    ensures forall k :: HasKey(Pick(catalog, choice), k) <==> k in choice
    ensures forall k :: k in choice ==> Get(Pick(catalog, choice), k) == Get(catalog, k)
  {
    var last := choice[|choice| - 1];
    assert last in choice;
    var v := Get(catalog, last).value;
    var r := Pick(catalog, choice);
    assert r == Put(Pick(catalog, prefix), last, v);
    PutSpec(Pick(catalog, prefix), last, v);
    forall k ensures k in choice <==> k in prefix || k == last {
      assert choice == prefix + [last];
    }
    forall k ensures HasKey(r, k) <==> k in choice {
      if k != last {
        assert HasKey(r, k) <==> HasKey(Pick(catalog, prefix), k);
      }
    }
    forall k | k in choice ensures Get(r, k) == Get(catalog, k) {
      if k != last {
        assert k in prefix;
      }
    }
  }

  /** The round's name passes the `catalogsName && catalogsName.trim()` check. */
  predicate NamePasses(name: string)
  {
    name != "" && Trim(name) != ""
  }

  /** One round of the classification loop, on an explicit `allCatalogs`
      accumulator: an empty choice, a blank name or a declined confirmation
      leave everything as it was; otherwise the chosen pairs move into
      `catalogs[name]` and the round is recorded. */
  function Step(w: Workspace, allCatalogs: seq<Round>, a: Answer): (Workspace, seq<Round>)
    requires Offered(a.choice, w.catalog)
  {
    if |a.choice| == 0 || !NamePasses(a.name) || !a.confirmed then (w, allCatalogs)
    else
      var dependencies := Pick(w.catalog, a.choice);
      (Updated(w, a.choice, a.name, dependencies), allCatalogs + [Round(a.choice, a.name, dependencies)])
  }

  /** A round that is skipped (empty choice, blank name, declined) changes neither the workspace nor `allCatalogs`. */
  lemma StepSkipped(w: Workspace, allCatalogs: seq<Round>, a: Answer)
    requires Offered(a.choice, w.catalog)
    requires |a.choice| == 0 || Trim(a.name) == "" || !a.confirmed
    ensures Step(w, allCatalogs, a) == (w, allCatalogs)
  {
    TrimEmpty();
  }

  lemma TrimEmpty()
    ensures Trim("") == ""
  {
  }

  /** A confirmed round: every chosen key leaves `catalog` and reads in
      `catalogs[name]` with the version it had; every other key of `catalog`
      keeps its version; other named catalogs are untouched; `catalog`
      strictly shrinks; `allCatalogs` grows by exactly this round. */
  lemma StepConfirmed(w: Workspace, allCatalogs: seq<Round>, a: Answer)
    requires Valid(w) && Offered(a.choice, w.catalog)
    requires |a.choice| > 0 && Trim(a.name) != "" && a.confirmed
    ensures Valid(Step(w, allCatalogs, a).0)
    ensures |Step(w, allCatalogs, a).0.catalog| < |w.catalog|
    ensures forall k :: Get(Step(w, allCatalogs, a).0.catalog, k) == if k in a.choice then None else Get(w.catalog, k)
    ensures Step(w, allCatalogs, a).0.catalogs.Some?
    ensures Get(Step(w, allCatalogs, a).0.catalogs.value, a.name).Some?
    ensures forall k :: k in a.choice ==> Get(Get(Step(w, allCatalogs, a).0.catalogs.value, a.name).value, k) == Get(w.catalog, k)
    ensures forall n :: n != a.name ==> Get(Step(w, allCatalogs, a).0.catalogs.value, n) == Get(w.catalogs.GetOr([]), n)
    ensures Step(w, allCatalogs, a).1 == allCatalogs + [Round(a.choice, a.name, Pick(w.catalog, a.choice))]
  {
    assert a.name != "";
    var dependencies := Pick(w.catalog, a.choice);
    assert Step(w, allCatalogs, a) == (Updated(w, a.choice, a.name, dependencies), allCatalogs + [Round(a.choice, a.name, dependencies)]);
    PickSpec(w.catalog, a.choice);
    RemoveAllSpec(w.catalog, a.choice);
    assert a.choice[0] in a.choice;
    RemoveAllShrinks(w.catalog, a.choice, 0);
    PlacedSpec(w.catalogs, a.name, dependencies);
  }

  // ---------------------------------------------------------------------
  // The classification loop of processCatalog
  // ---------------------------------------------------------------------

  /** The rounds played on `answers`: the loop stops when `catalog` is empty,
      when the user declines to go on (asked only while `catalog` is not
      empty), or when no answers are left. */
  function Session(w: Workspace, allCatalogs: seq<Round>, answers: seq<Answer>): (Workspace, seq<Round>)
    requires Answerable(w, answers)
    decreases |answers|
  {
    if |w.catalog| == 0 || |answers| == 0 then (w, allCatalogs)
    else
      var next := Step(w, allCatalogs, answers[0]);
      if |next.0.catalog| > 0 && answers[0].proceed then Session(next.0, next.1, answers[1..]) else next
  }

  /** Every round the session reaches chooses among the keys still in `catalog`. */
  predicate Answerable(w: Workspace, answers: seq<Answer>)
    decreases |answers|
  {
    || |w.catalog| == 0
    || |answers| == 0
    || (&& Offered(answers[0].choice, w.catalog)
        && var w' := Step(w, [], answers[0]).0;
           (|w'.catalog| > 0 && answers[0].proceed ==> Answerable(w', answers[1..])))
  }

  predicate RoundsValid(all: seq<Round>)
  {
    forall i :: 0 <= i < |all| ==> UniqueKeys(all[i].dependencies)
  }

  /** No dependency is lost: each key of the original `catalog` still has its
      version there, or has left it and is read with that version from the
      recorded rounds (the latest round holding it). */
  ghost predicate Conserved(w0: Workspace, w: Workspace, all: seq<Round>)
  {
    forall k :: HasKey(w0.catalog, k) ==>
      || Get(w.catalog, k) == Get(w0.catalog, k)
      || (!HasKey(w.catalog, k) && Latest(all, k) == Get(w0.catalog, k))
  }

  lemma StepConserves(w0: Workspace, w: Workspace, all: seq<Round>, a: Answer)
    requires Valid(w) && Offered(a.choice, w.catalog) && Conserved(w0, w, all) && RoundsValid(all)
    ensures Valid(Step(w, all, a).0) && Conserved(w0, Step(w, all, a).0, Step(w, all, a).1)
    ensures RoundsValid(Step(w, all, a).1)
    ensures |Step(w, all, a).1| <= |all| + 1
    ensures |Step(w, all, a).1| == |all| + 1 ==> |Step(w, all, a).0.catalog| < |w.catalog|
    ensures |Step(w, all, a).1| == |all| ==> Step(w, all, a).0 == w
    ensures |Step(w, all, a).1| >= |all| && Step(w, all, a).1[..|all|] == all
    ensures forall i :: |all| <= i < |Step(w, all, a).1| ==> |Step(w, all, a).1[i].choice| > 0 && Trim(Step(w, all, a).1[i].name) != ""
  {
    if |a.choice| > 0 && NamePasses(a.name) && a.confirmed {
      StepConfirmed(w, all, a);
      var (w', all') := Step(w, all, a);
      var r := Round(a.choice, a.name, Pick(w.catalog, a.choice));
      PickSpec(w.catalog, a.choice);
      assert all'[..|all|] == all;
      forall k | HasKey(w0.catalog, k)
        ensures || Get(w'.catalog, k) == Get(w0.catalog, k)
                || (!HasKey(w'.catalog, k) && Latest(all', k) == Get(w0.catalog, k))
      {
        assert all'[..|all'| - 1] == all;
        if k in a.choice {
          assert Get(w.catalog, k) == Get(w0.catalog, k);
          assert Latest(all', k) == Get(r.dependencies, k);
        } else if !HasKey(w.catalog, k) {
          assert !HasKey(r.dependencies, k);
        }
      }
    } else {
      assert !NamePasses(a.name) ==> Trim(a.name) == "";
      StepSkipped(w, all, a);
    }
  }

  /** Over a whole session starting from the workspace as read and no rounds:
      every object keeps distinct keys, no dependency is lost, each recorded
      round has a non-empty choice and a non-blank name, and there are never
      more rounds than dependencies that left `catalog`. */
  lemma SessionSpec(w: Workspace, answers: seq<Answer>)
    requires Valid(w) && Answerable(w, answers)
    ensures Valid(Session(w, [], answers).0)
    ensures Conserved(w, Session(w, [], answers).0, Session(w, [], answers).1)
    ensures RoundsValid(Session(w, [], answers).1)
    ensures |Session(w, [], answers).1| <= |w.catalog| - |Session(w, [], answers).0.catalog|
    ensures forall i :: 0 <= i < |Session(w, [], answers).1| ==>
      |Session(w, [], answers).1[i].choice| > 0 && Trim(Session(w, [], answers).1[i].name) != ""
  {
    SessionInduction(w, w, [], answers);
  }

  lemma {:induction false} SessionInduction(w0: Workspace, w: Workspace, all: seq<Round>, answers: seq<Answer>)
    requires Valid(w) && Answerable(w, answers) && Conserved(w0, w, all) && RoundsValid(all)
    requires forall i :: 0 <= i < |all| ==> |all[i].choice| > 0 && Trim(all[i].name) != ""
    ensures var (w', all') := Session(w, all, answers);
      && Valid(w') && Conserved(w0, w', all') && RoundsValid(all')
      && |all| <= |all'| && |all'| - |all| <= |w.catalog| - |w'.catalog|
      && (forall i :: 0 <= i < |all'| ==> |all'[i].choice| > 0 && Trim(all'[i].name) != "")
    decreases |answers|
  {
    if |w.catalog| > 0 && |answers| > 0 {
      var a := answers[0];
      assert Step(w, all, a).0 == Step(w, [], a).0;
      StepConserves(w0, w, all, a);
      var (w1, all1) := Step(w, all, a);
      assert forall i :: 0 <= i < |all| ==> all1[i] == all[i] by {
        assert all1[..|all|] == all;
      }
      if |w1.catalog| > 0 && a.proceed {
        SessionInduction(w0, w1, all1, answers[1..]);
      }
    }
  }

  // ---------------------------------------------------------------------
  // The aggregation of confirmModify
  // ---------------------------------------------------------------------

  function Names(all: seq<Round>): (names: seq<string>)
    ensures |names| == |all| && forall i :: 0 <= i < |all| ==> names[i] == all[i].name
  {
    seq(|all|, i requires 0 <= i < |all| => all[i].name)
  }

  /** `allCatalogs.flatMap(c => c.choice)`. */
  function Choices(all: seq<Round>): seq<string>
  {
    if |all| == 0 then [] else Choices(all[..|all| - 1]) + all[|all| - 1].choice
  }

  /** `Object.assign(allDependencies, catalog.dependencies)` for each round in turn. */
  function MergeAll(all: seq<Round>): Object<string>
  {
    if |all| == 0 then [] else Assign(MergeAll(all[..|all| - 1]), all[|all| - 1].dependencies)
  }

  function Categories(all: seq<Round>): (cats: seq<Category>)
    ensures |cats| == |all|
    ensures forall i :: 0 <= i < |all| ==> cats[i] == Category(all[i].name, all[i].choice, all[i].dependencies)
  {
    seq(|all|, i requires 0 <= i < |all| => Category(all[i].name, all[i].choice, all[i].dependencies))
  }

  /** The combined catalog definition handed to the reconciler. */
  function Aggregate(all: seq<Round>): CatalogSet
  {
    CatalogSet(Choices(all), Join(Names(all), ", "), MergeAll(all), Some(Categories(all)))
  }

  /** Reference reading of a merged key: the version in the latest round holding it. */
  function Latest(all: seq<Round>, k: string): Option<string>
  {
    if |all| == 0 then None
    else if HasKey(all[|all| - 1].dependencies, k) then Get(all[|all| - 1].dependencies, k)
    else Latest(all[..|all| - 1], k)
  }

  /** The latest round holding a key: absent exactly when no round holds it,
      otherwise the version of some round that no later round overrides. */
  lemma LatestSpec(all: seq<Round>, k: string)
    ensures Latest(all, k).None? <==> forall i :: 0 <= i < |all| ==> !HasKey(all[i].dependencies, k)
    ensures Latest(all, k).Some? ==>
              exists i :: 0 <= i < |all| && Latest(all, k) == Get(all[i].dependencies, k)
                            && forall j :: i < j < |all| ==> !HasKey(all[j].dependencies, k)
  {
    LatestNone(all, k);
    if Latest(all, k).Some? {
      LatestFrom(all, k);
    }
  }

  lemma {:induction false} LatestNone(all: seq<Round>, k: string)
    ensures Latest(all, k).None? <==> forall i :: 0 <= i < |all| ==> !HasKey(all[i].dependencies, k)
  {
    if |all| > 0 {
      var n := |all| - 1;
      LatestNone(all[..n], k);
      assert forall i :: 0 <= i < n ==> all[..n][i] == all[i];
    }
  }

  lemma {:induction false} LatestFrom(all: seq<Round>, k: string)
    requires Latest(all, k).Some?
    ensures exists i :: 0 <= i < |all| && Latest(all, k) == Get(all[i].dependencies, k)
                          && forall j :: i < j < |all| ==> !HasKey(all[j].dependencies, k)
  {
    var n := |all| - 1;
    if HasKey(all[n].dependencies, k) {
      assert Latest(all, k) == Get(all[n].dependencies, k);
    } else {
      LatestFrom(all[..n], k);
      var i :| 0 <= i < n && Latest(all[..n], k) == Get(all[..n][i].dependencies, k)
        && forall j :: i < j < n ==> !HasKey(all[..n][j].dependencies, k);
      assert all[..n][i] == all[i];
      forall j | i < j < |all| ensures !HasKey(all[j].dependencies, k) {
        if j < n {
          assert all[..n][j] == all[j];
        }
      }
    }
  }

  /** The merged dependencies keep distinct keys and read each key as its latest round does. */
  lemma {:induction false} MergeLatest(all: seq<Round>)
    requires RoundsValid(all)
    ensures UniqueKeys(MergeAll(all))
    ensures forall k :: Get(MergeAll(all), k) == Latest(all, k)
  {
    if |all| > 0 {
      var n := |all| - 1;
      assert RoundsValid(all[..n]) by {
        assert forall i :: 0 <= i < n ==> all[..n][i] == all[i];
      }
      MergeLatest(all[..n]);
      AssignSpec(MergeAll(all[..n]), all[n].dependencies);
    }
  }

  /** Every chosen name of the combined record was chosen in some round, and conversely. */
  lemma {:induction false} ChoicesSpec(all: seq<Round>, k: string)
    ensures k in Choices(all) <==> exists i :: 0 <= i < |all| && k in all[i].choice
  {
    if |all| > 0 {
      var n := |all| - 1;
      ChoicesSpec(all[..n], k);
      assert forall i :: 0 <= i < n ==> all[..n][i] == all[i];
      if k in all[n].choice {
        assert k in Choices(all);
      }
    }
  }

  /** The combined record: names joined with ", " in round order, one category
      per round in order, the later round winning each merged key, and every
      merged key held by some category. */
  lemma AggregateSpec(all: seq<Round>)
    requires RoundsValid(all)
    ensures Aggregate(all).name == Join(Names(all), ", ")
    ensures Aggregate(all).categories.Some? && |Aggregate(all).categories.value| == |all|
    ensures forall i :: 0 <= i < |all| ==>
              Aggregate(all).categories.value[i] == Category(all[i].name, all[i].choice, all[i].dependencies)
    ensures UniqueKeys(Aggregate(all).dependencies)
    ensures forall k :: Get(Aggregate(all).dependencies, k) == Latest(all, k)
    ensures forall k :: HasKey(Aggregate(all).dependencies, k) ==>
      exists i :: 0 <= i < |all| && HasKey(Aggregate(all).categories.value[i].dependencies, k)
  {
    MergeLatest(all);
    forall k | HasKey(MergeAll(all), k)
      ensures exists i :: 0 <= i < |all| && HasKey(Categories(all)[i].dependencies, k)
    {
      LatestSpec(all, k);
      var i :| 0 <= i < |all| && Latest(all, k) == Get(all[i].dependencies, k)
        && forall j :: i < j < |all| ==> !HasKey(all[j].dependencies, k);
      assert Get(Categories(all)[i].dependencies, k).Some?;
    }
  }

  /** A dependency the combined record manages is referred to by the name of
      a round holding it, never by the combined group name as a fallback. */
  lemma HitHasCategory(all: seq<Round>, k: string)
    requires RoundsValid(all) && IsHit(Aggregate(all), k)
    ensures FindCategory(Categories(all), k) < |all|
    ensures exists i :: 0 <= i < |all| && CategoryName(Aggregate(all), k) == all[i].name
  {
    MergeLatest(all);
    LatestSpec(all, k);
    var i :| 0 <= i < |all| && Latest(all, k) == Get(all[i].dependencies, k)
      && forall j :: i < j < |all| ==> !HasKey(all[j].dependencies, k);
    assert Truthy(Get(Categories(all)[i].dependencies, k));
    var f := FindCategory(Categories(all), k);
    assert f < |all|;
    assert CategoryName(Aggregate(all), k) == all[f].name;
  }

  // ---------------------------------------------------------------------
  // The workspace document, updated in place
  // ---------------------------------------------------------------------

  /** The parsed `pnpm-workspace.yaml` the session mutates. */
  class WorkspaceContext {
    var catalog: Object<string>
    var catalogs: Option<Object<Object<string>>>

    constructor (w: Workspace)
      ensures Snapshot() == w
    {
      catalog := w.catalog;
      catalogs := w.catalogs;
    }

    function Snapshot(): Workspace
      reads this
    {
      Workspace(catalog, catalogs)
    }

    /** `updateCatalogsWithContext`: delete the chosen keys from `catalog`, make
        sure `catalogs` exists, then merge into or create `catalogs[catalogsName]`. */
    method UpdateCatalogsWithContext(choice: seq<string>, catalogsName: string, dependencies: Object<string>)
      modifies this
      ensures Snapshot() == Updated(old(Snapshot()), choice, catalogsName, dependencies)
    {
      for i := 0 to |choice|
        invariant catalog == RemoveAll(old(catalog), choice[..i])
        invariant catalogs == old(catalogs)
      {
        assert choice[..i + 1][..i] == choice[..i];
        catalog := Delete(catalog, choice[i]);
      }
      assert choice[..|choice|] == choice;
      if catalogs.None? {
        catalogs := Some([]);
      }
      var cs := catalogs.value;
      match Get(cs, catalogsName)
      case Some(prior) =>
        catalogs := Some(Put(cs, catalogsName, PackageSort(Assign(prior, dependencies))));
      case None =>
        catalogs := Some(Put(cs, catalogsName, PackageSort(dependencies)));
    }

    /** The round's `dependencies`: each chosen key with its version in `catalog`. */
    method CollectDependencies(choice: seq<string>) returns (dependencies: Object<string>)
      requires Offered(choice, catalog)
      ensures dependencies == Pick(catalog, choice)
    {
      dependencies := [];
      for i := 0 to |choice|
        invariant Offered(choice[..i], catalog)
        invariant dependencies == Pick(catalog, choice[..i])
      {
        assert choice[..i + 1][..i] == choice[..i];
        assert choice[i] in choice;
        dependencies := Put(dependencies, choice[i], Get(catalog, choice[i]).value);
      }
      assert choice[..|choice|] == choice;
    }

    /** The body of the classification loop, given the round's answers. */
    method ProcessRound(allCatalogs: seq<Round>, a: Answer) returns (all: seq<Round>)
      requires Offered(a.choice, catalog)
      modifies this
      ensures (Snapshot(), all) == Step(old(Snapshot()), allCatalogs, a)
    {
      all := allCatalogs;
      if |a.choice| == 0 {
        // nothing selected in this round
      } else if NamePasses(a.name) {
        var dependencies := CollectDependencies(a.choice);
        if a.confirmed {
          UpdateCatalogsWithContext(a.choice, a.name, dependencies);
          all := all + [Round(a.choice, a.name, dependencies)];
        }
      }
    }

    /** `processCatalog`: rounds until `catalog` is empty or the user stops. */
    method ProcessCatalog(allCatalogs: seq<Round>, answers: seq<Answer>) returns (all: seq<Round>)
      requires Answerable(Snapshot(), answers)
      modifies this
      ensures (Snapshot(), all) == Session(old(Snapshot()), allCatalogs, answers)
    {
      all := allCatalogs;
      var i := 0;
      var continueProcessing := true;
      while continueProcessing
        invariant 0 <= i <= |answers|
        invariant continueProcessing ==> Answerable(Snapshot(), answers[i..])
        invariant continueProcessing ==>
          Session(Snapshot(), all, answers[i..]) == Session(old(Snapshot()), allCatalogs, answers)
        invariant !continueProcessing ==> (Snapshot(), all) == Session(old(Snapshot()), allCatalogs, answers)
        decreases |answers| - i
      {
        if |catalog| == 0 || i == |answers| {
          break;
        }
        var a := answers[i];
        ghost var before := Snapshot();
        assert Step(before, all, a).0 == Step(before, [], a).0;
        assert answers[i..][1..] == answers[i + 1..];
        all := ProcessRound(all, a);
        i := i + 1;
        if |catalog| > 0 {
          continueProcessing := a.proceed;
        } else {
          continueProcessing := false;
        }
      }
    }
  }

  /** `confirmModify`: nothing to save without rounds or without the final
      confirmation; otherwise the workspace path, its rendered text and the
      combined catalog definition. */
  method ConfirmModify(allCatalogs: seq<Round>, finalConfirm: bool, path: string,
                       render: Workspace -> string, context: Workspace)
    returns (r: Option<WorkspaceUpdate>)
    ensures r.None? <==> |allCatalogs| == 0 || !finalConfirm
    ensures r.Some? ==> r.value == WorkspaceUpdate(path, render(context), Aggregate(allCatalogs))
  {
    if |allCatalogs| == 0 {
      return None;
    }
    if !finalConfirm {
      return None;
    }
    var allDependencies: Object<string> := [];
    var catalogNames: seq<string> := [];
    for i := 0 to |allCatalogs|
      invariant allDependencies == MergeAll(allCatalogs[..i])
      invariant catalogNames == Names(allCatalogs[..i])
    {
      assert allCatalogs[..i + 1][..i] == allCatalogs[..i];
      catalogNames := catalogNames + [allCatalogs[i].name];
      allDependencies := Assign(allDependencies, allCatalogs[i].dependencies);
    }
    assert allCatalogs[..|allCatalogs|] == allCatalogs;
    var catalogSet := CatalogSet(Choices(allCatalogs), Join(catalogNames, ", "), allDependencies,
                                 Some(Categories(allCatalogs)));
    return Some(WorkspaceUpdate(path, render(context), catalogSet));
  }

  // ---------------------------------------------------------------------
  // getCatalogName: the offered names and the custom-name check
  // ---------------------------------------------------------------------

  /** The value of the entry that asks for a custom name. */
  const CustomCatalogName: string := "__new__"
  const CustomCatalogLabel: string := "create a new catalog name?"
  const EmptyNameMessage: string := "catalog name cannot be empty."
  const DuplicateNameMessage: string := "this catalog name already exists, please select it from the list."

  /** One entry of the catalog-name select prompt: its shown label (`caption`), value and hint. */
  datatype NameOption = NameOption(caption: string, value: string, hint: Option<string>)

  /** `DEFAULT_CATALOGS.find(i => i.name.toLowerCase() === key.toLowerCase())?.descriptions`. */
  function DefaultHint(defaults: seq<DefaultCatalog>, key: string): (r: Option<string>)
    ensures r.None? <==> forall i :: 0 <= i < |defaults| ==> ToLower(defaults[i].name) != ToLower(key)
    ensures r.Some? ==> exists i :: 0 <= i < |defaults| && ToLower(defaults[i].name) == ToLower(key)
                          && r.value == defaults[i].descriptions
                          && forall j :: 0 <= j < i ==> ToLower(defaults[j].name) != ToLower(key)
  {
    if |defaults| == 0 then None
    else if ToLower(defaults[0].name) == ToLower(key) then Some(defaults[0].descriptions)
    else
      var r := DefaultHint(defaults[1..], key);
      assert r.Some? ==>
               exists i :: 0 <= i < |defaults[1..]| && ToLower(defaults[1..][i].name) == ToLower(key)
                             && r.value == defaults[1..][i].descriptions
                             && forall j :: 0 <= j < i ==> ToLower(defaults[1..][j].name) != ToLower(key);
      r
  }

  /** An existing catalog key, offered lower-cased with the built-in hint if it has one. */
  function ExistingOption(key: string): NameOption
  {
    NameOption(ToLower(key), ToLower(key), DefaultHint(DefaultCatalogs, key))
  }

  function DefaultOption(c: DefaultCatalog): NameOption
  {
    NameOption(c.name, c.name, Some(c.descriptions))
  }

  function Labels(options: seq<NameOption>): (labels: seq<string>)
    ensures |labels| == |options| && forall i :: 0 <= i < |options| ==> labels[i] == options[i].caption
  {
    seq(|options|, i requires 0 <= i < |options| => options[i].caption)
  }

  /** Each built-in catalog whose name is not yet a label is pushed, in order. */
  function WithDefaults(options: seq<NameOption>, defaults: seq<DefaultCatalog>): seq<NameOption>
  {
    if |defaults| == 0 then options
    else
      var prior := WithDefaults(options, defaults[..|defaults| - 1]);
      var c := defaults[|defaults| - 1];
      if c.name in Labels(prior) then prior else prior + [DefaultOption(c)]
  }

  /** The options of the select prompt: the existing catalogs, the built-in
      catalogs not already listed, and the custom-name entry. */
  function CatalogOptions(catalogs: Option<Object<Object<string>>>): seq<NameOption>
  {
    var keys := Keys(catalogs.GetOr([]));
    WithDefaults(seq(|keys|, i requires 0 <= i < |keys| => ExistingOption(keys[i])), DefaultCatalogs)
      + [NameOption(CustomCatalogLabel, CustomCatalogName, None)]
  }

  /** Pushing the built-in catalogs keeps the given options in front and adds at most one entry per built-in catalog. */
  lemma {:induction false} WithDefaultsPrefix(options: seq<NameOption>, defaults: seq<DefaultCatalog>)
    ensures |options| <= |WithDefaults(options, defaults)| <= |options| + |defaults|
    ensures WithDefaults(options, defaults)[..|options|] == options
  {
    if |defaults| > 0 {
      WithDefaultsPrefix(options, defaults[..|defaults| - 1]);
    }
  }

  /** Afterwards every built-in name is a label. */
  lemma {:induction false} WithDefaultsCovers(options: seq<NameOption>, defaults: seq<DefaultCatalog>)
    ensures forall c :: c in defaults ==> c.name in Labels(WithDefaults(options, defaults))
  {
    if |defaults| > 0 {
      var n := |defaults| - 1;
      var prior := WithDefaults(options, defaults[..n]);
      WithDefaultsCovers(options, defaults[..n]);
      assert defaults == defaults[..n] + [defaults[n]];
      var r := WithDefaults(options, defaults);
      forall c | c in defaults ensures c.name in Labels(r) {
        if c in defaults[..n] {
          var k :| 0 <= k < |prior| && Labels(prior)[k] == c.name;
          assert Labels(r)[k] == c.name;
        } else {
          assert c == defaults[n];
          if c.name !in Labels(prior) {
            assert Labels(r)[|prior|] == c.name;
          }
        }
      }
    }
  }

  /** `o` is the entry of a built-in catalog whose name is not in `taken`. */
  ghost predicate PushedDefault(o: NameOption, defaults: seq<DefaultCatalog>, taken: seq<string>)
  {
    exists c :: c in defaults && o == DefaultOption(c) && c.name !in taken
  }

  /** Only built-in catalogs are pushed, and only those whose name was not a label of the given options. */
  lemma {:induction false} WithDefaultsPushed(options: seq<NameOption>, defaults: seq<DefaultCatalog>)
    ensures forall i :: |options| <= i < |WithDefaults(options, defaults)| ==>
              PushedDefault(WithDefaults(options, defaults)[i], defaults, Labels(options))
  {
    if |defaults| > 0 {
      var n := |defaults| - 1;
      var prior := WithDefaults(options, defaults[..n]);
      var c := defaults[n];
      var r := WithDefaults(options, defaults);
      WithDefaultsPushed(options, defaults[..n]);
      WithDefaultsPrefix(options, defaults[..n]);
      forall i | |options| <= i < |r|
        ensures PushedDefault(r[i], defaults, Labels(options))
      {
        if i < |prior| {
          assert PushedDefault(prior[i], defaults[..n], Labels(options));
          var d :| d in defaults[..n] && prior[i] == DefaultOption(d) && d.name !in Labels(options);
          assert r[i] == prior[i];
          assert d in defaults;
        } else {
          assert c.name !in Labels(prior) && r[i] == DefaultOption(c);
          NotLabelOfPrefix(options, prior, c.name);
        }
      }
    }
  }

  lemma NotLabelOfPrefix(options: seq<NameOption>, prior: seq<NameOption>, name: string)
    requires |options| <= |prior| && prior[..|options|] == options && name !in Labels(prior)
    ensures name !in Labels(options)
  {
    forall k | 0 <= k < |options| ensures Labels(options)[k] != name {
      assert prior[..|options|][k] == options[k];
      assert Labels(prior)[k] == options[k].caption;
    }
  }

  function DefaultNames(defaults: seq<DefaultCatalog>): (names: seq<string>)
    ensures |names| == |defaults| && forall i :: 0 <= i < |defaults| ==> names[i] == defaults[i].name
  {
    seq(|defaults|, i requires 0 <= i < |defaults| => defaults[i].name)
  }

  /** The built-in catalogs missing from `taken`, in list order, each name once:
      the reference for what the forEach/push loop appends. */
  function MissingDefaults(defaults: seq<DefaultCatalog>, taken: seq<string>): seq<NameOption>
  {
    if |defaults| == 0 then []
    else
      var n := |defaults| - 1;
      var c := defaults[n];
      MissingDefaults(defaults[..n], taken)
        + (if c.name in taken || c.name in DefaultNames(defaults[..n]) then [] else [DefaultOption(c)])
  }

  lemma LabelsAppend(a: seq<NameOption>, b: seq<NameOption>)
    ensures Labels(a + b) == Labels(a) + Labels(b)
  {
  }

  /** A name is a label of the missing built-ins iff it is a built-in name not in `taken`. */
  lemma {:induction false} MissingLabels(defaults: seq<DefaultCatalog>, taken: seq<string>, name: string)
    ensures name in Labels(MissingDefaults(defaults, taken)) <==> name in DefaultNames(defaults) && name !in taken
  {
    if |defaults| > 0 {
      var n := |defaults| - 1;
      var c := defaults[n];
      var m := MissingDefaults(defaults[..n], taken);
      MissingLabels(defaults[..n], taken, name);
      assert DefaultNames(defaults) == DefaultNames(defaults[..n]) + [c.name];
      if c.name in taken || c.name in DefaultNames(defaults[..n]) {
        assert MissingDefaults(defaults, taken) == m;
      } else {
        assert MissingDefaults(defaults, taken) == m + [DefaultOption(c)];
        LabelsAppend(m, [DefaultOption(c)]);
        assert Labels([DefaultOption(c)]) == [c.name];
        assert Labels(MissingDefaults(defaults, taken)) == Labels(m) + [c.name];
      }
    }
  }

  /** The options after the pushes are exactly the given ones followed by the
      missing built-in catalogs, in the built-in list's order. */
  lemma {:induction false} WithDefaultsOrder(options: seq<NameOption>, defaults: seq<DefaultCatalog>)
    ensures WithDefaults(options, defaults) == options + MissingDefaults(defaults, Labels(options))
  {
    if |defaults| > 0 {
      var n := |defaults| - 1;
      var c := defaults[n];
      var m := MissingDefaults(defaults[..n], Labels(options));
      var prior := WithDefaults(options, defaults[..n]);
      WithDefaultsOrder(options, defaults[..n]);
      LabelsAppend(options, m);
      MissingLabels(defaults[..n], Labels(options), c.name);
      if c.name in Labels(prior) {
        assert c.name in Labels(options) || c.name in Labels(m);
        assert MissingDefaults(defaults, Labels(options)) == m;
      } else {
        assert MissingDefaults(defaults, Labels(options)) == m + [DefaultOption(c)];
        assert prior + [DefaultOption(c)] == options + (m + [DefaultOption(c)]);
      }
    }
  }

  /** A pushed entry's label occurs nowhere before it. */
  lemma {:induction false} WithDefaultsDistinct(options: seq<NameOption>, defaults: seq<DefaultCatalog>)
    ensures forall i, j :: 0 <= i < j < |WithDefaults(options, defaults)| && |options| <= j ==>
              WithDefaults(options, defaults)[i].caption != WithDefaults(options, defaults)[j].caption
  {
    if |defaults| > 0 {
      var n := |defaults| - 1;
      var prior := WithDefaults(options, defaults[..n]);
      WithDefaultsDistinct(options, defaults[..n]);
      var r := WithDefaults(options, defaults);
      forall i, j | 0 <= i < j < |r| && |options| <= j ensures r[i].caption != r[j].caption {
        if j == |prior| {
          assert Labels(prior)[i] == r[i].caption;
        }
      }
    }
  }

  /** The select prompt lists the existing catalogs first, lower-cased and in
      key order; then the built-in catalogs whose name no existing catalog
      lower-cases to; the custom-name entry last; and every built-in name is
      among the labels. */
  lemma CatalogOptionsSpec(catalogs: Option<Object<Object<string>>>)
    ensures |Keys(catalogs.GetOr([]))| + 1 <= |CatalogOptions(catalogs)| <= |Keys(catalogs.GetOr([]))| + |DefaultCatalogs| + 1
    ensures forall i :: 0 <= i < |Keys(catalogs.GetOr([]))| ==>
              CatalogOptions(catalogs)[i] == ExistingOption(Keys(catalogs.GetOr([]))[i])
    ensures CatalogOptions(catalogs)[|CatalogOptions(catalogs)| - 1] == NameOption(CustomCatalogLabel, CustomCatalogName, None)
    ensures forall c :: c in DefaultCatalogs ==> c.name in Labels(CatalogOptions(catalogs))
    ensures forall i :: |Keys(catalogs.GetOr([]))| <= i < |CatalogOptions(catalogs)| - 1 ==>
              PushedDefault(CatalogOptions(catalogs)[i], DefaultCatalogs, LowerKeys(Keys(catalogs.GetOr([]))))
    ensures CatalogOptions(catalogs)[|Keys(catalogs.GetOr([]))|..|CatalogOptions(catalogs)| - 1]
              == MissingDefaults(DefaultCatalogs, LowerKeys(Keys(catalogs.GetOr([]))))
  {
    var keys := Keys(catalogs.GetOr([]));
    var existing := seq(|keys|, i requires 0 <= i < |keys| => ExistingOption(keys[i]));
    assert CatalogOptions(catalogs) == WithDefaults(existing, DefaultCatalogs) + [NameOption(CustomCatalogLabel, CustomCatalogName, None)];
    OptionsShape(keys, existing, DefaultCatalogs);
    OptionsOrder(keys, existing, DefaultCatalogs);
  }

  lemma OptionsOrder(keys: seq<string>, existing: seq<NameOption>, defaults: seq<DefaultCatalog>)
    requires |existing| == |keys| && forall i :: 0 <= i < |keys| ==> existing[i] == ExistingOption(keys[i])
    ensures var r := WithDefaults(existing, defaults) + [NameOption(CustomCatalogLabel, CustomCatalogName, None)];
      |keys| + 1 <= |r| && r[|keys|..|r| - 1] == MissingDefaults(defaults, LowerKeys(keys))
  {
    WithDefaultsOrder(existing, defaults);
    assert Labels(existing) == LowerKeys(keys);
    var m := MissingDefaults(defaults, LowerKeys(keys));
    var r := existing + m + [NameOption(CustomCatalogLabel, CustomCatalogName, None)];
    assert r[|keys|..|r| - 1] == m;
  }

  lemma OptionsShape(keys: seq<string>, existing: seq<NameOption>, defaults: seq<DefaultCatalog>)
    requires |existing| == |keys| && forall i :: 0 <= i < |keys| ==> existing[i] == ExistingOption(keys[i])
    ensures var r := WithDefaults(existing, defaults) + [NameOption(CustomCatalogLabel, CustomCatalogName, None)];
      && |keys| + 1 <= |r| <= |keys| + |defaults| + 1
      && (forall i :: 0 <= i < |keys| ==> r[i] == ExistingOption(keys[i]))
      && r[|r| - 1] == NameOption(CustomCatalogLabel, CustomCatalogName, None)
      && (forall c :: c in defaults ==> c.name in Labels(r))
      && (forall i :: |keys| <= i < |r| - 1 ==> PushedDefault(r[i], defaults, LowerKeys(keys)))
  {
    var w := WithDefaults(existing, defaults);
    var r := w + [NameOption(CustomCatalogLabel, CustomCatalogName, None)];
    WithDefaultsPrefix(existing, defaults);
    WithDefaultsCovers(existing, defaults);
    assert r[..|w|] == w;
    ExistingFirst(existing, w, keys);
    assert r[..|existing|] == existing by {
      assert r[..|w|][..|existing|] == w[..|existing|];
    }
    OptionsCover(w, r, defaults);
    WithDefaultsPushed(existing, defaults);
    assert Labels(existing) == LowerKeys(keys);
    forall i | |keys| <= i < |r| - 1 ensures PushedDefault(r[i], defaults, LowerKeys(keys)) {
      assert r[i] == w[i];
    }
  }

  /** The labels of the existing catalogs: each key lower-cased. */
  function LowerKeys(keys: seq<string>): (r: seq<string>)
    ensures |r| == |keys| && forall i :: 0 <= i < |keys| ==> r[i] == ToLower(keys[i])
  {
    seq(|keys|, i requires 0 <= i < |keys| => ToLower(keys[i]))
  }

  lemma ExistingFirst(existing: seq<NameOption>, w: seq<NameOption>, keys: seq<string>)
    requires |existing| == |keys| && forall i :: 0 <= i < |keys| ==> existing[i] == ExistingOption(keys[i])
    requires |existing| <= |w| && w[..|existing|] == existing
    ensures forall i :: 0 <= i < |keys| ==> w[i] == ExistingOption(keys[i])
  {
    forall i | 0 <= i < |keys| ensures w[i] == ExistingOption(keys[i]) {
      assert w[..|existing|][i] == existing[i];
    }
  }

  lemma OptionsCover(w: seq<NameOption>, r: seq<NameOption>, defaults: seq<DefaultCatalog>)
    requires |w| <= |r| && r[..|w|] == w
    requires forall c :: c in defaults ==> c.name in Labels(w)
    ensures forall c :: c in defaults ==> c.name in Labels(r)
  {
    forall c | c in defaults ensures c.name in Labels(r) {
      var k :| 0 <= k < |w| && Labels(w)[k] == c.name;
      assert r[..|w|][k] == w[k];
      assert Labels(r)[k] == c.name;
    }
  }

  /** The option list as `getCatalogName` builds it: the existing keys mapped,
      the built-in catalogs pushed unless already a label, the custom entry last. */
  method BuildCatalogOptions(catalogs: Option<Object<Object<string>>>) returns (options: seq<NameOption>)
    ensures options == CatalogOptions(catalogs)
  {
    var existingCatalogs := Keys(catalogs.GetOr([]));
    options := [];
    for i := 0 to |existingCatalogs|
      invariant options == seq(i, j requires 0 <= j < i => ExistingOption(existingCatalogs[j]))
    {
      options := options + [ExistingOption(existingCatalogs[i])];
    }
    ghost var existing := options;
    for i := 0 to |DefaultCatalogs|
      invariant options == WithDefaults(existing, DefaultCatalogs[..i])
    {
      assert DefaultCatalogs[..i + 1][..i] == DefaultCatalogs[..i];
      var c := DefaultCatalogs[i];
      var isDuplicate := c.name in Labels(options);
      if !isDuplicate {
        options := options + [DefaultOption(c)];
      }
    }
    assert DefaultCatalogs[..|DefaultCatalogs|] == DefaultCatalogs;
    options := options + [NameOption(CustomCatalogLabel, CustomCatalogName, None)];
  }

  /** The `validate` callback of the custom-name prompt: the error text, or none when accepted. */
  function ValidateName(value: string, options: seq<NameOption>): Option<string>
  {
    if value == "" || Trim(value) == "" then Some(EmptyNameMessage)
    else if Trim(value) in Labels(options) then Some(DuplicateNameMessage)
    else None
  }

  /** A custom name is refused as empty exactly when it is blank, and accepted
      exactly when it is not blank and its trimmed form is no label. */
  lemma ValidateNameSpec(value: string, options: seq<NameOption>)
    ensures ValidateName(value, options) == Some(EmptyNameMessage) <==> IsBlank(value)
    ensures ValidateName(value, options) == Some(DuplicateNameMessage) <==>
              !IsBlank(value) && exists i :: 0 <= i < |options| && options[i].caption == Trim(value)
    ensures ValidateName(value, options).None? <==>
              !IsBlank(value) && forall i :: 0 <= i < |options| ==> options[i].caption != Trim(value)
  {
    TrimSpec(value);
    assert EmptyNameMessage != DuplicateNameMessage;
    if Trim(value) in Labels(options) {
      var i :| 0 <= i < |options| && Labels(options)[i] == Trim(value);
      assert options[i].caption == Trim(value);
    }
  }

  /** An accepted custom name passes the round's name check and, once trimmed,
      differs from every offered name: each existing catalog lower-cased, each
      built-in catalog, and the custom entry's own label. */
  lemma AcceptedNameIsNew(value: string, catalogs: Option<Object<Object<string>>>)
    requires ValidateName(value, CatalogOptions(catalogs)).None?
    ensures NamePasses(value)
    ensures forall k :: HasKey(catalogs.GetOr([]), k) ==> Trim(value) != ToLower(k)
    ensures forall c :: c in DefaultCatalogs ==> Trim(value) != c.name
    ensures Trim(value) != CustomCatalogLabel
  {
    var r := CatalogOptions(catalogs);
    CatalogOptionsSpec(catalogs);
    ValidateNameSpec(value, r);
    ExistingNotTaken(Trim(value), catalogs.GetOr([]), r);
    DefaultsNotTaken(Trim(value), r);
    assert r[|r| - 1].caption == CustomCatalogLabel;
  }

  lemma ExistingNotTaken(name: string, cs: Object<Object<string>>, r: seq<NameOption>)
    requires |Keys(cs)| <= |r| && forall i :: 0 <= i < |Keys(cs)| ==> r[i] == ExistingOption(Keys(cs)[i])
    requires forall i :: 0 <= i < |r| ==> r[i].caption != name
    ensures forall k :: HasKey(cs, k) ==> name != ToLower(k)
  {
    forall k | HasKey(cs, k) ensures name != ToLower(k) {
      var i :| 0 <= i < |cs| && cs[i].0 == k;
      assert r[i].caption == ToLower(k);
    }
  }

  lemma DefaultsNotTaken(name: string, r: seq<NameOption>)
    requires forall c :: c in DefaultCatalogs ==> c.name in Labels(r)
    requires forall i :: 0 <= i < |r| ==> r[i].caption != name
    ensures forall c :: c in DefaultCatalogs ==> name != c.name
  {
    forall c | c in DefaultCatalogs ensures name != c.name {
      var i :| 0 <= i < |r| && Labels(r)[i] == c.name;
    }
  }
}
