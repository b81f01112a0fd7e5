/**
 * The script's main run (index.js:164-197): shrink the loaded manifest, give
 * each of the four groups in order to the installer or skip it, then
 * synchronise the manifest read back from disk. The installer is a supplied
 * close code per group; reading and writing the file are supplied outcomes.
 */
module Run {
  import opened Wrappers
  import Versions
  import opened Manifest
  import opened Shrink
  import opened Sync
  import opened Install
  import opened Package

  /** What `shrink` returns: only group keys, each holding a list of names. */
  predicate Shrunken(deps: map<string, Value>) {
    forall k :: k in deps ==> k in Keys && deps[k].Names?
  }

  lemma ShrunkIsShrunken(fields: map<string, Value>)
    requires Loaded(fields)
    ensures Shrunken(Shrunk(fields))
  {
    ShrunkSpec(fields);
  }

  /** The report for group `key`: skipped exactly when `shrink` left no such key (index.js:184-190). */
  function ReportFor(deps: map<string, Value>, key: string, code: ExitCode): Report {
    if key !in deps then Skip else Outcome(code)
  }

  /** The reports of the first `i` groups. */
  function Reports(deps: map<string, Value>, codes: seq<ExitCode>, i: nat): (r: seq<Report>)
    requires i <= |Keys| == |codes|
    ensures |r| == i
  {
    if i == 0 then [] else Reports(deps, codes, i - 1) + [ReportFor(deps, Keys[i - 1], codes[i - 1])]
  }

  /** The installer argument vectors of the first `i` groups, one per group that is not skipped. */
  function Calls(deps: map<string, Value>, i: nat): (r: seq<seq<string>>)
    requires Shrunken(deps) && i <= |Keys|
    ensures |r| <= i
  {
    if i == 0 then []
    else
      var key := Keys[i - 1];
      Calls(deps, i - 1) + if key in deps then [InstallArgs(key, deps[key].items)] else []
  }

  /** The k-th report is group k's own: skipped exactly when its key is absent, else its close code decides. */
  lemma {:induction false} ReportsAt(deps: map<string, Value>, codes: seq<ExitCode>, i: nat, k: nat)
    requires i <= |Keys| == |codes| && k < i
    ensures Reports(deps, codes, i)[k] == ReportFor(deps, Keys[k], codes[k])
  {
    if k < i - 1 {
      ReportsAt(deps, codes, i - 1, k);
    }
  }

  /**
   * Skip iff the key is absent after `shrink`; otherwise Ok iff the installer
   * closed with a falsy code.
   */
  lemma ReportsSpec(deps: map<string, Value>, codes: seq<ExitCode>)
    requires |codes| == |Keys|
    ensures forall k :: 0 <= k < |Keys| ==>
      && (Reports(deps, codes, |Keys|)[k] == Skip <==> Keys[k] !in deps)
      && (Reports(deps, codes, |Keys|)[k] == Ok <==> Keys[k] in deps && Resolves(codes[k]))
  {
    forall k | 0 <= k < |Keys| ensures Reports(deps, codes, |Keys|)[k] == ReportFor(deps, Keys[k], codes[k]) {
      ReportsAt(deps, codes, |Keys|, k);
    }
  }

  /** A failing group changes no other group's report: the run goes on to the next group. */
  lemma FailureIsolated(deps: map<string, Value>, codes: seq<ExitCode>, j: nat, other: ExitCode)
    requires |codes| == |Keys| && j < |Keys|
    ensures forall k :: 0 <= k < |Keys| && k != j ==>
      Reports(deps, codes[j := other], |Keys|)[k] == Reports(deps, codes, |Keys|)[k]
  {
    forall k | 0 <= k < |Keys| && k != j
      ensures Reports(deps, codes[j := other], |Keys|)[k] == Reports(deps, codes, |Keys|)[k]
    {
      ReportsAt(deps, codes, |Keys|, k);
      ReportsAt(deps, codes[j := other], |Keys|, k);
    }
  }

  /** Every installer call of the first `i` groups is the argument vector of a present group. */
  lemma {:induction false} CallsFromGroups(deps: map<string, Value>, i: nat)
    requires Shrunken(deps) && i <= |Keys|
    ensures forall c :: c in Calls(deps, i) ==>
      exists k :: 0 <= k < i && Keys[k] in deps && c == InstallArgs(Keys[k], deps[Keys[k]].items)
  {
    if i > 0 {
      CallsFromGroups(deps, i - 1);
      var key := Keys[i - 1];
      var tail := if key in deps then [InstallArgs(key, deps[key].items)] else [];
      assert Calls(deps, i) == Calls(deps, i - 1) + tail;
      forall c | c in Calls(deps, i)
        ensures exists k :: 0 <= k < i && Keys[k] in deps && c == InstallArgs(Keys[k], deps[Keys[k]].items)
      {
        if c !in Calls(deps, i - 1) {
          assert c in tail;
        }
      }
    }
  }

  /** Every present group among the first `i` gets its installer call. */
  lemma {:induction false} GroupsCalled(deps: map<string, Value>, i: nat)
    requires Shrunken(deps) && i <= |Keys|
    ensures forall k :: 0 <= k < i && Keys[k] in deps ==> InstallArgs(Keys[k], deps[Keys[k]].items) in Calls(deps, i)
  {
    if i > 0 {
      GroupsCalled(deps, i - 1);
      var key := Keys[i - 1];
      var tail := if key in deps then [InstallArgs(key, deps[key].items)] else [];
      assert Calls(deps, i) == Calls(deps, i - 1) + tail;
    }
  }

  /** The positions among the first `i` group keys that are present. */
  function Present(deps: map<string, Value>, i: nat): set<nat> {
    set k: nat | k < i && k < |Keys| && Keys[k] in deps
  }

  lemma PresentStep(deps: map<string, Value>, i: nat)
    requires 0 < i <= |Keys|
    ensures |Present(deps, i)| == |Present(deps, i - 1)| + if Keys[i - 1] in deps then 1 else 0
  {
    var before := Present(deps, i - 1);
    assert i - 1 !in before;
    if Keys[i - 1] in deps {
      assert Present(deps, i) == before + {i - 1};
    } else {
      assert Present(deps, i) == before;
    }
  }

  /** Exactly one installer call per present group among the first `i`. */
  lemma {:induction false} CallsCount(deps: map<string, Value>, i: nat)
    requires Shrunken(deps) && i <= |Keys|
    ensures |Calls(deps, i)| == |Present(deps, i)|
  {
    if i == 0 {
      assert Present(deps, 0) == {};
    } else {
      CallsCount(deps, i - 1);
      PresentStep(deps, i);
    }
  }

  /**
   * A group whose specifiers are all exact pins survives `shrink` as an
   * empty list, which is truthy: it is not skipped, and the installer is
   * called with the bare `add` and the group's flag.
   */
  lemma ExactOnlyGroupStillInstalls(fields: map<string, Value>, codes: seq<ExitCode>, k: nat)
    requires Loaded(fields) && |codes| == |Keys| && k < |Keys| && Keys[k] in fields
    requires forall m :: m in fields[Keys[k]].specs ==> !Versions.IsRanged(fields[Keys[k]].specs[m])
    ensures Shrunken(Shrunk(fields))
    ensures Reports(Shrunk(fields), codes, |Keys|)[k] != Skip
    ensures ["add"] + Flag(Keys[k]) in Calls(Shrunk(fields), |Keys|)
  {
    ShrunkSpec(fields);
    var deps := Shrunk(fields);
    assert deps[Keys[k]] == Names([]);
    ReportsSpec(deps, codes);
    GroupsCalled(deps, |Keys|);
    assert InstallArgs(Keys[k], []) == ["add"] + Flag(Keys[k]);
  }

  /** `deps` after the first `i` groups had their name lists `unshift`ed into argument vectors. */
  function Unshifted(deps: map<string, Value>, i: nat): map<string, Value>
    requires Shrunken(deps) && i <= |Keys|
  {
    if i == 0 then deps
    else
      var t, key := Unshifted(deps, i - 1), Keys[i - 1];
      if key in deps then t[key := Names(InstallArgs(key, deps[key].items))] else t
  }

  /**
   * `syncDependencies` with its promise: `disk` is what `readPkg` parses
   * (`None` when it throws), `writable` whether `writeFileSync` succeeds.
   * The run reports success exactly when both do, and what is written is the
   * synchronised manifest.
   */
  method SyncDependencies(disk: Option<map<string, Value>>, writable: bool)
    returns (synced: bool, written: Option<map<string, Value>>)
    ensures synced <==> disk.Some? && writable
    ensures written == if synced then Some(SyncPass(disk.value)) else None
  {
    if disk.None? {
      return false, None;
    }
    var pkg := new PackageJson(disk.value);
    pkg.Sync();
    if !writable {
      return false, None;
    }
    return true, Some(pkg.fields);
  }

  /** Before the turn of group `Keys[k]`, the fields are the same and that group still holds its name list. */
  lemma {:induction false} UnshiftedPending(deps: map<string, Value>, i: nat, k: nat)
    requires Shrunken(deps) && i <= k < |Keys|
    ensures Unshifted(deps, i).Keys == deps.Keys
    ensures Keys[k] in deps ==> Unshifted(deps, i)[Keys[k]] == deps[Keys[k]]
  {
    UnshiftedKeys(deps, i);
    if i > 0 {
      UnshiftedPending(deps, i - 1, k);
      KeysDistinct();
    }
  }

  /** After the turns of the first `i` groups, each of them that is present holds its argument vector. */
  lemma {:induction false} UnshiftedDone(deps: map<string, Value>, i: nat)
    requires Shrunken(deps) && i <= |Keys|
    ensures Unshifted(deps, i).Keys == deps.Keys
    ensures forall j :: 0 <= j < i && Keys[j] in deps ==>
      Unshifted(deps, i)[Keys[j]] == Names(InstallArgs(Keys[j], deps[Keys[j]].items))
  {
    UnshiftedKeys(deps, i);
    if i > 0 {
      UnshiftedDone(deps, i - 1);
      KeysDistinct();
      var t, key := Unshifted(deps, i - 1), Keys[i - 1];
      forall j | 0 <= j < i && Keys[j] in deps
        ensures Unshifted(deps, i)[Keys[j]] == Names(InstallArgs(Keys[j], deps[Keys[j]].items))
      {
        if j < i - 1 {
          assert Keys[j] != key;
        }
      }
    }
  }

  /**
   * After the loop, the shrunk manifest holds, in place of each group's name
   * list, the argument vector it was installed with (the `unshift`s mutate
   * the list).
   */
  lemma UnshiftedAll(deps: map<string, Value>)
    requires Shrunken(deps)
    ensures Unshifted(deps, |Keys|) == map k | k in deps :: Names(InstallArgs(k, deps[k].items))
  {
    UnshiftedDone(deps, |Keys|);
    forall k | k in deps ensures Unshifted(deps, |Keys|)[k] == Names(InstallArgs(k, deps[k].items)) {
      var j :| 0 <= j < |Keys| && Keys[j] == k;
    }
  }

  lemma {:induction false} UnshiftedKeys(deps: map<string, Value>, i: nat)
    requires Shrunken(deps) && i <= |Keys|
    ensures Unshifted(deps, i).Keys == deps.Keys
  {
    if i > 0 {
      UnshiftedKeys(deps, i - 1);
    }
  }

  /**
   * The loop over the four groups (index.js:173-191) on the shrunk manifest:
   * a group whose key is absent is skipped, any other is handed to the
   * installer and reported by its close code, and a failure does not stop
   * the groups after it.
   */
  method InstallAll(doc: PackageJson, codes: seq<ExitCode>)
    returns (reports: seq<Report>, calls: seq<seq<string>>)
    requires Shrunken(doc.fields) && |codes| == |Keys|
    modifies doc
    ensures reports == Reports(old(doc.fields), codes, |Keys|)
    ensures calls == Calls(old(doc.fields), |Keys|)
    ensures doc.fields == map k | k in old(doc.fields) :: Names(InstallArgs(k, old(doc.fields)[k].items))
  {
    ghost var deps := doc.fields;
    reports, calls := [], [];
    var i := 0;
    while i < |Keys|
      invariant i <= |Keys|
      invariant reports == Reports(deps, codes, i)
      invariant calls == Calls(deps, i)
      invariant doc.fields == Unshifted(deps, i)
    {
      var key := Keys[i];
      UnshiftedPending(deps, i, i);
      if key !in doc.fields {
        reports := reports + [Skip];
      } else {
        var args, resolved := doc.UpdateModules(key, codes[i]);
        calls := calls + [args];
        reports := reports + [if resolved then Ok else Fail];
      }
      i := i + 1;
    }
    UnshiftedAll(deps);
  }

  /**
   * The whole run: `shrink` the manifest `doc` as first read, install the
   * groups, then always run the sync step. `codes[i]` is the installer's
   * close code for the i-th group, used only when that group is installed.
   */
  method UpdateAll(doc: PackageJson, codes: seq<ExitCode>, disk: Option<map<string, Value>>, writable: bool)
    returns (reports: seq<Report>, calls: seq<seq<string>>, synced: bool, written: Option<map<string, Value>>)
    requires Loaded(doc.fields) && |codes| == |Keys|
    modifies doc
    ensures Shrunken(Shrunk(old(doc.fields)))
    ensures reports == Reports(Shrunk(old(doc.fields)), codes, |Keys|)
    ensures calls == Calls(Shrunk(old(doc.fields)), |Keys|)
    ensures var deps := Shrunk(old(doc.fields));
      doc.fields == map k | k in deps :: Names(InstallArgs(k, deps[k].items))
    ensures synced <==> disk.Some? && writable
    ensures written == if synced then Some(SyncPass(disk.value)) else None
  {
    ShrunkIsShrunken(doc.fields);
    doc.Shrink();
    reports, calls := InstallAll(doc, codes);
    synced, written := SyncDependencies(disk, writable);
  }
}
