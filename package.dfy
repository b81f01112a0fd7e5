/**
 * The loaded manifest as the mutable object the script works on, with the
 * three operations that change it in place: `shrink` (index.js:52-63), the
 * in-memory pass of `syncDependencies` (index.js:106-123) and the `unshift`s
 * of `updateModules` (index.js:132-144).
 */
module Package {
  import opened Versions
  import opened Manifest
  import opened Shrink
  import opened Sync
  import opened Install

  class PackageJson {
    /** The manifest's fields by name. */
    var fields: map<string, Value>

    constructor (loaded: map<string, Value>)
      ensures fields == loaded
    {
      fields := loaded;
    }

    /**
     * `shrink(o, keys)`: visits the fields in some order, overwriting each of
     * the four group keys with its eligible names and deleting every other key.
     */
    method Shrink()
      requires Loaded(fields)
      modifies this
      ensures fields == Shrunk(old(fields))
    {
      ghost var start := fields;
      var todo := fields.Keys;
      while todo != {}
        invariant todo <= start.Keys
        invariant forall k :: k in fields <==> k in start && (k in todo || k in Keys)
        invariant forall k :: k in todo ==> fields[k] == start[k]
        invariant forall k :: k in fields && k !in todo ==>
          fields[k] == Names(Eligible(start[k].order, start[k].specs))
        decreases todo
      {
        var key :| key in todo;
        if key in Keys {
          var group := fields[key];
          fields := fields[key := Names(Eligible(group.order, group.specs))];
        } else {
          fields := fields - {key};
        }
        todo := todo - {key};
      }
    }

    /** One visit of the innermost callback (index.js:111-120), in place. */
    method Reconcile(pDep: string, mod: string, dep: string)
      requires pDep in Keys && dep in Keys
      modifies this
      ensures fields == Step(old(fields), pDep, mod, dep)
    {
      if pDep == dep || dep !in fields || !fields[dep].Deps? || mod !in fields[dep].specs
        || fields[dep].specs[mod] == "" || pDep !in fields || !fields[pDep].Deps? || mod !in fields[pDep].specs {
        return;
      }
      var a, b := fields[pDep].specs[mod], fields[dep].specs[mod];
      var compare := IsLargerVersion(a, b);
      if compare == FirstLarger {
        fields := fields[dep := Deps(fields[dep].order, fields[dep].specs[mod := a])];
      } else if compare == SecondLarger {
        fields := fields[pDep := Deps(fields[pDep].order, fields[pDep].specs[mod := b])];
      }
    }

    /**
     * The three nested loops of `syncDependencies` over the manifest in
     * memory: every write is seen by the visits after it.
     */
    method Sync()
      modifies this
      ensures fields == SyncPass(old(fields))
    {
      ghost var start := fields;
      var i := 0;
      while i < |Keys|
        invariant i <= |Keys|
        invariant fields == OverGroups(start, i)
      {
        SyncGroup(Keys[i]);
        i := i + 1;
      }
    }

    /** The middle loop: every package `pDep` declares, in key order (index.js:107-122). */
    method SyncGroup(pDep: string)
      requires pDep in Keys
      modifies this
      ensures var mods := NamesOf(old(fields), pDep); fields == OverPackages(old(fields), pDep, mods, |mods|)
    {
      var mods := NamesOf(fields, pDep);
      ghost var before := fields;
      var n := 0;
      while n < |mods|
        invariant n <= |mods|
        invariant fields == OverPackages(before, pDep, mods, n)
      {
        SyncPackage(pDep, mods[n]);
        n := n + 1;
      }
    }

    /** The inner loop: package `mod` of `pDep` against each group key in order (index.js:110-121). */
    method SyncPackage(pDep: string, mod: string)
      requires pDep in Keys
      modifies this
      ensures fields == OverOthers(old(fields), pDep, mod, |Keys|)
    {
      ghost var before := fields;
      var j := 0;
      while j < |Keys|
        invariant j <= |Keys|
        invariant fields == OverOthers(before, pDep, mod, j)
      {
        Reconcile(pDep, mod, Keys[j]);
        j := j + 1;
      }
    }

    /**
     * The argument vector `updateModules` builds for group `key` by
     * `unshift`ing into the group's own name list, and whether the returned
     * promise resolves for the installer's close code `code`.
     */
    method UpdateModules(key: string, code: ExitCode) returns (args: seq<string>, resolved: bool)
      requires key in fields && fields[key].Names?
      modifies this
      ensures args == InstallArgs(key, old(fields)[key].items)
      ensures fields == old(fields)[key := Names(args)]
      ensures resolved == Resolves(code)
    {
      var modules := fields[key].items;
      if key == "peerDependencies" {
        modules := ["-P"] + modules;
      } else if key == "devDependencies" {
        modules := ["-D"] + modules;
      } else if key == "optionalDependencies" {
        modules := ["-O"] + modules;
      }
      modules := ["add"] + modules;
      fields := fields[key := Names(modules)];
      args := modules;
      resolved := !(code.Some? && code.value != 0);
    }
  }
}
