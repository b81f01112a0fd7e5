/**
 * The decisions `updateModules` makes around the `yarn` call
 * (index.js:130-154): the argument vector and when the returned promise
 * resolves. The process itself is a supplied exit code.
 */
module Install {
  import opened Wrappers
  import opened Manifest

  /** The close code the installer reports: `None` is `null` (killed by a signal). */
  type ExitCode = Option<int>

  /** The outcome the run reports for one group. */
  datatype Report = Ok | Skip | Fail

  /** The group flag pushed in front of the names (index.js:132-142); the production group has none. */
  function Flag(key: string): (r: seq<string>)
    ensures |r| <= 1
    ensures r == [] <==> key !in Keys[1..]
  {
    match key
    case "peerDependencies" => ["-P"]
    case "devDependencies" => ["-D"]
    case "optionalDependencies" => ["-O"]
    case _ => []
  }

  /** `yarn add [flag] names...` for group `key`. */
  function InstallArgs(key: string, modules: seq<string>): (r: seq<string>)
    ensures |r| == 1 + |Flag(key)| + |modules|
    ensures r[0] == "add" && r[1..|r| - |modules|] == Flag(key) && r[|r| - |modules|..] == modules
  {
    ["add"] + Flag(key) + modules
  }

  /** `code ? rej() : res()` (index.js:153): the promise resolves exactly on a falsy code, 0 or `null`. */
  predicate Resolves(code: ExitCode) {
    code.None? || code.value == 0
  }

  /** The report for a group the installer ran on: OK when the promise resolves, FAIL when it rejects. */
  function Outcome(code: ExitCode): (r: Report)
    ensures r != Skip
    ensures r == Ok <==> Resolves(code)
  {
    if Resolves(code) then Ok else Fail
  }

  /** Each of the four groups installs with its own flag: no two groups share an argument prefix. */
  lemma FlagsDistinct()
    ensures forall i, j :: 0 <= i < j < |Keys| ==> Flag(Keys[i]) != Flag(Keys[j])
    ensures Flag(Keys[0]) == [] && forall i :: 1 <= i < |Keys| ==> |Flag(Keys[i])| == 1
  {
    assert Flag(Keys[0]) == [];
    assert Flag(Keys[1]) == ["-D"];
    assert Flag(Keys[2]) == ["-P"];
    assert Flag(Keys[3]) == ["-O"];
  }
}
