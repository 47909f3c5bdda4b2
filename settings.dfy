/**
  The check of the four mandatory connection settings. Each of host, port,
  user and password must be present and non-empty (Python truthiness of the
  parsed string); the first one that is not stops the run with exit code 2
  before any connection is attempted.
 */
module Settings {
  datatype Option<T> = None | Some(value: T)

  /** `--ratio`: the word `auto`, or a fixed threshold. */
  datatype RatioPolicy = Auto | Fixed(threshold: real)

  /** The retention parameters: `--days`, `--ratio`, `--keep-label`. */
  datatype Policy = Policy(days: int, ratio: RatioPolicy, keepLabel: string)

  /** The parsed command line. Unset options are `None`; `port` stays a
      string, as the parser reads it. */
  datatype Args = Args(
    host: Option<string>,
    port: Option<string>,
    user: Option<string>,
    password: Option<string>,
    policy: Policy,
    dryRun: bool)

  /** The settings checked, in the order they are checked. */
  const Mandatory: seq<string> := ["host", "port", "user", "password"]

  /** `vars(args).get(name)` for the four mandatory names. */
  function Setting(a: Args, name: string): Option<string> {
    if name == "host" then a.host
    else if name == "port" then a.port
    else if name == "user" then a.user
    else if name == "password" then a.password
    else None
  }

  /** Python truthiness of an optional string: set and not empty. */
  predicate Truthy(o: Option<string>) {
    o.Some? && o.value != ""
  }

  predicate AllMandatorySet(a: Args) {
    Truthy(a.host) && Truthy(a.port) && Truthy(a.user) && Truthy(a.password)
  }

  /** Walks the mandatory names in order and returns the first one that is
      unset or empty, or `None` when all four are set. */
  method FirstMissing(a: Args) returns (missing: Option<string>)
    ensures missing.None? <==> AllMandatorySet(a)
    ensures missing.Some? ==>
      exists i :: 0 <= i < |Mandatory| && missing.value == Mandatory[i]
        && !Truthy(Setting(a, Mandatory[i]))
        && forall j :: 0 <= j < i ==> Truthy(Setting(a, Mandatory[j]))
  {
    var i := 0;
    while i < |Mandatory|
      invariant 0 <= i <= |Mandatory|
      invariant forall j :: 0 <= j < i ==> Truthy(Setting(a, Mandatory[j]))
    {
      if !Truthy(Setting(a, Mandatory[i])) {
        return Some(Mandatory[i]);
      }
      i := i + 1;
    }
    assert Truthy(Setting(a, Mandatory[0])) && Truthy(Setting(a, Mandatory[1]));
    assert Truthy(Setting(a, Mandatory[2])) && Truthy(Setting(a, Mandatory[3]));
    return None;
  }
}
