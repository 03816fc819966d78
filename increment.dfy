/** The increment transition (`incrementVersion`): bump one component and
    reset every less significant one to zero. */
module Increment {
  import opened Failures
  import opened Versions

  /** The keys of `versionComponentIndexes`, most significant first. */
  datatype Component = Major | Minor | Patch

  /** The `switch` on the component name: only the three exact keys. */
  function ParseComponent(name: string): Option<Component> {
    if name == "major" then Some(Major)
    else if name == "minor" then Some(Minor)
    else if name == "patch" then Some(Patch)
    else None
  }

  function ComponentName(c: Component): string {
    match c
    case Major => "major"
    case Minor => "minor"
    case Patch => "patch"
  }

  /** The position of a component in `[major, minor, patch]`. */
  function Index(c: Component): nat {
    match c
    case Major => 0
    case Minor => 1
    case Patch => 2
  }

  /** Component `k` of a version, in `[major, minor, patch]` order. */
  function Nth(v: Version, k: nat): nat
    requires k < 3
  {
    if k == 0 then v.major else if k == 1 then v.minor else v.patch
  }

  /** The transition written per component, as semantic versioning states
      it: raising major resets minor and patch, raising minor resets patch. */
  function Bump(v: Version, c: Component): Version {
    match c
    case Major => Version(v.major + 1, 0, 0)
    case Minor => Version(v.major, v.minor + 1, 0)
    case Patch => Version(v.major, v.minor, v.patch + 1)
  }

  /** The component names the `switch` accepts are exactly the three keys,
      and each key names its own component. */
  lemma ParseComponentNames(name: string)
    ensures ParseComponent(name).Some? <==> name in {"major", "minor", "patch"}
    ensures ParseComponent(name).Some? ==> ComponentName(ParseComponent(name).value) == name
  {
  }

  lemma ComponentNameRoundTrip(c: Component)
    ensures ParseComponent(ComponentName(c)) == Some(c)
  {
  }

  /** The reset rule: the chosen component goes up by one, every more
      significant one is kept, every less significant one becomes zero. */
  lemma BumpRule(v: Version, c: Component, k: nat)
    requires k < 3
    ensures Nth(Bump(v, c), k) ==
      if k < Index(c) then Nth(v, k)
      else if k == Index(c) then Nth(v, k) + 1
      else 0
  {
  }

  /** `increment(v, "minor")` keeps major and zeroes patch; `"patch"` keeps minor. */
  lemma BumpExamples()
    ensures Bump(Version(1, 2, 3), Minor) == Version(1, 3, 0)
    ensures Bump(Version(1, 2, 3), Major) == Version(2, 0, 0)
    ensures Bump(Version(0, 0, 0), Patch) == Version(0, 0, 1)
  {
  }

  /** `incrementVersion`: copy the triple into an array, increment the slot
      of the chosen component in place, then zero every later slot. Any
      other component name is rejected with an error naming it. */
  method IncrementVersion(current: Version, component: string) returns (r: Result<Version>)
    ensures ParseComponent(component).None? ==> r == Err(InvalidComponent(component))
    ensures ParseComponent(component).Some? ==> r == Ok(Bump(current, ParseComponent(component).value))
  {
    var parsed := ParseComponent(component);
    if parsed.None? {
      return Err(InvalidComponent(component));
    }
    var c := parsed.value;
    var components := new nat[3];
    components[0], components[1], components[2] := current.major, current.minor, current.patch;
    var index := Index(c);
    components[index] := components[index] + 1;
    var i := index + 1;
    while i < components.Length
      invariant index < i <= components.Length
      invariant components[index] == Nth(current, index) + 1
      invariant forall k :: 0 <= k < index ==> components[k] == Nth(current, k)
      invariant forall k :: index < k < i ==> components[k] == 0
    {
      components[i] := 0;
      i := i + 1;
    }
    r := Ok(Version(components[0], components[1], components[2]));
    forall k | 0 <= k < 3
      ensures Nth(r.value, k) == Nth(Bump(current, c), k)
    {
      BumpRule(current, c, k);
    }
  }
}
