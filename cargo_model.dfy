/**
  The parts of cargo that `build_graph` reads: dependency kinds, dependency
  specifications with their optional platform, packages, and the resolve.

  Two pieces of cargo's own logic are left abstract and supplied by the caller as
  an `Oracle`: whether a version requirement accepts a version (used by
  `Dependency::matches_ignoring_source`) and whether a platform expression holds
  for a target triple and a set of `cfg` flags (`Platform::matches`).
*/
module CargoModel {
  import opened Wrappers
  import opened PackageIds

  /** `cargo::core::dependency::Kind`: the label of every graph edge. */
  datatype Kind = Normal | Development | Build

  /** One line of `rustc --print=cfg`: `name` or `key="value"`. */
  datatype Cfg = CfgName(name: string) | CfgKeyPair(key: string, value: string)

  /** The `cfg(...)` expression language of `[target.'cfg(...)'.dependencies]`. */
  datatype CfgExpr = Not(operand: CfgExpr) | All(operands: seq<CfgExpr>) | Any(operands: seq<CfgExpr>) | Value(cfg: Cfg)

  /** A platform restriction: a literal target triple or a `cfg(...)` expression. */
  datatype Platform = Triple(name: string) | CfgPlatform(expr: CfgExpr)

  /** A version requirement such as `^1.2`, kept as text. */
  datatype VersionReq = VersionReq(text: string)

  /** A dependency specification from a package's manifest. */
  datatype Dependency = Dependency(name: string, req: VersionReq, kind: Kind, platform: Option<Platform>)

  /** The manifest metadata carried by every graph node. */
  datatype Metadata = Metadata(authors: seq<string>, description: Option<string>, license: Option<string>, repository: Option<string>)

  datatype Package = Package(id: PackageId, metadata: Metadata, dependencies: seq<Dependency>)

  /** `PackageSet`: the downloaded packages, looked up with `get_one`. */
  type PackageSet = map<PackageId, Package>

  /**
    `Resolve`: for each package the resolved dependency ids before replacement,
    and the `[replace]`/`[patch]` redirections.
  */
  datatype Resolve = Resolve(deps: map<PackageId, seq<PackageId>>, replacements: map<PackageId, PackageId>)

  /** The semantics of cargo's version requirements and platform expressions. */
  datatype Oracle = Oracle(
    reqMatches: (VersionReq, Version) -> bool,
    platformMatches: (Platform, string, Option<seq<Cfg>>) -> bool)

  /** What a graph build filters with: cargo's semantics, the target triple (None means all targets) and the active cfgs. */
  datatype Env = Env(oracle: Oracle, target: Option<string>, cfgs: Option<seq<Cfg>>)

  /** `Resolve::deps_not_replaced`: an id the resolve does not know has no dependencies. */
  function DepsNotReplaced(resolve: Resolve, id: PackageId): seq<PackageId>
  {
    if id in resolve.deps then resolve.deps[id] else []
  }

  /** `Resolve::replacement` followed by `unwrap_or(raw)`: the id a raw dependency is redirected to. */
  function Replacement(resolve: Resolve, raw: PackageId): PackageId
  {
    if raw in resolve.replacements then resolve.replacements[raw] else raw
  }

  /** `Dependency::matches_ignoring_source`: same name and the requirement accepts the version. */
  predicate MatchesIgnoringSource(d: Dependency, id: PackageId, oracle: Oracle)
  {
    d.name == id.name && oracle.reqMatches(d.req, id.version)
  }

  /**
    The platform filter of `build_graph`: `d.platform().and_then(|p| target.map(|t|
    p.matches(t, cfgs))).unwrap_or(true)`.
  */
  predicate PlatformAllows(d: Dependency, env: Env)
  {
    UnwrapOr(AndThen(d.platform, (p: Platform) => Map(env.target, (t: string) => env.oracle.platformMatches(p, t, env.cfgs))), true)
  }

  /** A spec survives both filters applied to the raw (not the redirected) dependency id. */
  predicate Survives(d: Dependency, raw: PackageId, env: Env)
  {
    MatchesIgnoringSource(d, raw, env.oracle) && PlatformAllows(d, env)
  }

  /** The specs of a package that survive both filters for `raw`, in manifest order. */
  function Surviving(specs: seq<Dependency>, raw: PackageId, env: Env): seq<Dependency>
    decreases |specs|
  {
    if specs == [] then []
    else Surviving(specs[..|specs| - 1], raw, env) + (if Survives(specs[|specs| - 1], raw, env) then [specs[|specs| - 1]] else [])
  }

  /** `Surviving` keeps exactly the specs that pass both filters, and no more specs than there are. */
  lemma {:induction false} SurvivingMembers(specs: seq<Dependency>, raw: PackageId, env: Env)
    ensures |Surviving(specs, raw, env)| <= |specs|
    ensures forall d :: d in Surviving(specs, raw, env) <==> d in specs && Survives(d, raw, env)
    decreases |specs|
  {
    if specs != [] {
      var front := specs[..|specs| - 1];
      assert specs == front + [specs[|specs| - 1]];
      SurvivingMembers(front, raw, env);
    }
  }

  /** A spec without a platform always passes; with no target every spec passes; otherwise the platform decides. */
  lemma PlatformFilterCases(d: Dependency, env: Env)
    ensures d.platform.None? ==> PlatformAllows(d, env)
    ensures env.target.None? ==> PlatformAllows(d, env)
    ensures d.platform.Some? && env.target.Some? ==>
              (PlatformAllows(d, env) <==> env.oracle.platformMatches(d.platform.value, env.target.value, env.cfgs))
  {
  }
}
