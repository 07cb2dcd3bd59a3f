/** Values shared by the metadata fetcher and the tree resolver: dependency
    descriptors and package manifests. semver itself is not modelled here:
    version strings are only compared through the `gt` and `satisfies`
    relations that callers pass in. */
module Packages {

  datatype Option<T> = None | Some(value: T)

  datatype Result<T, E> = Ok(value: T) | Err(error: E)

  /** `dep.type`: how the specifier resolver classified a dependency. */
  datatype DepType = Git | Local | Directory | Remote | Hosted | Range | Tag | Version

  /** A typed dependency descriptor. `name` is `None` where the source has `null`. */
  datatype Descriptor = Descriptor(name: Option<string>, rawSpec: string, spec: string, kind: DepType)

  /** The three locations a hosted-git shorthand can be fetched from. */
  datatype HostedUrls = HostedUrls(directUrl: string, httpsUrl: string, ssh: string)

  datatype Dist = Dist(shasum: string)

  /** A package manifest as far as install planning reads it. A missing (or
      empty, hence falsy) `name` or `version` is the empty string; `bin` maps
      executable names to script paths; `requested` is the descriptor that
      produced the manifest, if one was recorded. */
  datatype Manifest = Manifest(
    name: string,
    version: string,
    bin: map<string, string>,
    dist: Option<Dist>,
    requested: Option<Descriptor>)
}
