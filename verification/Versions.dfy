/** A version found upstream (src/ldfd/forge/forge.go). */
module Versions {
  datatype VersionType = Stable | Mainline | Longterm | LinuxNext

  datatype DiscoveredVersion = DiscoveredVersion(
    version: string,
    versionType: VersionType,
    releaseDate: int,
    downloadURL: string,
    isStable: bool,
    isPrerelease: bool)
}
