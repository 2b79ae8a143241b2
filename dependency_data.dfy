/** The package and scoped-registry lists that `PackageLoader` installs
    (DependencyData.cs). */
module DependencyData {

  /** A package entry: its name and the version string written into the
      manifest (a version number or a git URL). */
  datatype PackageData = PackageData(name: string, version: string)

  /** A scoped registry: its name, URL and the package scopes it serves. */
  datatype RegistryData = RegistryData(name: string, url: string, scopes: seq<string>)

  const Dependencies: seq<PackageData> := [
    PackageData("com.unity.2d.sprite", "1.0.0"),
    PackageData("com.cysharp.unitask", "2.5.10"),
    PackageData("extensions.unity.imageloader", "7.0.1"),
    PackageData("jillejr.newtonsoft.json-for-unity", "https://github.com/jilleJr/Newtonsoft.Json-for-Unity.git#upm"),
    PackageData("com.nobi.roundedcorners", "https://github.com/kirevdokimov/Unity-UI-Rounded-Corners.git")
  ]

  const ScopedRegistries: seq<RegistryData> := [
    RegistryData(
      "package.openupm.com",
      "https://package.openupm.com",
      ["com.openupm", "com.cysharp.unitask", "extensions.unity.imageloader"])
  ]
}
