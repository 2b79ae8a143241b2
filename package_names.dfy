/** Which strings are package and registry names, and the check that the
    installed lists (DependencyData.cs) consist of well-formed entries. */
module PackageNames {
  import opened DependencyData

  /** A character of a package or registry name. */
  predicate IsNameChar(c: char) {
    ('a' <= c <= 'z') || ('A' <= c <= 'Z') || ('0' <= c <= '9') || c == '.' || c == '-' || c == '_'
  }

  /** A package or registry name: letters, digits, `.`, `-` and `_`. */
  predicate IsName(n: string) {
    n != [] && forall k | 0 <= k < |n| :: IsNameChar(n[k])
  }

  /** Packages whose names are proper names and whose versions hold no `}`. */
  predicate WellFormedPackages(packages: seq<PackageData>) {
    forall p | p in packages :: IsName(p.name) && '}' !in p.version
  }

  /** Registries whose names are proper names other than `dependencies`. */
  predicate WellFormedRegistries(registries: seq<RegistryData>) {
    forall g | g in registries :: IsName(g.name) && g.name != "dependencies"
  }

  /** A name holds no `}`. */
  lemma NameHasNoBrace(n: string)
    requires IsName(n)
    ensures '}' !in n
  {
    forall k | 0 <= k < |n|
      ensures n[k] != '}'
    {
      assert IsNameChar(n[k]);
    }
  }

  /** `v` holds no `}`, stated index by index. */
  predicate NoClose(v: string) {
    forall k | 0 <= k < |v| :: v[k] != '}'
  }

  lemma NoCloseAppend(a: string, b: string)
    requires NoClose(a) && NoClose(b)
    ensures NoClose(a + b)
  {
    forall k | 0 <= k < |a + b|
      ensures (a + b)[k] != '}'
    {
      if k < |a| {
        assert (a + b)[k] == a[k];
      } else {
        assert (a + b)[k] == b[k - |a|];
      }
    }
  }

  lemma NoCloseHasNoBrace(v: string)
    requires NoClose(v)
    ensures '}' !in v
  {
  }

  /** The git URLs of two packages, each split into two halves. */
  lemma JsonVersionHalves()
    ensures "https://github.com/jilleJr/" + "Newtonsoft.Json-for-Unity.git#upm"
         == "https://github.com/jilleJr/Newtonsoft.Json-for-Unity.git#upm"
  {
  }

  lemma CornersVersionHalves()
    ensures "https://github.com/kirevdokimov/" + "Unity-UI-Rounded-Corners.git"
         == "https://github.com/kirevdokimov/Unity-UI-Rounded-Corners.git"
  {
  }

  lemma GitHubPrefixes()
    ensures NoClose("https://github.com/jilleJr/") && NoClose("https://github.com/kirevdokimov/")
  {
  }

  lemma RepositoryPaths()
    ensures NoClose("Newtonsoft.Json-for-Unity.git#upm") && NoClose("Unity-UI-Rounded-Corners.git")
  {
  }

  lemma JsonVersionNoClose()
    ensures NoClose("https://github.com/jilleJr/Newtonsoft.Json-for-Unity.git#upm")
  {
    GitHubPrefixes();
    RepositoryPaths();
    JsonVersionHalves();
    NoCloseAppend("https://github.com/jilleJr/", "Newtonsoft.Json-for-Unity.git#upm");
  }

  lemma CornersVersionNoClose()
    ensures NoClose("https://github.com/kirevdokimov/Unity-UI-Rounded-Corners.git")
  {
    GitHubPrefixes();
    RepositoryPaths();
    CornersVersionHalves();
    NoCloseAppend("https://github.com/kirevdokimov/", "Unity-UI-Rounded-Corners.git");
  }

  lemma SpriteName() ensures IsName("com.unity.2d.sprite") {}
  lemma UniTaskName() ensures IsName("com.cysharp.unitask") {}
  lemma ImageLoaderName() ensures IsName("extensions.unity.imageloader") {}
  lemma JsonName() ensures IsName("jillejr.newtonsoft.json-for-unity") {}
  lemma CornersName() ensures IsName("com.nobi.roundedcorners") {}
  lemma OpenUpmName() ensures IsName("package.openupm.com") {}
  lemma ShortVersions() ensures NoClose("1.0.0") && NoClose("2.5.10") && NoClose("7.0.1") {}

  /** The installed packages and registries have proper names, and no
      version holds a `}`. */
  lemma DefaultDataWellFormed()
    ensures WellFormedPackages(Dependencies) && WellFormedRegistries(ScopedRegistries)
  {
    SpriteName();
    UniTaskName();
    ImageLoaderName();
    JsonName();
    CornersName();
    OpenUpmName();
    ShortVersions();
    JsonVersionNoClose();
    CornersVersionNoClose();
    forall i | 0 <= i < |Dependencies|
      ensures IsName(Dependencies[i].name) && '}' !in Dependencies[i].version
    {
      NoCloseHasNoBrace(Dependencies[i].version);
    }
  }
}
