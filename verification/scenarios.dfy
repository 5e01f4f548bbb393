/** Worked scenarios of the scanner on small concrete namespaces. */
module Scenarios {
  import opened Optional
  import opened PyStrings
  import opened Scanner

  /** `import numpy as np`: the module is reported under its own `__name__`,
      not under the alias it is bound to. */
  lemma NumpyAlias(registry: Registry)
    ensures PackageImports([Binding("np", Module(PyModule(Some("numpy"), Some("1.26.0"), None)))], registry)
         == [Record("numpy", Some("1.26.0"))]
  {
  }

  /** `from requests.models import Response`: the value is reported under the
      full module path, with the version of the loaded `requests` package. */
  lemma RequestsMember(registry: Registry)
    requires "requests" in registry && registry["requests"].dunderVersion == Some("2.31.0")
    ensures PackageImports([Binding("Response", Other(Some("requests.models")))], registry)
         == [Record("requests.models", Some("2.31.0"))]
  {
    assert "requests.models"[8] == '.' && "requests" <= "requests.models";
    TopLevelUnique("requests.models", "requests");
    PackageImportsSingle(Binding("Response", Other(Some("requests.models"))), registry);
  }

  /** A value from `alpha.beta.gamma` is looked up under `alpha`; its record
      keeps the full path and takes `alpha`'s `__version__`, even when
      `alpha` also has a different `version` attribute. */
  lemma AlphaBetaGamma(f: string)
    ensures var registry := map["alpha" := PyModule(Some("alpha"), Some("1.2.3"), Some("9.9"))];
            PackageImports([Binding(f, Other(Some("alpha.beta.gamma")))], registry)
              == [Record("alpha.beta.gamma", Some("1.2.3"))]
  {
    assert "alpha.beta.gamma"[5] == '.' && "alpha" <= "alpha.beta.gamma";
    TopLevelUnique("alpha.beta.gamma", "alpha");
    var registry := map["alpha" := PyModule(Some("alpha"), Some("1.2.3"), Some("9.9"))];
    PackageImportsSingle(Binding(f, Other(Some("alpha.beta.gamma"))), registry);
  }

  /** A value whose top-level package is not loaded gets no version. */
  lemma UnloadedPackage(f: string)
    ensures PackageImports([Binding(f, Other(Some("alpha.beta")))], map[]) == [Record("alpha.beta", None)]
  {
  }

  /** A module without `__name__` and without any version attribute is
      reported under its key with no version; a value without `__module__`
      (a plain number, say) is skipped. */
  lemma AnonymousModuleAndPlainValue(registry: Registry)
    ensures PackageImports([Binding("m", Module(PyModule(None, None, None))), Binding("x", Other(None))], registry)
         == [Record("m", None)]
  {
  }
}
