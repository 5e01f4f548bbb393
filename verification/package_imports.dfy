/** The namespace package scanner `package_imports`: walks the bindings of a
    namespace and reports a `(package_name, version)` record for each module
    and for each other object that has a `__module__` attribute. */
module Scanner {
  import opened Optional
  import opened PyStrings

  /** A module object, reduced to the three attributes the scanner reads.
      Each is `None` exactly when `hasattr` on it would be false. */
  datatype PyModule = PyModule(
    name: Option<string>,          // `__name__`
    dunderVersion: Option<string>, // `__version__`
    version: Option<string>        // `version`
  )

  /** A value bound in the namespace: a module object, or any other object
      together with its `__module__` attribute when it has one. */
  datatype Value =
    | Module(m: PyModule)
    | Other(moduleAttr: Option<string>)

  /** One `name -> value` entry of the namespace, in iteration order. */
  datatype Binding = Binding(key: string, obj: Value)

  /** One yielded `(package_name, version)` pair. */
  datatype Record = Record(packageName: string, version: Option<string>)

  /** The loaded-module table that the scanner consults (`sys.modules`). */
  type Registry = map<string, PyModule>

  /** Whether a binding's value yields a record at all. */
  predicate Emits(v: Value) {
    v.Module? || v.moduleAttr.Some?
  }

  /** The version reported for a module bound in the namespace:
      `__version__` when it has one, otherwise `version`, otherwise none. */
  function ModuleVersion(m: PyModule): (v: Option<string>)
    // `__version__` takes precedence over `version`
    ensures m.dunderVersion.Some? ==> v == m.dunderVersion
    ensures m.dunderVersion.None? ==> v == m.version
    // a version is reported exactly when one of the two attributes exists
    ensures v.Some? <==> m.dunderVersion.Some? || m.version.Some?
  {
    if m.dunderVersion.Some? then m.dunderVersion
    else if m.version.Some? then m.version
    else None
  }

  /** The version reported for a value imported from the module at dotted
      path `origin`: the `__version__` of the registered module named by the
      top-level segment of `origin`, or none. */
  function MemberVersion(origin: string, registry: Registry): (v: Option<string>)
    // a version is reported exactly when the top-level package is loaded
    // and has `__version__`
    ensures v.Some? <==> TopLevel(origin) in registry && registry[TopLevel(origin)].dunderVersion.Some?
    // and then it is that `__version__`; the `version` attribute is never read
    ensures v.Some? ==> v == registry[TopLevel(origin)].dunderVersion
  {
    var packageName := TopLevel(origin);
    if packageName in registry then registry[packageName].dunderVersion
    else None
  }

  /** The record one binding contributes, if any. */
  function Emit(b: Binding, registry: Registry): (r: Option<Record>)
    // exactly the modules and the values with a `__module__` yield a record
    ensures r.Some? <==> Emits(b.obj)
    // a module is reported under `__name__`, falling back to the binding's key
    ensures b.obj.Module? && b.obj.m.name.Some? ==> r.value.packageName == b.obj.m.name.value
    ensures b.obj.Module? && b.obj.m.name.None? ==> r.value.packageName == b.key
    ensures b.obj.Module? ==> r.value.version == ModuleVersion(b.obj.m)
    // any other value is reported under its full `__module__` path
    ensures b.obj.Other? && r.Some? ==> r.value.packageName == b.obj.moduleAttr.value
    ensures b.obj.Other? && r.Some? ==> r.value.version == MemberVersion(b.obj.moduleAttr.value, registry)
  {
    match b.obj
    case Module(m) => Some(Record(m.name.OrElse(b.key), ModuleVersion(m)))
    case Other(moduleAttr) =>
      match moduleAttr
      case Some(origin) => Some(Record(origin, MemberVersion(origin, registry)))
      case None => None
  }

  /** All records of a namespace, in the namespace's iteration order. */
  function PackageImports(namespace: seq<Binding>, registry: Registry): (records: seq<Record>)
    // each binding contributes at most one record
    ensures |records| <= |namespace|
    decreases |namespace|
  {
    if namespace == [] then []
    else Emit(namespace[0], registry).ToSeq() + PackageImports(namespace[1..], registry)
  }

  /** The scan distributes over concatenation of namespaces: the records of
      the first part come first, in order, followed by those of the second. */
  lemma {:induction false} PackageImportsAppend(a: seq<Binding>, b: seq<Binding>, registry: Registry)
    ensures PackageImports(a + b, registry) == PackageImports(a, registry) + PackageImports(b, registry)
    decreases |a|
  {
    if a == [] {
      assert a + b == b;
    } else {
      var head := Emit(a[0], registry).ToSeq();
      assert (a + b)[0] == a[0] && (a + b)[1..] == a[1..] + b;
      assert PackageImports(a + b, registry) == head + PackageImports(a[1..] + b, registry);
      PackageImportsAppend(a[1..], b, registry);
      assert PackageImports(a, registry) == head + PackageImports(a[1..], registry);
    }
  }

  /** A namespace of one binding yields exactly that binding's record, if any. */
  lemma PackageImportsSingle(b: Binding, registry: Registry)
    ensures PackageImports([b], registry) == Emit(b, registry).ToSeq()
  {
  }

  /** Every binding is answered by exactly its own record, or by nothing. */
  lemma {:induction false} RecordsAreInOrder(namespace: seq<Binding>, i: nat, registry: Registry)
    requires i < |namespace|
    ensures PackageImports(namespace, registry)
         == PackageImports(namespace[..i], registry)
          + Emit(namespace[i], registry).ToSeq()
          + PackageImports(namespace[i + 1..], registry)
  {
    assert namespace == namespace[..i] + ([namespace[i]] + namespace[i + 1..]);
    PackageImportsAppend(namespace[..i], [namespace[i]] + namespace[i + 1..], registry);
    PackageImportsAppend([namespace[i]], namespace[i + 1..], registry);
    PackageImportsSingle(namespace[i], registry);
  }

  /** A binding that yields nothing can be dropped without changing the output. */
  lemma SkippedBindingIsInvisible(a: seq<Binding>, b: Binding, c: seq<Binding>, registry: Registry)
    requires !Emits(b.obj)
    ensures PackageImports(a + [b] + c, registry) == PackageImports(a + c, registry)
  {
    PackageImportsAppend(a + [b], c, registry);
    PackageImportsAppend(a, [b], registry);
    PackageImportsSingle(b, registry);
    PackageImportsAppend(a, c, registry);
  }

  /** The output is as long as the namespace exactly when every binding emits. */
  lemma {:induction false} FullLengthIffAllEmit(namespace: seq<Binding>, registry: Registry)
    ensures |PackageImports(namespace, registry)| == |namespace|
        <==> forall i :: 0 <= i < |namespace| ==> Emits(namespace[i].obj)
    decreases |namespace|
  {
    if namespace != [] {
      FullLengthIffAllEmit(namespace[1..], registry);
      assert forall i :: 1 <= i < |namespace| ==> namespace[i] == namespace[1..][i - 1];
      if !Emits(namespace[0].obj) {
        assert |PackageImports(namespace, registry)| <= |namespace| - 1;
      }
    }
  }

  /** Every record of a binding reaches the output: the output contains `r`
      exactly when some binding's record is `r`. */
  lemma {:induction false} RecordMembership(namespace: seq<Binding>, registry: Registry, r: Record)
    ensures r in PackageImports(namespace, registry)
        <==> exists i :: 0 <= i < |namespace| && Emit(namespace[i], registry) == Some(r)
    decreases |namespace|
  {
    if namespace != [] {
      var head, rest := Emit(namespace[0], registry).ToSeq(), PackageImports(namespace[1..], registry);
      assert PackageImports(namespace, registry) == head + rest;
      RecordMembership(namespace[1..], registry, r);
      if r in rest {
        var j :| 0 <= j < |namespace[1..]| && Emit(namespace[1..][j], registry) == Some(r);
        assert Emit(namespace[j + 1], registry) == Some(r);
      }
      if exists i :: 0 <= i < |namespace| && Emit(namespace[i], registry) == Some(r) {
        var i :| 0 <= i < |namespace| && Emit(namespace[i], registry) == Some(r);
        if i > 0 {
          assert namespace[1..][i - 1] == namespace[i];
        }
      }
    }
  }

  /** A namespace holding only modules yields one record per binding, at the
      same position: `(__name__ or key, __version__ or version or None)`. */
  lemma {:induction false} ModulesOnly(namespace: seq<Binding>, registry: Registry)
    requires forall i :: 0 <= i < |namespace| ==> namespace[i].obj.Module?
    ensures |PackageImports(namespace, registry)| == |namespace|
    ensures forall i :: 0 <= i < |namespace| ==>
              PackageImports(namespace, registry)[i]
                == Record(namespace[i].obj.m.name.OrElse(namespace[i].key), ModuleVersion(namespace[i].obj.m))
    decreases |namespace|
  {
    if namespace != [] {
      ModulesOnly(namespace[1..], registry);
      var rest := PackageImports(namespace[1..], registry);
      var records := PackageImports(namespace, registry);
      assert records == [Emit(namespace[0], registry).value] + rest;
      forall i | 1 <= i < |namespace|
        ensures records[i] == Record(namespace[i].obj.m.name.OrElse(namespace[i].key), ModuleVersion(namespace[i].obj.m))
      {
        assert records[i] == rest[i - 1];
        assert namespace[1..][i - 1] == namespace[i];
      }
    }
  }

  /** A module's `version` attribute is invisible to the scan once the module
      has `__version__`: replacing it anywhere leaves the output unchanged. */
  lemma DunderVersionShadowsVersion(namespace: seq<Binding>, i: nat, version: Option<string>, registry: Registry)
    requires i < |namespace|
    requires namespace[i].obj.Module? && namespace[i].obj.m.dunderVersion.Some?
    ensures var b := namespace[i];
            PackageImports(namespace[i := Binding(b.key, Module(b.obj.m.(version := version)))], registry)
              == PackageImports(namespace, registry)
  {
    var b := namespace[i];
    var changed := namespace[i := Binding(b.key, Module(b.obj.m.(version := version)))];
    RecordsAreInOrder(namespace, i, registry);
    RecordsAreInOrder(changed, i, registry);
    assert changed[..i] == namespace[..i] && changed[i + 1..] == namespace[i + 1..];
  }

  /** The version of an imported value depends only on the registry entry of
      its top-level package: any two registries that agree there agree. */
  lemma MemberVersionReadsOnlyTopLevel(origin: string, r1: Registry, r2: Registry)
    requires TopLevel(origin) in r1 <==> TopLevel(origin) in r2
    requires TopLevel(origin) in r1 ==> r1[TopLevel(origin)].dunderVersion == r2[TopLevel(origin)].dunderVersion
    ensures MemberVersion(origin, r1) == MemberVersion(origin, r2)
  {
  }

  /** The `version` attribute and `__name__` of the registered top-level
      module never influence an imported value's version. */
  lemma MemberVersionIgnoresOtherAttributes(origin: string, registry: Registry, name: Option<string>, version: Option<string>)
    requires TopLevel(origin) in registry
    ensures var pkg := TopLevel(origin);
            MemberVersion(origin, registry[pkg := registry[pkg].(name := name, version := version)])
              == MemberVersion(origin, registry)
  {
  }

  /** The generator itself: visits the bindings in order and appends each
      record as it would be yielded. It produces exactly `PackageImports`. */
  method Scan(namespace: seq<Binding>, registry: Registry) returns (records: seq<Record>)
    ensures records == PackageImports(namespace, registry)
  {
    records := [];
    for i := 0 to |namespace|
      invariant records == PackageImports(namespace[..i], registry)
    {
      var name, obj := namespace[i].key, namespace[i].obj;
      match obj {
        case Module(m) =>
          var version := ModuleVersion(m);
          var packageName := if m.name.Some? then m.name.value else name;
          records := records + [Record(packageName, version)];
        case Other(moduleAttr) =>
          if moduleAttr.Some? {
            var version := MemberVersion(moduleAttr.value, registry);
            records := records + [Record(moduleAttr.value, version)];
          }
      }
      assert namespace[..i + 1] == namespace[..i] + [namespace[i]];
      PackageImportsAppend(namespace[..i], [namespace[i]], registry);
      PackageImportsSingle(namespace[i], registry);
    }
    assert namespace[..|namespace|] == namespace;
  }
}
