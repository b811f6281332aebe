/**
  The plugin registry of `PluginManager`: a plugin module yields a list of
  component descriptors, and each descriptor is dispatched on its exact
  variant to a registration step against a template environment.

  The environment is reduced to what registration touches: the filter table,
  the global table and the registered extension classes. Callables and
  extension classes are opaque identifiers. Every step is a pure function
  from the old environment to the new one plus the warnings it logs.
 */
module PluginRegistry {
  import opened Wrappers

  /** An opaque Python callable, identified by its qualified name. */
  datatype Callable = Callable(qualName: string)

  /** An opaque `jinja2.ext.Extension` subclass, identified by its qualified name. */
  datatype ExtensionClass = ExtensionClass(qualName: string)

  /**
    A component descriptor returned by a plugin's `load_plugin`. The dispatch
    is on the exact type, so any other object, including an instance of a
    subclass of a descriptor class, is `Unrecognised`.
   */
  datatype Component =
    | J2Filter(fn: Callable, name: string)
    | J2Global(fn: Callable, name: string)
    | J2Extension(extension: ExtensionClass)
    | Unrecognised(typeName: string)

  /** The part of a template environment that plugin registration reads and writes. */
  datatype Env = Env(
    filters: map<string, Callable>,
    globals: map<string, Callable>,
    extensions: seq<ExtensionClass>)

  /** The two name-keyed tables a component can bind into. */
  datatype Registry = FilterRegistry | GlobalRegistry

  /** Abstract log entries; message text and log levels are not modelled. */
  datatype Warning =
    | Overwritten(registry: Registry, name: string)
    | InvalidComponent(typeName: string)
    | ModuleNotFound(path: string)
    | MissingLoadPlugin(path: string)
    | EmptyPlugin(path: string)

  /** The environment after a step, with the warnings the step logged, in order. */
  datatype Loaded = Loaded(env: Env, warnings: seq<Warning>)

  /**
    A plugin module as the dynamic import sees it: `loadPlugin` is `None`
    when the module has no `load_plugin` attribute, and otherwise holds the
    component list that calling it returns.
   */
  datatype PluginModule = PluginModule(loadPlugin: Option<seq<Component>>)

  /** The table of `env` that `reg` names. */
  function Table(env: Env, reg: Registry): map<string, Callable> {
    match reg
    case FilterRegistry => env.filters
    case GlobalRegistry => env.globals
  }

  /** Component `c` is the descriptor variant that registers into the table `reg`. */
  predicate Targets(c: Component, reg: Registry) {
    match reg
    case FilterRegistry => c.J2Filter?
    case GlobalRegistry => c.J2Global?
  }

  /** Component `c` binds the name `n` in the table `reg`. */
  predicate Binds(c: Component, reg: Registry, n: string) {
    Targets(c, reg) && c.name == n
  }

  /** Extension classes are kept once each, as the environment's extension dictionary does. */
  predicate Valid(env: Env) {
    forall i, j :: 0 <= i < j < |env.extensions| ==> env.extensions[i] != env.extensions[j]
  }

  /**
    Binds `name` to `fn` in `table`, overwriting any earlier binding, and
    reports whether there was one.
   */
  function Bind(table: map<string, Callable>, name: string, fn: Callable): (r: (map<string, Callable>, bool))
    ensures name in r.0 && r.0[name] == fn
    ensures r.0.Keys == table.Keys + {name}
    ensures forall n :: n in table && n != name ==> r.0[n] == table[n]
    ensures r.1 <==> name in table
  {
    (table[name := fn], name in table)
  }

  /** `_load_jinja2_filter`: register a filter, warning when the name is taken. */
  function LoadFilter(env: Env, fn: Callable, name: string): (r: Loaded)
    ensures name in r.env.filters && r.env.filters[name] == fn
    ensures r.env.filters.Keys == env.filters.Keys + {name}
    ensures forall n :: n in env.filters && n != name ==> r.env.filters[n] == env.filters[n]
    ensures r.env.globals == env.globals && r.env.extensions == env.extensions
    ensures r.warnings != [] <==> name in env.filters
    ensures forall w :: w in r.warnings ==> w == Overwritten(FilterRegistry, name)
    ensures |r.warnings| <= 1
  {
    var (filters, taken) := Bind(env.filters, name, fn);
    Loaded(env.(filters := filters), if taken then [Overwritten(FilterRegistry, name)] else [])
  }

  /** `_load_jinja2_global`: register a global, warning when the name is taken. */
  function LoadGlobal(env: Env, fn: Callable, name: string): (r: Loaded)
    ensures name in r.env.globals && r.env.globals[name] == fn
    ensures r.env.globals.Keys == env.globals.Keys + {name}
    ensures forall n :: n in env.globals && n != name ==> r.env.globals[n] == env.globals[n]
    ensures r.env.filters == env.filters && r.env.extensions == env.extensions
    ensures r.warnings != [] <==> name in env.globals
    ensures forall w :: w in r.warnings ==> w == Overwritten(GlobalRegistry, name)
    ensures |r.warnings| <= 1
  {
    var (globals, taken) := Bind(env.globals, name, fn);
    Loaded(env.(globals := globals), if taken then [Overwritten(GlobalRegistry, name)] else [])
  }

  /**
    `_load_jinja2_extension`: `add_extension` records the class; a class
    that is already registered is replaced by a fresh instance, which leaves
    the set of registered classes as it was.
   */
  function LoadExtension(env: Env, ext: ExtensionClass): (r: Loaded)
    ensures ext in r.env.extensions
    ensures forall x :: x in r.env.extensions <==> x in env.extensions || x == ext
    ensures env.extensions <= r.env.extensions
    ensures Valid(env) ==> Valid(r.env)
    ensures r.env.filters == env.filters && r.env.globals == env.globals
    ensures r.warnings == []
  {
    if ext in env.extensions then Loaded(env, [])
    else Loaded(env.(extensions := env.extensions + [ext]), [])
  }

  /** `_load_component`: dispatch on the exact variant; anything else is ignored with a warning. */
  function LoadComponent(env: Env, c: Component): (r: Loaded)
    ensures c.J2Filter? ==> r == LoadFilter(env, c.fn, c.name)
    ensures c.J2Global? ==> r == LoadGlobal(env, c.fn, c.name)
    ensures c.J2Extension? ==> r == LoadExtension(env, c.extension)
    ensures c.Unrecognised? ==> r.env == env && r.warnings == [InvalidComponent(c.typeName)]
    ensures Valid(env) ==> Valid(r.env)
    ensures |r.warnings| <= 1
  {
    match c
    case J2Filter(fn, name) => LoadFilter(env, fn, name)
    case J2Global(fn, name) => LoadGlobal(env, fn, name)
    case J2Extension(ext) => LoadExtension(env, ext)
    case Unrecognised(t) => Loaded(env, [InvalidComponent(t)])
  }

  /** The loop of `load_plugin`: apply the components in list order. */
  function LoadComponents(env: Env, cs: seq<Component>): (r: Loaded)
    ensures Valid(env) ==> Valid(r.env)
    ensures |r.warnings| <= |cs|
    ensures env.extensions <= r.env.extensions
    ensures forall w :: w in r.warnings ==> w.Overwritten? || w.InvalidComponent?
    decreases |cs|
  {
    if cs == [] then Loaded(env, [])
    else
      var first := LoadComponent(env, cs[0]);
      var rest := LoadComponents(first.env, cs[1..]);
      Loaded(rest.env, first.warnings + rest.warnings)
  }

  /**
    `PluginManager.load_plugin`: import the module at `path` through the
    abstract `modules` map, fetch its component list and load it. A missing
    module, a module without `load_plugin` and an empty component list each
    leave the environment as it was and log one warning.
   */
  function LoadPlugin(env: Env, modules: map<string, PluginModule>, path: string): (r: Loaded)
    ensures path !in modules ==> r == Loaded(env, [ModuleNotFound(path)])
    ensures path in modules && modules[path].loadPlugin.None? ==> r == Loaded(env, [MissingLoadPlugin(path)])
    ensures path in modules && modules[path].loadPlugin == Some([]) ==> r == Loaded(env, [EmptyPlugin(path)])
    ensures path in modules && modules[path].loadPlugin.Some? && modules[path].loadPlugin.value != [] ==>
      r == LoadComponents(env, modules[path].loadPlugin.value)
    ensures Valid(env) ==> Valid(r.env)
  {
    if path !in modules then Loaded(env, [ModuleNotFound(path)])
    else match modules[path].loadPlugin
      case None => Loaded(env, [MissingLoadPlugin(path)])
      case Some(cs) =>
        if |cs| == 0 then Loaded(env, [EmptyPlugin(path)])
        else LoadComponents(env, cs)
  }

  // ---------------------------------------------------------------------------
  // Properties of the fold
  // ---------------------------------------------------------------------------

  /** A name no component binds keeps its binding, or its absence, in that table. */
  lemma {:induction false} BindingUntouched(env: Env, cs: seq<Component>, reg: Registry, n: string)
    requires forall j :: 0 <= j < |cs| ==> !Binds(cs[j], reg, n)
    ensures var t := Table(LoadComponents(env, cs).env, reg);
      (n in t <==> n in Table(env, reg)) && (n in t ==> t[n] == Table(env, reg)[n])
    decreases |cs|
  {
    if cs != [] {
      assert !Binds(cs[0], reg, n);
      var first := LoadComponent(env, cs[0]);
      BindingUntouched(first.env, cs[1..], reg, n);
    }
  }

  /** When several components bind one name, the last of them gives the final binding. */
  lemma {:induction false} LastBindingWins(env: Env, cs: seq<Component>, reg: Registry, i: int)
    requires 0 <= i < |cs| && Targets(cs[i], reg)
    requires forall j :: i < j < |cs| ==> !Binds(cs[j], reg, cs[i].name)
    ensures var t := Table(LoadComponents(env, cs).env, reg);
      cs[i].name in t && t[cs[i].name] == cs[i].fn
    decreases |cs|
  {
    var first := LoadComponent(env, cs[0]);
    if i == 0 {
      BindingUntouched(first.env, cs[1..], reg, cs[0].name);
    } else {
      LastBindingWins(first.env, cs[1..], reg, i - 1);
    }
  }

  /** After loading, a name is bound in a table exactly when it was before or some component binds it. */
  lemma {:induction false} BoundNames(env: Env, cs: seq<Component>, reg: Registry, n: string)
    ensures n in Table(LoadComponents(env, cs).env, reg)
      <==> n in Table(env, reg) || exists j :: 0 <= j < |cs| && Binds(cs[j], reg, n)
    decreases |cs|
  {
    if cs != [] {
      var first := LoadComponent(env, cs[0]);
      BoundNames(first.env, cs[1..], reg, n);
      assert n in Table(first.env, reg) <==> n in Table(env, reg) || Binds(cs[0], reg, n);
      if exists j :: 0 <= j < |cs| && Binds(cs[j], reg, n) {
        var j :| 0 <= j < |cs| && Binds(cs[j], reg, n);
        if j > 0 {
          assert Binds(cs[1..][j - 1], reg, n);
        }
      }
      if exists j :: 0 <= j < |cs[1..]| && Binds(cs[1..][j], reg, n) {
        var j :| 0 <= j < |cs[1..]| && Binds(cs[1..][j], reg, n);
        assert Binds(cs[j + 1], reg, n);
      }
    }
  }

  /** Loading registers exactly the extension classes the components name, on top of the old ones. */
  lemma {:induction false} RegisteredExtensions(env: Env, cs: seq<Component>)
    ensures forall x :: x in LoadComponents(env, cs).env.extensions <==> x in env.extensions || J2Extension(x) in cs
    decreases |cs|
  {
    if cs != [] {
      var first := LoadComponent(env, cs[0]);
      RegisteredExtensions(first.env, cs[1..]);
      assert cs == [cs[0]] + cs[1..];
    }
  }

  /** `x` occurs in `s` at an earlier position than `y`. */
  predicate Before<T(==)>(s: seq<T>, x: T, y: T) {
    exists p, q :: 0 <= p < q < |s| && s[p] == x && s[q] == y
  }

  /**
    Extension classes that were not registered yet are registered in the
    order of their first occurrence in the component list.
   */
  lemma {:induction false} ExtensionOrder(env: Env, cs: seq<Component>, i: int, j: int)
    requires 0 <= i < j < |cs| && cs[i].J2Extension? && cs[j].J2Extension?
    requires forall k :: 0 <= k < i ==> cs[k] != cs[i]
    requires forall k :: 0 <= k < j ==> cs[k] != cs[j]
    requires cs[i].extension !in env.extensions && cs[j].extension !in env.extensions
    ensures Before(LoadComponents(env, cs).env.extensions, cs[i].extension, cs[j].extension)
    decreases |cs|
  {
    var x, y := cs[i].extension, cs[j].extension;
    var first := LoadComponent(env, cs[0]);
    var r := LoadComponents(env, cs);
    if i == 0 {
      assert first.env.extensions == env.extensions + [x];
      assert y !in first.env.extensions;
      RegisteredExtensions(first.env, cs[1..]);
      assert cs[1..][j - 1] == cs[j];
      assert y in r.env.extensions;
      var q :| 0 <= q < |r.env.extensions| && r.env.extensions[q] == y;
      var p := |env.extensions|;
      assert r.env.extensions[p] == first.env.extensions[p] == x;
      assert forall t :: 0 <= t < |first.env.extensions| ==> r.env.extensions[t] == first.env.extensions[t];
      assert q >= |first.env.extensions|;
      assert Before(r.env.extensions, x, y);
    } else {
      assert cs[0] != cs[i] && cs[0] != cs[j];
      assert first.env.extensions == env.extensions || first.env.extensions == env.extensions + [cs[0].extension];
      forall k | 0 <= k < i - 1
        ensures cs[1..][k] != cs[1..][i - 1]
      {
        assert cs[1..][k] == cs[k + 1];
      }
      forall k | 0 <= k < j - 1
        ensures cs[1..][k] != cs[1..][j - 1]
      {
        assert cs[1..][k] == cs[k + 1];
      }
      ExtensionOrder(first.env, cs[1..], i - 1, j - 1);
    }
  }

  /** The number of components of `cs` that bind `n` in the table `reg`. */
  function BindCount(cs: seq<Component>, reg: Registry, n: string): nat
    decreases |cs|
  {
    if cs == [] then 0
    else (if Binds(cs[0], reg, n) then 1 else 0) + BindCount(cs[1..], reg, n)
  }

  /**
    Loading warns that `n` was overwritten exactly when some component binds
    `n` while it is already bound: either it was bound before loading, or a
    second component binds it again.
   */
  lemma {:induction false} OverwriteWarnings(env: Env, cs: seq<Component>, reg: Registry, n: string)
    ensures Overwritten(reg, n) in LoadComponents(env, cs).warnings
      <==> BindCount(cs, reg, n) >= 1 && (n in Table(env, reg) || BindCount(cs, reg, n) >= 2)
    decreases |cs|
  {
    if cs != [] {
      var first := LoadComponent(env, cs[0]);
      OverwriteWarnings(first.env, cs[1..], reg, n);
      if Binds(cs[0], reg, n) {
        assert n in Table(first.env, reg);
        assert Overwritten(reg, n) in first.warnings <==> n in Table(env, reg);
      } else {
        assert Overwritten(reg, n) !in first.warnings;
        assert n in Table(first.env, reg) <==> n in Table(env, reg);
      }
    }
  }

  /** The number of occurrences of `x` in `s`. */
  function Occurrences<T(==)>(s: seq<T>, x: T): nat
    decreases |s|
  {
    if s == [] then 0 else (if s[0] == x then 1 else 0) + Occurrences(s[1..], x)
  }

  /** Occurrences in a concatenation add up. */
  lemma {:induction false} OccurrencesAppend<T>(a: seq<T>, b: seq<T>, x: T)
    ensures Occurrences(a + b, x) == Occurrences(a, x) + Occurrences(b, x)
    decreases |a|
  {
    if a == [] {
      assert a + b == b;
    } else {
      assert (a + b)[0] == a[0];
      assert (a + b)[1..] == a[1..] + b;
      OccurrencesAppend(a[1..], b, x);
    }
  }

  /** One component logs an overwrite warning for `n` exactly when it binds `n` while `n` is bound. */
  lemma StepOverwriteCount(env: Env, c: Component, reg: Registry, n: string)
    ensures Occurrences(LoadComponent(env, c).warnings, Overwritten(reg, n))
      == if Binds(c, reg, n) && n in Table(env, reg) then 1 else 0
    ensures n in Table(LoadComponent(env, c).env, reg) <==> n in Table(env, reg) || Binds(c, reg, n)
  {
  }

  /**
    One overwrite warning is logged per component that binds `n` while it is
    bound, so their number is the number of binders, less one when the name
    was free before loading.
   */
  lemma {:induction false} OverwriteWarningCount(env: Env, cs: seq<Component>, reg: Registry, n: string)
    ensures Occurrences(LoadComponents(env, cs).warnings, Overwritten(reg, n))
      == if BindCount(cs, reg, n) == 0 then 0
         else if n in Table(env, reg) then BindCount(cs, reg, n)
         else BindCount(cs, reg, n) - 1
    decreases |cs|
  {
    if cs != [] {
      var first := LoadComponent(env, cs[0]);
      var rest := LoadComponents(first.env, cs[1..]);
      StepOverwriteCount(env, cs[0], reg, n);
      OverwriteWarningCount(first.env, cs[1..], reg, n);
      OccurrencesAppend(first.warnings, rest.warnings, Overwritten(reg, n));
    }
  }

  /** Every unrecognised component, and only those, leaves an invalid-component warning. */
  lemma {:induction false} InvalidComponentWarnings(env: Env, cs: seq<Component>, t: string)
    ensures InvalidComponent(t) in LoadComponents(env, cs).warnings <==> Unrecognised(t) in cs
    decreases |cs|
  {
    if cs != [] {
      var first := LoadComponent(env, cs[0]);
      InvalidComponentWarnings(first.env, cs[1..], t);
      assert cs == [cs[0]] + cs[1..];
    }
  }

  /** One invalid-component warning is logged per unrecognised component of that type. */
  lemma {:induction false} InvalidComponentCount(env: Env, cs: seq<Component>, t: string)
    ensures Occurrences(LoadComponents(env, cs).warnings, InvalidComponent(t)) == Occurrences(cs, Unrecognised(t))
    decreases |cs|
  {
    if cs != [] {
      var first := LoadComponent(env, cs[0]);
      var rest := LoadComponents(first.env, cs[1..]);
      InvalidComponentCount(first.env, cs[1..], t);
      OccurrencesAppend(first.warnings, rest.warnings, InvalidComponent(t));
      assert Occurrences(first.warnings, InvalidComponent(t)) == if cs[0] == Unrecognised(t) then 1 else 0;
    }
  }
}
