# Tag lookup and plugin registry of a Jinja2 configuration generator

This project models, in Dafny, the two pieces of logic of a small Jinja2 demo
that generates Terraform-like text from mock AWS resource records:

- **Tag lookup.** A resource record optionally carries a `Tags` list of
  `Key`/`Value` pairs. The plugin function `aws_tag` returns the value of the
  first tag whose key matches, or a default; a record without `Tags` raises
  `TagsKeyNotFoundError` carrying the record, unless `no_tags_ok` asks for the
  default instead. The demo script's older `get_tag` does the same scan but
  assumes `Tags` is present.
- **Plugin registry.** `PluginManager.load_plugin` imports a plugin module,
  calls its `load_plugin` to get a list of component descriptors
  (`J2Filter`, `J2Global`, `J2Extension`) and dispatches each, by its exact
  type, to a registration step on the template environment: filters and
  globals are bound by name (a taken name is overwritten with a warning),
  extensions are added, anything else is ignored with a warning. A missing
  module, a module without `load_plugin` and an empty component list leave
  the environment unchanged.

Layout:

- `wrappers.dfy` — `Option` and `Result`.
- `resources.dfy` — `Tag`, `Resource`, and the reference meaning of a lookup
  (`HasKey`, `IsFirstMatch`).
- `aws.dfy` — `aws_tag`, its error and the `aws` plugin's component list.
- `main_script.dfy` — the script's `get_tag`, as an imperative loop proved to
  agree with `aws_tag`.
- `plugin_registry.dfy` — the environment, the descriptors, the registration
  steps, their fold over a component list and plugin loading.

Modelling choices:

- The environment is reduced to the filter table, the global table and the
  registered extension classes. Callables and extension classes are opaque
  identifiers (their qualified names).
- Each step is a pure function returning the new environment and the
  warnings it logs, as abstract tokens.
- The dynamic import is an abstract map from plugin path to `PluginModule`.
  A path outside the map is a module that cannot be found. A module whose
  `loadPlugin` is `None` has no `load_plugin` attribute.
- Jinja2's `add_extension` stores extensions in a dictionary keyed by the
  extension's identifier. Registering a class a second time replaces its
  instance and does not add an entry. The model keeps the registered classes
  as a duplicate-free sequence in registration order (`PluginRegistry.Valid`).
- Dispatch is on `type(component)` exactly. An instance of a subclass of a
  descriptor class, or any other object, is `Unrecognised`.

## Model

| member | source | states |
|---|---|---|
| `Resources.FirstMatchExists` | plugins/aws.py:28-30 | if some tag has the key, a first such tag in list order exists, so "the value of the first match" is always defined |
| `Aws.Lookup` | plugins/aws.py:28-31 | the result is the value of the first tag, in list order, whose key matches; with no matching tag it is the default |
| `Aws.AwsTag` | plugins/aws.py:22-31 | fails exactly when `Tags` is absent and `no_tags_ok` is false, and the error carries the input record; absent `Tags` with `no_tags_ok` gives the default; present `Tags` gives the first match's value, or the default when no key matches |
| `Aws.AwsTagWithDefaults` | plugins/aws.py:22 | with `default` and `no_tags_ok` omitted, a missing key yields the empty string and a record without `Tags` raises the error carrying it |
| `Aws.ResultIsDefaultOrTagValue` | plugins/aws.py:24-31 | any successful result is the default or the value of some tag of the record; when it is not the default, the lemma returns that tag's index |
| `Aws.EmptyTagsYieldDefault` | plugins/aws.py:28-31 | an empty tag list yields the default for either value of `no_tags_ok` |
| `Aws.Components` | plugins/aws.py:6-10 | the plugin yields exactly two components, a filter followed by a global, both named `aws_tag` and bound to `aws_tag` |
| `Aws.LoadingAwsPlugin` | plugins/aws.py:6-10 | loading the plugin binds `aws_tag` as filter and as global, keeps every other binding and every extension, and logs exactly one overwrite warning per table in which the name was already taken, the filter table's first, and nothing else |
| `MainScript.GetTagWithDefault` | main.py:45-49 | with `default` omitted, a missing key yields the empty string, a present key the first match's value, and the result equals that of `aws_tag` with default `''` for both values of `no_tags_ok` |
| `MainScript.GetTag` | main.py:45-49 | on a record with `Tags`, returns the first matching tag's value or the default, and equals the successful result of `aws_tag` for both values of `no_tags_ok` |
| `PluginRegistry.Bind` | plugin_loader.py:72-74 | binding a name sets it to the new callable, keeps every other name's binding, and reports whether the name was taken |
| `PluginRegistry.LoadFilter` | plugin_loader.py:68-74 | the filter name is bound to the callable, other filters are kept, globals and extensions do not change, and one overwrite warning is logged exactly when the name was already a filter |
| `PluginRegistry.LoadGlobal` | plugin_loader.py:76-82 | the global name is bound to the callable, other globals are kept, filters and extensions do not change, and one overwrite warning is logged exactly when the name was already a global |
| `PluginRegistry.LoadExtension` | plugin_loader.py:84-87 | the extension class becomes registered, nothing else is added, earlier registrations keep their order, filters and globals do not change, and nothing is logged |
| `PluginRegistry.LoadComponent` | plugin_loader.py:60-66 | each descriptor variant goes to its own registration step; any other component leaves the environment unchanged and logs one invalid-component warning |
| `PluginRegistry.LoadComponents` | plugin_loader.py:54-56 | applying a component list keeps extension classes duplicate-free with the earlier registrations first, and logs at most one warning per component, each an overwrite or an invalid-component warning |
| `PluginRegistry.LoadPlugin` | plugin_loader.py:34-58 | a missing module, a module without `load_plugin`, or an empty component list leaves the environment unchanged with one warning; otherwise the components are loaded in order |
| `PluginRegistry.BindingUntouched` | plugin_loader.py:68-82 | a name that no component of the list binds keeps its binding, or its absence, in that table |
| `PluginRegistry.LastBindingWins` | plugin_loader.py:54-56 | when several components bind one name, the last of them in list order gives the final binding |
| `PluginRegistry.BoundNames` | plugin_loader.py:54-82 | after loading, a name is bound exactly when it was bound before or some component binds it |
| `PluginRegistry.RegisteredExtensions` | plugin_loader.py:54-87 | after loading, the registered extension classes are the earlier ones plus exactly those the components name |
| `PluginRegistry.ExtensionOrder` | plugin_loader.py:54-56 | extension classes not yet registered are registered in the order of their first occurrence in the component list |
| `PluginRegistry.OverwriteWarnings` | plugin_loader.py:72-81 | an overwrite warning for a name is logged exactly when a component binds it while it is already bound, either from before loading or by an earlier component (membership only) |
| `PluginRegistry.StepOverwriteCount` | plugin_loader.py:60-82 | one component logs an overwrite warning for a name exactly once when it binds that name while the name is bound, and otherwise none; afterwards the name is bound exactly when it was before or the component binds it |
| `PluginRegistry.OverwriteWarningCount` | plugin_loader.py:54-82 | the number of overwrite warnings for a name is the number of components binding it, less one when the name was free before loading |
| `PluginRegistry.InvalidComponentWarnings` | plugin_loader.py:62-65 | an invalid-component warning for a type is logged exactly when a component of that type is in the list |
| `PluginRegistry.InvalidComponentCount` | plugin_loader.py:62-65 | the number of invalid-component warnings for a type equals the number of components of that type in the list |

## Left out

- `plugins/infile.py`, the `infile` template tag, is not modelled. Its parsing is built on Jinja2's parser and node API. Its rendering calls the template engine. Its file writing is filesystem I/O.
- `main.py` outside `get_tag` is not modelled: `main()`, `separate_file`, the sample `DATA` and the printing are template rendering and output.
- `_import_module` is not modelled as such: `importlib` is replaced by the abstract `modules` map. Import errors other than a missing module, which the source lets propagate, are not modelled.
- A plugin's `load_plugin(j2_env)` is modelled as a fixed component list. A loader that reads or changes the environment itself is not modelled; the plugins in the repository ignore it.
- `PluginRegistry.LoadExtension`: `add_extension` runs the extension's constructor against the live environment each time, and a constructor may bind filters or globals itself (Jinja2's own i18n extension binds the global `_`). The model assumes the constructor binds nothing, as the repository's only extension, whose constructor just calls its base class, does not. `PluginRegistry.BindingUntouched` and `PluginRegistry.BoundNames` rest on that assumption.
- `PluginRegistry.OverwriteWarnings` and `PluginRegistry.OverwriteWarningCount` give the membership and the number of overwrite warnings, not their positions among the other warnings.
- `PluginRegistry.LoadPlugin` is total and does not model the exceptions `load_plugin` lets propagate: a `load_plugin` attribute that is not callable, a loader that raises, or a return value without `len()`. Nor does it model an `add_extension` that raises partway through the loop (an extension constructor that fails, or a class without `identifier`), which leaves the earlier components of the list registered.
- Log message text, log levels and the debug messages are not modelled. Warnings are tokens.
- Jinja2 `Environment` internals are not modelled, beyond the two name tables and the set of registered extension classes. The fresh extension instance that re-adding a class creates is not visible in the model.
- The model's `Tags` is a list of tags that each carry a `Key` and a `Value`; the model's types rule out every other record. Some of those records the source handles without error: any iterable `Tags`, such as a tuple, is scanned like a list; `Key` is read only from the tags the scan reaches, so a malformed tag after the first match is never looked at; `Value` is read only from the first matching tag, so a tag without `Value` whose key does not match is harmless. Only a `Tags` of `None` or a non-iterable value raises `TypeError` at once. A reached tag that is not a mapping (a string, a list, `None`) raises `TypeError`; a reached mapping tag without `Key`, or a matching mapping tag without `Value`, raises `KeyError`.
- `TagsKeyNotFoundError.message`, the formatted text of the error, is not modelled. The error carries only the record.
- `MainScript.GetTag` and `MainScript.GetTagWithDefault`: a record without `Tags` makes `get_tag` raise `KeyError`. The model states this as a precondition rather than as an error result.
