/**
  The `aws` plugin: the `aws_tag` lookup over a resource record, its typed
  error, and the component list its `load_plugin` hands to the registry.
 */
module Aws {
  import opened Wrappers
  import opened Resources
  import PluginRegistry

  /** `TagsKeyNotFoundError`: raised for a record without `Tags`; it carries that record. */
  datatype TagsKeyNotFound = TagsKeyNotFound(obj: Resource)

  /** The identifier under which the `aws_tag` callable is handed to the registry. */
  const AwsTagCallable := PluginRegistry.Callable("plugins.aws.aws_tag")

  /** The `for` loop of `aws_tag`: the value of the first tag whose key is `k`, else `default`. */
  function Lookup(tags: seq<Tag>, k: string, default: string): (r: string)
    ensures forall i :: IsFirstMatch(tags, k, i) ==> r == tags[i].value
    ensures !HasKey(tags, k) ==> r == default
    decreases |tags|
  {
    if tags == [] then default
    else if tags[0].key == k then tags[0].value
    else
      var r := Lookup(tags[1..], k, default);
      assert forall i :: IsFirstMatch(tags, k, i) ==> IsFirstMatch(tags[1..], k, i - 1);
      assert HasKey(tags[1..], k) ==> HasKey(tags, k);
      r
  }

  /**
    `aws_tag(obj, k, default, no_tags_ok)`. A record without `Tags` raises
    unless `no_tags_ok`, in which case it yields `default`.
   */
  function AwsTag(obj: Resource, k: string, default: string, noTagsOk: bool): (r: Result<string, TagsKeyNotFound>)
    ensures r.Failure? <==> obj.tags.None? && !noTagsOk
    ensures r.Failure? ==> r.error.obj == obj
    ensures obj.tags.None? && noTagsOk ==> r == Success(default)
    ensures obj.tags.Some? ==> forall i :: IsFirstMatch(obj.tags.value, k, i) ==> r == Success(obj.tags.value[i].value)
    ensures obj.tags.Some? && !HasKey(obj.tags.value, k) ==> r == Success(default)
  {
    match obj.tags
    case None => if noTagsOk then Success(default) else Failure(TagsKeyNotFound(obj))
    case Some(tags) => Success(Lookup(tags, k, default))
  }

  /** `aws_tag(obj, k)`: both optional parameters at their defaults, `''` and `False`. */
  function AwsTagWithDefaults(obj: Resource, k: string): (r: Result<string, TagsKeyNotFound>)
    ensures obj.tags.None? ==> r == Failure(TagsKeyNotFound(obj))
    ensures obj.tags.Some? && !HasKey(obj.tags.value, k) ==> r == Success("")
    ensures obj.tags.Some? ==> forall i :: IsFirstMatch(obj.tags.value, k, i) ==> r == Success(obj.tags.value[i].value)
  {
    AwsTag(obj, k, "", false)
  }

  /**
    A successful lookup yields `default` or the value of some tag of the
    record; when it is not `default`, the index `i` of that tag is returned.
    It never invents a string.
   */
  lemma ResultIsDefaultOrTagValue(obj: Resource, k: string, default: string, noTagsOk: bool, v: string)
      returns (i: int)
    requires AwsTag(obj, k, default, noTagsOk) == Success(v)
    ensures v != default ==> obj.tags.Some? && 0 <= i < |obj.tags.value| && obj.tags.value[i].value == v
  {
    i := 0;
    if obj.tags.Some? && HasKey(obj.tags.value, k) {
      i := FirstMatchExists(obj.tags.value, k);
    }
  }

  /** A record whose tag list is empty always yields `default`, whatever `no_tags_ok` says. */
  lemma EmptyTagsYieldDefault(obj: Resource, k: string, default: string, noTagsOk: bool)
    requires obj.tags == Some([])
    ensures AwsTag(obj, k, default, noTagsOk) == Success(default)
  {
  }

  /** `load_plugin`: a filter, then a global, both named `aws_tag` and bound to `aws_tag`. */
  function Components(): (cs: seq<PluginRegistry.Component>)
    ensures |cs| == 2
    ensures cs[0].J2Filter? && cs[1].J2Global?
    ensures forall c :: c in cs ==> (c.J2Filter? || c.J2Global?) && c.name == "aws_tag" && c.fn == AwsTagCallable
  {
    [ PluginRegistry.J2Filter(AwsTagCallable, "aws_tag"),
      PluginRegistry.J2Global(AwsTagCallable, "aws_tag") ]
  }

  /**
    Loading the `aws` plugin binds `aws_tag` as both a filter and a global,
    keeps every other filter and global binding and every extension, and
    warns once per table in which the name was already taken, the filter
    table's warning first; it logs nothing else.
   */
  lemma LoadingAwsPlugin(env: PluginRegistry.Env, modules: map<string, PluginRegistry.PluginModule>, path: string)
    requires path in modules && modules[path].loadPlugin == Some(Components())
    ensures var r := PluginRegistry.LoadPlugin(env, modules, path);
      && "aws_tag" in r.env.filters && r.env.filters["aws_tag"] == AwsTagCallable
      && "aws_tag" in r.env.globals && r.env.globals["aws_tag"] == AwsTagCallable
      && r.env.filters.Keys == env.filters.Keys + {"aws_tag"}
      && r.env.globals.Keys == env.globals.Keys + {"aws_tag"}
      && (forall n :: n in env.filters && n != "aws_tag" ==> r.env.filters[n] == env.filters[n])
      && (forall n :: n in env.globals && n != "aws_tag" ==> r.env.globals[n] == env.globals[n])
      && r.env.extensions == env.extensions
      && (PluginRegistry.Overwritten(PluginRegistry.FilterRegistry, "aws_tag") in r.warnings <==> "aws_tag" in env.filters)
      && (PluginRegistry.Overwritten(PluginRegistry.GlobalRegistry, "aws_tag") in r.warnings <==> "aws_tag" in env.globals)
      && r.warnings
         == (if "aws_tag" in env.filters then [PluginRegistry.Overwritten(PluginRegistry.FilterRegistry, "aws_tag")] else [])
          + (if "aws_tag" in env.globals then [PluginRegistry.Overwritten(PluginRegistry.GlobalRegistry, "aws_tag")] else [])
  {
  }
}
