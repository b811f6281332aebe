/**
  The demo script's own `get_tag`: the tag lookup before it moved into the
  `aws` plugin. It reads `Tags` unconditionally, so a record without it is
  outside what the script supports.
 */
module MainScript {
  import opened Wrappers
  import opened Resources
  import Aws

  /**
    `get_tag(obj, k, default)`: scan the tags in order and return the value
    of the first one whose key is `k`, or `default` when none is. It agrees
    with the plugin's `aws_tag` on every record that has `Tags`.
   */
  method GetTag(obj: Resource, k: string, default: string) returns (r: string)
    requires obj.tags.Some?
    ensures forall i :: IsFirstMatch(obj.tags.value, k, i) ==> r == obj.tags.value[i].value
    ensures !HasKey(obj.tags.value, k) ==> r == default
    ensures forall noTagsOk: bool :: Aws.AwsTag(obj, k, default, noTagsOk) == Success(r)
  {
    var tags := obj.tags.value;
    var i := 0;
    while i < |tags|
      invariant 0 <= i <= |tags|
      invariant forall j :: 0 <= j < i ==> tags[j].key != k
    {
      if tags[i].key == k {
        r := tags[i].value;
        assert IsFirstMatch(tags, k, i);
        forall noTagsOk: bool
          ensures Aws.AwsTag(obj, k, default, noTagsOk) == Success(r)
        {
          assert IsFirstMatch(obj.tags.value, k, i);
        }
        return;
      }
      i := i + 1;
    }
    r := default;
  }

  /** `get_tag(obj, k)`: the default omitted, so a missing key yields the empty string. */
  method GetTagWithDefault(obj: Resource, k: string) returns (r: string)
    requires obj.tags.Some?
    ensures forall i :: IsFirstMatch(obj.tags.value, k, i) ==> r == obj.tags.value[i].value
    ensures !HasKey(obj.tags.value, k) ==> r == ""
    ensures forall noTagsOk: bool :: Aws.AwsTag(obj, k, "", noTagsOk) == Success(r)
  {
    r := GetTag(obj, k, "");
  }
}
