/**
  Mock cloud resource records and the reference meaning of a tag lookup:
  "the first tag, in list order, whose key matches".
 */
module Resources {
  import opened Wrappers

  /** One `{'Key': ..., 'Value': ...}` entry of a record's `Tags` list. */
  datatype Tag = Tag(key: string, value: string)

  /**
    A resource record. `attributes` stands for every other key of the record
    (such as `InstanceId`); `tags` is `None` when the record has no `Tags` key.
   */
  datatype Resource = Resource(attributes: map<string, string>, tags: Option<seq<Tag>>)

  /** Some tag of the list carries the key `k`. */
  predicate HasKey(tags: seq<Tag>, k: string) {
    exists i :: 0 <= i < |tags| && tags[i].key == k
  }

  /** Index `i` holds the first tag, in list order, whose key is `k`. */
  predicate IsFirstMatch(tags: seq<Tag>, k: string, i: int) {
    && 0 <= i < |tags|
    && tags[i].key == k
    && forall j :: 0 <= j < i ==> tags[j].key != k
  }

  /** Whenever the key occurs, a first occurrence exists. */
  lemma {:induction false} FirstMatchExists(tags: seq<Tag>, k: string) returns (i: nat)
    requires HasKey(tags, k)
    ensures IsFirstMatch(tags, k, i)
  {
    if tags[0].key == k {
      i := 0;
    } else {
      var w :| 0 <= w < |tags| && tags[w].key == k;
      assert tags[1..][w - 1].key == k;
      var i' := FirstMatchExists(tags[1..], k);
      i := i' + 1;
      forall j | 0 <= j < i
        ensures tags[j].key != k
      {
        if j > 0 {
          assert tags[j] == tags[1..][j - 1];
        }
      }
    }
  }
}
