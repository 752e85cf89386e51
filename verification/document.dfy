/** The parsed XML document as the XML-to-object parser hands it to the lint:
    arrays, objects with ordered keys, strings and the other JavaScript scalars. */
module Document {

  /** One value of the parsed tree. `Obj` keeps its keys in enumeration order;
      `Scalar` stands for null, undefined, numbers and booleans. */
  datatype Node =
    | Str(text: string)
    | Arr(items: seq<Node>)
    | Obj(fields: seq<Field>)
    | Scalar

  /** One property of an object: its key and its value. */
  datatype Field = Field(key: string, value: Node)

  /** The tags whose whole subtree the lint never looks at. */
  const IgnoredTags: seq<string> := ["g:evaluate", "script", "g2:evaluate"]

  /** The key under which the parser keeps an element's attributes. */
  const AttributeKey: string := "$"

  /** `ignore.indexOf(key) >= 0`. */
  predicate IsIgnoredTag(key: string) {
    key in IgnoredTags
  }

  /** An object property the collector passes over: an ignored tag or the attribute map. */
  predicate SkipsKey(key: string) {
    IsIgnoredTag(key) || key == AttributeKey
  }

  /** The decimal digits of `n`, the key `for…in` yields for an array index. */
  function IndexKey(n: nat): (r: string)
    ensures r != []
    ensures forall k :: 0 <= k < |r| ==> '0' <= r[k] <= '9'
  {
    var d := ['0' + (n % 10) as char];
    if n < 10 then d else IndexKey(n / 10) + d
  }

  /** No array index is an ignored tag: every ignored tag starts with a letter, an index with a digit. */
  lemma IndexNeverIgnored(n: nat)
    ensures !IsIgnoredTag(IndexKey(n))
  {
    var r := IndexKey(n);
    assert '0' <= r[0] <= '9';
    forall t | t in IgnoredTags ensures r != t {
      assert t[0] in {'g', 's'};
    }
  }
}
