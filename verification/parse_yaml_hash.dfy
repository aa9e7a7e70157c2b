/**
 * `yaml_mapping_to_hashmap`: copies the entries of a top-level YAML mapping
 * into a string-keyed hash map, giving up on the first key that is not a string.
 */
module ParseYamlHash {
  import opened Yaml

  /**
   * Walks the mapping's entries in order, inserting each string key with its
   * value; returns None for a non-string key and for a value that is not a
   * mapping. The result is the one `ToHashmap` specifies, whose properties
   * (key set, last insertion wins, size) are proved in `Yaml`.
   */
  method YamlMappingToHashmap(yaml: Node) returns (r: Option<map<string, Node>>)
    ensures r == ToHashmap(yaml)
  {
    match yaml {
      case Mapping(mapping) =>
        var hashmap: map<string, Node> := map[];
        for i := 0 to |mapping|
          invariant InsertEntries(hashmap, mapping[i..]) == InsertEntries(map[], mapping)
        {
          var (key, value) := mapping[i];
          assert mapping[i..][1..] == mapping[i + 1..];
          if key.Str? {
            hashmap := hashmap[key.s := value];
          } else {
            return None;
          }
        }
        assert mapping[|mapping|..] == [];
        return Some(hashmap);
      case _ =>
        return None;
    }
  }
}
