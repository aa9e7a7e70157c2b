/**
 * YAML values as the YAML parser hands them over, and the specification of
 * `yaml_mapping_to_hashmap`: a top-level mapping whose keys are all strings
 * becomes a string-keyed map holding the same values; anything else gives None.
 */
module Yaml {

  datatype Option<T> = None | Some(value: T)

  /**
   * A parsed YAML value. The entries of a mapping are listed in the order the
   * parser keeps them; the parser never produces two entries with equal keys.
   */
  datatype Node =
    | Null
    | Bool(b: bool)
    | Num(n: int)
    | Str(s: string)
    | Seq(items: seq<Node>)
    | Mapping(entries: seq<(Node, Node)>)

  /** Every key of the mapping is a YAML string. */
  predicate AllStringKeys(entries: seq<(Node, Node)>) {
    forall i :: 0 <= i < |entries| ==> entries[i].0.Str?
  }

  /** No two entries share a key. */
  predicate UniqueKeys(entries: seq<(Node, Node)>) {
    forall i, j :: 0 <= i < j < |entries| ==> entries[i].0 != entries[j].0
  }

  /** The texts of the string keys of the mapping. */
  function KeyStrings(entries: seq<(Node, Node)>): set<string> {
    set i | 0 <= i < |entries| && entries[i].0.Str? :: entries[i].0.s
  }

  /**
   * Inserts the entries, in order, into `acc` (a later entry replaces an
   * earlier one with the same key, as `HashMap::insert` does); None as soon
   * as an entry's key is not a string.
   */
  function InsertEntries(acc: map<string, Node>, entries: seq<(Node, Node)>): (r: Option<map<string, Node>>)
    ensures r.Some? <==> AllStringKeys(entries)
    decreases |entries|
  {
    if entries == [] then Some(acc)
    else if entries[0].0.Str? then InsertEntries(acc[entries[0].0.s := entries[0].1], entries[1..])
    else None
  }

  /**
   * The specification of `yaml_mapping_to_hashmap`: defined exactly when the
   * value is a mapping with string keys only.
   */
  function ToHashmap(yaml: Node): (r: Option<map<string, Node>>)
    ensures r.Some? <==> yaml.Mapping? && AllStringKeys(yaml.entries)
  {
    match yaml
    case Mapping(entries) => InsertEntries(map[], entries)
    case _ => None
  }

  lemma {:induction false} KeyStringsCons(entries: seq<(Node, Node)>)
    requires entries != [] && entries[0].0.Str?
    ensures KeyStrings(entries) == {entries[0].0.s} + KeyStrings(entries[1..])
  {
    var rest := entries[1..];
    forall k | k in KeyStrings(entries) ensures k in {entries[0].0.s} + KeyStrings(rest) {
      var i :| 0 <= i < |entries| && entries[i].0.Str? && entries[i].0.s == k;
      if i > 0 {
        assert rest[i - 1] == entries[i];
      }
    }
    forall k | k in KeyStrings(rest) ensures k in KeyStrings(entries) {
      var i :| 0 <= i < |rest| && rest[i].0.Str? && rest[i].0.s == k;
      assert entries[i + 1] == rest[i];
    }
  }

  lemma {:induction false} InsertEntriesKeys(acc: map<string, Node>, entries: seq<(Node, Node)>)
    requires AllStringKeys(entries)
    ensures InsertEntries(acc, entries).Some?
    ensures InsertEntries(acc, entries).value.Keys == acc.Keys + KeyStrings(entries)
    decreases |entries|
  {
    if entries != [] {
      KeyStringsCons(entries);
      InsertEntriesKeys(acc[entries[0].0.s := entries[0].1], entries[1..]);
    }
  }

  /** With string keys only, the key set of the result is the set of the mapping's keys. */
  lemma HashmapKeys(entries: seq<(Node, Node)>)
    requires AllStringKeys(entries)
    ensures ToHashmap(Mapping(entries)).Some?
    ensures ToHashmap(Mapping(entries)).value.Keys == KeyStrings(entries)
  {
    InsertEntriesKeys(map[], entries);
  }

  /** Inserting entries never removes a key already present, and keeps its value unless some entry reuses the key. */
  lemma {:induction false} InsertEntriesKeepsUntouched(acc: map<string, Node>, entries: seq<(Node, Node)>, k: string)
    requires AllStringKeys(entries) && k in acc
    requires forall j :: 0 <= j < |entries| ==> entries[j].0 != Str(k)
    ensures InsertEntries(acc, entries).Some?
    ensures k in InsertEntries(acc, entries).value && InsertEntries(acc, entries).value[k] == acc[k]
    decreases |entries|
  {
    if entries != [] {
      assert entries[0].0 != Str(k);
      InsertEntriesKeepsUntouched(acc[entries[0].0.s := entries[0].1], entries[1..], k);
    }
  }

  lemma {:induction false} InsertEntriesLastWins(acc: map<string, Node>, entries: seq<(Node, Node)>, i: nat)
    requires AllStringKeys(entries) && i < |entries|
    requires forall j :: i < j < |entries| ==> entries[j].0 != entries[i].0
    ensures InsertEntries(acc, entries).Some?
    ensures entries[i].0.s in InsertEntries(acc, entries).value
    ensures InsertEntries(acc, entries).value[entries[i].0.s] == entries[i].1
    decreases |entries|
  {
    var acc' := acc[entries[0].0.s := entries[0].1];
    if i == 0 {
      InsertEntriesKeepsUntouched(acc', entries[1..], entries[0].0.s);
    } else {
      InsertEntriesLastWins(acc', entries[1..], i - 1);
    }
  }

  /**
   * Each string key maps to the value of its last entry, unchanged: no
   * coercion, and sequences or nested mappings are stored like scalars.
   */
  lemma HashmapLastWins(entries: seq<(Node, Node)>, i: nat)
    requires AllStringKeys(entries) && i < |entries|
    requires forall j :: i < j < |entries| ==> entries[j].0 != entries[i].0
    ensures ToHashmap(Mapping(entries)).Some?
    ensures entries[i].0.s in ToHashmap(Mapping(entries)).value
    ensures ToHashmap(Mapping(entries)).value[entries[i].0.s] == entries[i].1
  {
    InsertEntriesLastWins(map[], entries, i);
  }

  lemma {:induction false} KeyStringsCount(entries: seq<(Node, Node)>)
    requires AllStringKeys(entries) && UniqueKeys(entries)
    ensures |KeyStrings(entries)| == |entries|
    decreases |entries|
  {
    if entries != [] {
      var rest := entries[1..];
      KeyStringsCons(entries);
      KeyStringsCount(rest);
      assert entries[0].0.s !in KeyStrings(rest);
    }
  }

  /**
   * For a mapping with unique string keys (what the parser produces), the
   * result has one entry per mapping entry, each holding that entry's value.
   */
  lemma HashmapOfUniqueKeys(entries: seq<(Node, Node)>)
    requires AllStringKeys(entries) && UniqueKeys(entries)
    ensures ToHashmap(Mapping(entries)).Some?
    ensures |ToHashmap(Mapping(entries)).value| == |entries|
    ensures forall i :: 0 <= i < |entries| ==>
              entries[i].0.s in ToHashmap(Mapping(entries)).value &&
              ToHashmap(Mapping(entries)).value[entries[i].0.s] == entries[i].1
  {
    HashmapKeys(entries);
    KeyStringsCount(entries);
    forall i | 0 <= i < |entries|
      ensures ToHashmap(Mapping(entries)).value[entries[i].0.s] == entries[i].1
    {
      HashmapLastWins(entries, i);
    }
  }

  /** The value of the first entry whose key is the string `key`. */
  function LookupEntry(entries: seq<(Node, Node)>, key: string): (r: Option<Node>)
    ensures r.Some? <==> Str(key) in KeysOf(entries)
    decreases |entries|
  {
    if entries == [] then None
    else if entries[0].0 == Str(key) then Some(entries[0].1)
    else LookupEntry(entries[1..], key)
  }

  /** The keys of the mapping's entries, as YAML values. */
  function KeysOf(entries: seq<(Node, Node)>): set<Node> {
    set i | 0 <= i < |entries| :: entries[i].0
  }

  /**
   * `Value::get` with a string index: the value stored under the string key
   * in a mapping; None for a missing key and for any value that is not a mapping.
   */
  function Get(yaml: Node, key: string): (r: Option<Node>)
    ensures r.Some? <==> yaml.Mapping? && Str(key) in KeysOf(yaml.entries)
  {
    match yaml
    case Mapping(entries) => LookupEntry(entries, key)
    case _ => None
  }

  lemma {:induction false} LookupEntryFinds(entries: seq<(Node, Node)>, key: string, i: nat)
    requires UniqueKeys(entries) && i < |entries| && entries[i].0 == Str(key)
    ensures LookupEntry(entries, key) == Some(entries[i].1)
  {
    if i > 0 {
      assert entries[0].0 != entries[i].0;
      assert UniqueKeys(entries[1..]) by {
        forall a, b | 0 <= a < b < |entries| - 1 ensures entries[1..][a].0 != entries[1..][b].0 {
          assert entries[a + 1].0 != entries[b + 1].0;
        }
      }
      LookupEntryFinds(entries[1..], key, i - 1);
    }
  }

  /** A string key is a key of the mapping exactly when its text is in `KeyStrings`. */
  lemma KeyStringsHasKey(entries: seq<(Node, Node)>, key: string)
    ensures key in KeyStrings(entries) <==> Str(key) in KeysOf(entries)
  {
    if key in KeyStrings(entries) {
      var i :| 0 <= i < |entries| && entries[i].0.Str? && entries[i].0.s == key;
      assert entries[i].0 == Str(key);
    }
    if Str(key) in KeysOf(entries) {
      var i :| 0 <= i < |entries| && entries[i].0 == Str(key);
      assert entries[i].0.s == key;
    }
  }

  /**
   * Looking a key up in the YAML value and in the map built from it agree,
   * for a mapping with unique string keys: both find the same value, or both
   * find nothing.
   */
  lemma GetAgreesWithHashmap(entries: seq<(Node, Node)>, key: string)
    requires AllStringKeys(entries) && UniqueKeys(entries)
    ensures ToHashmap(Mapping(entries)).Some?
    ensures key in ToHashmap(Mapping(entries)).value <==> Get(Mapping(entries), key).Some?
    ensures key in ToHashmap(Mapping(entries)).value ==>
              Get(Mapping(entries), key) == Some(ToHashmap(Mapping(entries)).value[key])
  {
    HashmapKeys(entries);
    KeyStringsHasKey(entries, key);
    if Str(key) in KeysOf(entries) {
      var i :| 0 <= i < |entries| && entries[i].0 == Str(key);
      LookupEntryFinds(entries, key, i);
      HashmapLastWins(entries, i);
    }
  }

  /** The empty mapping gives an empty map, not None. */
  lemma EmptyMappingGivesEmptyMap()
    ensures ToHashmap(Mapping([])) == Some(map[])
  {
  }

  /** A single non-string key makes the whole conversion fail, whatever the other entries are. */
  lemma NonStringKeyRejects(entries: seq<(Node, Node)>, i: nat)
    requires i < |entries| && !entries[i].0.Str?
    ensures ToHashmap(Mapping(entries)) == None
  {
  }

  /** The documented example `name: John` / `age: 30`. */
  lemma DocExample()
    ensures ToHashmap(Mapping([(Str("name"), Str("John")), (Str("age"), Num(30))]))
            == Some(map["name" := Str("John"), "age" := Num(30)])
  {
    var entries := [(Str("name"), Str("John")), (Str("age"), Num(30))];
    var m1 := map["name" := Str("John")];
    var m2 := m1["age" := Num(30)];
    assert entries[1..][1..] == [];
    assert InsertEntries(map[], entries) == InsertEntries(m1, entries[1..]);
    assert InsertEntries(m1, entries[1..]) == InsertEntries(m2, []);
    assert m2 == map["name" := Str("John"), "age" := Num(30)];
  }
}
