/** The two unit tests of the dictionary, as client methods whose
    postconditions are the tests' expectations. */
module DictionaryPlaygroundTests {
  import opened DictionaryPlayground
  import HashHelpers

  /** `int.GetHashCode` returns the value itself. */
  function IntHash(k: int32): int32
  {
    k
  }

  /** One string key is found again, whatever hash the runtime gives it. */
  method FindsSingularKey(stringHash: string -> int32) returns (found: Option<string>)
    ensures found == Some("John")
  {
    var dict := new EducationalDictionary<string, string>(stringHash);
    dict.Add("one", "John");
    found := dict.GetValueOrDefault("one");
    LookupAfterAdd([], "one", "John");
  }

  /** The insertion log of the second test. */
  function FourKeys(): seq<(int32, string)>
  {
    [(48, "John"), (34, "Josh"), (22, "Jack"), (11, "Alex")]
  }

  /** Every key of the log finds its own value, and 50 finds nothing. */
  lemma FourKeysLookups()
    ensures Lookup(FourKeys(), 48) == Some("John")
    ensures Lookup(FourKeys(), 34) == Some("Josh")
    ensures Lookup(FourKeys(), 22) == Some("Jack")
    ensures Lookup(FourKeys(), 11) == Some("Alex")
    ensures Lookup(FourKeys(), 50) == None
  {
    var log := FourKeys();
    assert log == [] + [(48 as int32, "John")] + log[1..];
    LookupUntilShadowed([], 48, "John", log[1..]);
    assert log == log[..1] + [(34 as int32, "Josh")] + log[2..];
    LookupUntilShadowed(log[..1], 34, "Josh", log[2..]);
    assert log == log[..2] + [(22 as int32, "Jack")] + log[3..];
    LookupUntilShadowed(log[..2], 22, "Jack", log[3..]);
    assert log == log[..3] + [(11 as int32, "Alex")];
    LookupAfterAdd(log[..3], 11, "Alex");
  }

  /** The four inserts of the second test into a new table with the integer
      hash: the third insert fills the 3 slots, so the fourth grows the table
      to 7. */
  method AddFourKeys() returns (dict: EducationalDictionary<int32, string>)
    ensures fresh(dict) && dict.Valid()
    ensures dict.Log == FourKeys()
    ensures dict.entries.Length == 7
  {
    var log := FourKeys();
    dict := new EducationalDictionary<int32, string>(IntHash);
    dict.Add(48, "John");
    assert dict.count == 1 && dict.entries.Length == 3 && dict.Log == log[..1];
    dict.Add(34, "Josh");
    assert dict.count == 2 && dict.entries.Length == 3 && dict.Log == log[..2];
    dict.Add(22, "Jack");
    assert dict.count == 3 && dict.entries.Length == 3 && dict.Log == log[..3];
    HashHelpers.InitialCapacities();
    dict.Add(11, "Alex");
    assert dict.Log == log;
  }

  /** Four integer keys in a table of capacity 3: the fourth insert grows
      the table to 7, every key still finds its value, and a key never
      added finds the default. */
  method FindsMultipleKeys() returns (john: Option<string>, josh: Option<string>, jack: Option<string>,
                                      alex: Option<string>, missing: Option<string>, capacity: int)
    ensures john == Some("John") && josh == Some("Josh") && jack == Some("Jack") && alex == Some("Alex")
    ensures missing == None
    ensures capacity == 7
  {
    var dict := AddFourKeys();
    capacity := dict.entries.Length;
    FourKeysLookups();
    john := dict.GetValueOrDefault(48);
    josh := dict.GetValueOrDefault(34);
    jack := dict.GetValueOrDefault(22);
    alex := dict.GetValueOrDefault(11);
    missing := dict.GetValueOrDefault(50);
  }
}
