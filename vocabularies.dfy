/**
 * The `vocabulary` object of script.js: a plain JavaScript object used as a dictionary from
 * term to definition. `Object.keys` lists its keys in the order they were first assigned;
 * assigning an existing key replaces the value and keeps the key where it was.
 */
module Vocabularies {
  import opened Wrappers
  import opened Sequences

  datatype Vocabulary = Vocabulary(keys: seq<string>, defs: map<string, string>)

  /** Every key is listed once, and the listed keys are exactly the keys that have a value. */
  predicate Valid(v: Vocabulary) {
    NoDuplicates(v.keys) && (forall k | k in v.keys :: k in v.defs) && (forall k | k in v.defs :: k in v.keys)
  }

  /** `{}` */
  function Empty(): (v: Vocabulary)
    ensures Valid(v) && v.keys == [] && v.defs == map[]
  {
    Vocabulary([], map[])
  }

  /** `vocabulary[k]`, with `undefined` as `None`. */
  function Lookup(v: Vocabulary, k: string): (r: Option<string>)
    ensures r.Some? <==> k in v.defs
  {
    if k in v.defs then Some(v.defs[k]) else None
  }

  /** `vocabulary[k] = d`. */
  function Put(v: Vocabulary, k: string, d: string): (r: Vocabulary)
    requires Valid(v)
    ensures Valid(r)
    ensures Lookup(r, k) == Some(d)
    ensures forall k' | k' != k :: Lookup(r, k') == Lookup(v, k')
    ensures k in v.defs ==> r.keys == v.keys
    ensures k !in v.defs ==> r.keys == v.keys + [k]
  {
    Vocabulary(if k in v.defs then v.keys else v.keys + [k], v.defs[k := d])
  }

  /** A second assignment to the same key wins, and the key stays where the first one put it. */
  lemma PutOverwrites(v: Vocabulary, k: string, d1: string, d2: string)
    requires Valid(v)
    ensures Put(Put(v, k, d1), k, d2) == Put(v, k, d2)
  {
  }
}
