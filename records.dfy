/** A CSV record as the reader holds it: a Python dict from column name to
    value, which remembers the order in which its keys were first inserted. */
module Records {
  import opened Common

  /** A cell: a string read from the file, or the integer rate added by scoring. */
  datatype Value = Str(s: string) | Int(n: int)

  /** Keys in insertion order, and the value stored under each of them. */
  datatype Record = Record(keys: seq<string>, vals: map<string, Value>) {
    /** The dict invariant: every key once, and exactly the listed keys have
        a value. Every dict the program builds satisfies it. */
    predicate Valid() {
      && (forall i, j :: 0 <= i < j < |keys| ==> keys[i] != keys[j])
      && (forall k :: k in vals ==> k in keys)
      && (forall i :: 0 <= i < |keys| ==> keys[i] in vals)
    }
  }

  /** `r.get(k)`: the value under `k`, if there is one. */
  function Get(r: Record, k: string): Option<Value> {
    if k in r.vals then Some(r.vals[k]) else None
  }

  /** `r[k] = v`: afterwards `k` holds `v` and every other key holds what it
      held before; an existing key keeps its position, a new key goes last. */
  function Set(r: Record, k: string, v: Value): (r': Record)
    ensures Get(r', k) == Some(v)
    ensures forall k' {:trigger Get(r', k')} :: k' != k ==> Get(r', k') == Get(r, k')
    ensures r'.keys == if Get(r, k).Some? then r.keys else r.keys + [k]
  {
    if k in r.vals then Record(r.keys, r.vals[k := v])
    else Record(r.keys + [k], r.vals[k := v])
  }

  /** Assignment keeps the dict invariant. */
  lemma SetValid(r: Record, k: string, v: Value)
    requires r.Valid()
    ensures Set(r, k, v).Valid()
  {
    var r' := Set(r, k, v);
    if k !in r.vals {
      forall i, j | 0 <= i < j < |r'.keys| ensures r'.keys[i] != r'.keys[j] {
        if j == |r.keys| {
          assert r'.keys[i] == r.keys[i];
        } else {
          assert r'.keys[i] == r.keys[i] && r'.keys[j] == r.keys[j];
        }
      }
      forall i | 0 <= i < |r'.keys| ensures r'.keys[i] in r'.vals {
        if i < |r.keys| {
          assert r'.keys[i] == r.keys[i];
        }
      }
    }
  }

  /** The value under `k`; an empty cell for a key the dict lacks, which a
      valid dict never lists among its keys. */
  function At(r: Record, k: string): Value {
    if k in r.vals then r.vals[k] else Str("")
  }

  /** `list(r.values())`: the values in key order. */
  function Values(r: Record): (vs: seq<Value>)
    ensures |vs| == |r.keys|
    ensures r.Valid() ==> forall i :: 0 <= i < |vs| ==> Get(r, r.keys[i]) == Some(vs[i])
    ensures forall i :: 0 <= i < |vs| ==> vs[i] == At(r, r.keys[i])
  {
    seq(|r.keys|, i requires 0 <= i < |r.keys| => At(r, r.keys[i]))
  }
}
