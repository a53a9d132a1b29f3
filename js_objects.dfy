/**
 * The parts of JavaScript object semantics the model relies on: the order in
 * which `Object.keys` and `for ... in` list an object's keys, and the fields
 * of a parsed JSON request body with their truthiness.
 */
module JsObjects {
  /** No key listed twice. */
  predicate Distinct(s: seq<string>) {
    forall i, j :: 0 <= i < j < |s| ==> s[i] != s[j]
  }

  /** Inserting `k` into an object: a new key goes last, an existing one keeps its place. */
  function AddKey(ks: seq<string>, k: string): seq<string> {
    if k in ks then ks else ks + [k]
  }

  /** Adding a key keeps the keys distinct. */
  lemma AddKeyDistinct(ks: seq<string>, k: string)
    requires Distinct(ks)
    ensures Distinct(AddKey(ks, k))
  {
  }

  /** A sequence without repetitions has as many elements as its set. */
  lemma {:induction false} DistinctCard(s: seq<string>)
    requires Distinct(s)
    ensures |set k | k in s| == |s|
    decreases |s|
  {
    if s != [] {
      var t := s[..|s| - 1];
      DistinctCard(t);
      assert (set k | k in s) == (set k | k in t) + {s[|s| - 1]};
      assert s[|s| - 1] !in t;
    }
  }

  /** A field of a parsed JSON request body: `Absent` when the key is missing, `Compound` for an array or an object. */
  datatype Field =
    | Absent
    | Null
    | Text(s: string)
    | Number(x: real)
    | Flag(b: bool)
    | Compound

  /** JavaScript truthiness: missing, `null`, `""`, `0` and `false` are falsy. */
  predicate Truthy(f: Field) {
    match f
    case Absent => false
    case Null => false
    case Text(s) => s != ""
    case Number(x) => x != 0.0
    case Flag(b) => b
    case Compound => true
  }
}
