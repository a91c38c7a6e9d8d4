/** JSON-like values as the block engine sees them after `JSON.parse`.
    Objects keep their keys in insertion order, as JavaScript objects do, so
    that `Object.entries` and `JSON.stringify` orders are part of the model. */
module Json {

  datatype Option<+T> = None | Some(value: T)

  datatype JValue =
    | JNull
    | JBool(b: bool)
    | JNum(n: int)
    | JString(s: string)
    | JArray(elems: seq<JValue>)
    | JObject(fields: seq<Field>)

  datatype Field = Field(key: string, value: JValue)

  /** `obj[key]`: the value stored under `key`, or None for `undefined`. */
  function Lookup(fields: seq<Field>, key: string): Option<JValue> {
    if fields == [] then None
    else if fields[0].key == key then Some(fields[0].value)
    else Lookup(fields[1..], key)
  }

  /** `key in obj` */
  predicate Has(fields: seq<Field>, key: string) {
    Lookup(fields, key).Some?
  }

  /** The value found is the value of one of the object's fields. */
  lemma {:induction false} LookupFound(fields: seq<Field>, key: string) returns (i: nat)
    requires Has(fields, key)
    ensures i < |fields| && fields[i] == Field(key, Lookup(fields, key).value)
  {
    if fields[0].key == key {
      i := 0;
    } else {
      var j := LookupFound(fields[1..], key);
      i := j + 1;
    }
  }

  /** A value found in an object is structurally smaller than the object. */
  lemma LookupSmaller(fields: seq<Field>, key: string)
    requires Has(fields, key)
    ensures Lookup(fields, key).value < JObject(fields)
  {
    var i := LookupFound(fields, key);
    assert fields[i] in fields;
  }

  /** The object without the fields whose keys are in `keys` (`delete obj[k]` for each k). */
  function Without(fields: seq<Field>, keys: set<string>): (r: seq<Field>)
    ensures forall i | 0 <= i < |r| :: r[i].key !in keys
    ensures forall k | k !in keys :: Lookup(r, k) == Lookup(fields, k)
    ensures forall k | k in keys :: !Has(r, k)
    ensures |r| <= |fields|
  {
    if fields == [] then []
    else if fields[0].key in keys then Without(fields[1..], keys)
    else [fields[0]] + Without(fields[1..], keys)
  }

  /** `obj[key] = v`: overwrites the field in place, or adds it at the end. */
  function Assign(fields: seq<Field>, key: string, v: JValue): (r: seq<Field>)
    ensures Lookup(r, key) == Some(v)
    ensures forall k | k != key :: Lookup(r, k) == Lookup(fields, k)
    ensures Has(fields, key) ==> |r| == |fields| && forall i | 0 <= i < |r| :: r[i].key == fields[i].key
  {
    if fields == [] then [Field(key, v)]
    else if fields[0].key == key then [Field(key, v)] + fields[1..]
    else [fields[0]] + Assign(fields[1..], key, v)
  }

  /** JavaScript truthiness of a property read (`None` is `undefined`). */
  predicate Truthy(o: Option<JValue>) {
    match o
    case None => false
    case Some(JNull) => false
    case Some(JBool(b)) => b
    case Some(JNum(n)) => n != 0
    case Some(JString(s)) => s != ""
    case Some(_) => true
  }

  predicate Primitive(v: JValue) {
    !v.JArray? && !v.JObject?
  }

  /** `a === b` where `a` and `b` are read from two separate deep copies: primitives
      (and `undefined`) compare by value, while an object or array is only ever
      identical to itself, so values from two copies are never identical. */
  predicate StrictEq(a: Option<JValue>, b: Option<JValue>) {
    match (a, b)
    case (None, None) => true
    case (Some(x), Some(y)) => Primitive(x) && x == y
    case _ => false
  }

  /** Deleting keys the object does not have leaves it as it was. */
  lemma {:induction false} WithoutAbsent(fields: seq<Field>, keys: set<string>)
    requires forall i | 0 <= i < |fields| :: fields[i].key !in keys
    ensures Without(fields, keys) == fields
  {
    if fields != [] {
      WithoutAbsent(fields[1..], keys);
    }
  }

  /** Writing back the value a key already holds leaves the object as it was. */
  lemma {:induction false} AssignUnchanged(fields: seq<Field>, key: string)
    requires Has(fields, key)
    ensures Assign(fields, key, Lookup(fields, key).value) == fields
  {
    if fields[0].key != key {
      AssignUnchanged(fields[1..], key);
    }
  }

  /** Deleting one more key after a set of keys is deleting their union. */
  lemma {:induction false} WithoutWithout(fields: seq<Field>, keys: set<string>, key: string)
    ensures Without(Without(fields, keys), {key}) == Without(fields, keys + {key})
  {
    if fields != [] {
      WithoutWithout(fields[1..], keys, key);
    }
  }

  function KeySet(keys: seq<string>): set<string> {
    set k | k in keys
  }

  /** The object after `delete obj[k]` for each `k` of `keys`, in turn. */
  function DeletedInTurn(fields: seq<Field>, keys: seq<string>): seq<Field>
    decreases |keys|
  {
    if keys == [] then fields
    else Without(DeletedInTurn(fields, keys[..|keys| - 1]), {keys[|keys| - 1]})
  }

  /** Deleting keys one at a time is deleting them all at once. */
  lemma {:induction false} DeletedInTurnIsWithout(fields: seq<Field>, keys: seq<string>)
    decreases |keys|
    ensures DeletedInTurn(fields, keys) == Without(fields, KeySet(keys))
  {
    if keys == [] {
      assert KeySet(keys) == {};
      WithoutAbsent(fields, {});
    } else {
      var init, last := keys[..|keys| - 1], keys[|keys| - 1];
      DeletedInTurnIsWithout(fields, init);
      WithoutWithout(fields, KeySet(init), last);
      assert keys == init + [last];
      assert KeySet(keys) == KeySet(init) + {last};
      calc {
        DeletedInTurn(fields, keys);
        Without(DeletedInTurn(fields, init), {last});
        Without(Without(fields, KeySet(init)), {last});
        Without(fields, KeySet(keys));
      }
    }
  }

  /** No key appears twice, as in every JavaScript object. */
  predicate DistinctKeys(fields: seq<Field>) {
    forall i, j | 0 <= i < j < |fields| :: fields[i].key != fields[j].key
  }

  /** In an object without repeated keys, each field is what its key looks up. */
  lemma {:induction false} LookupAt(fields: seq<Field>, i: nat)
    requires DistinctKeys(fields) && i < |fields|
    ensures Lookup(fields, fields[i].key) == Some(fields[i].value)
  {
    if i > 0 {
      assert fields[0].key != fields[i].key;
      assert fields[1..][i - 1] == fields[i];
      LookupAt(fields[1..], i - 1);
    }
  }

  /** Reading a key of a one-field object. */
  lemma LookupOne(f: Field, key: string)
    ensures Lookup([f], key) == if f.key == key then Some(f.value) else None
  {
    if f.key != key {
      assert [f][1..] == [];
    }
  }

  /** Reading a key of a two-field object. */
  lemma LookupTwo(f: Field, g: Field, key: string)
    ensures Lookup([f, g], key) == if f.key == key then Some(f.value) else Lookup([g], key)
  {
    if f.key != key {
      assert [f, g][1..] == [g];
    }
  }
}

