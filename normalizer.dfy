/** BlockNormalizer: strips the metadata a persisted block carries so that it
    can be compared with a freshly rendered one (src/notion/blocks/normalizer.ts). */
module Normalizer {
  import opened Json

  /** `metadataProps`, in the order the source deletes them. */
  const MetadataProps: seq<string> :=
    ["id", "created_time", "created_by", "last_edited_time", "last_edited_by", "parent", "archived", "object"]

  /** The same keys as a set. */
  const Metadata: set<string> := KeySet(MetadataProps)

  predicate NoMetadata(fields: seq<Field>) {
    forall i | 0 <= i < |fields| :: fields[i].key !in Metadata
  }

  /** The key under which a block keeps its content: `copy.type`, when it is a
      non-empty string. */
  function ContentKey(fields: seq<Field>): Option<string> {
    match Lookup(fields, "type")
    case Some(JString(t)) => if t != "" then Some(t) else None
    case _ => None
  }

  /** The content object `obj[obj.type]`, when there is one. */
  function Payload(fields: seq<Field>): Option<seq<Field>> {
    match ContentKey(fields)
    case None => None
    case Some(t) =>
      match Lookup(fields, t)
      case Some(JObject(content)) => Some(content)
      case _ => None
  }

  lemma PayloadLookup(fields: seq<Field>)
    requires Payload(fields).Some?
    ensures ContentKey(fields).Some?
    ensures Lookup(fields, ContentKey(fields).value) == Some(JObject(Payload(fields).value))
  {
  }

  lemma PayloadSmaller(fields: seq<Field>)
    requires Payload(fields).Some?
    ensures JObject(Payload(fields).value) < JObject(fields)
  {
    LookupSmaller(fields, ContentKey(fields).value);
  }

  /** The `children` array of a content object, when it is one. */
  function Children(content: seq<Field>): Option<seq<JValue>> {
    match Lookup(content, "children")
    case Some(JArray(kids)) => Some(kids)
    case _ => None
  }

  /** The normalized block: metadata keys deleted at the root and in the content
      object, and the content's `children` array normalized element by element. */
  function Normalized(b: JValue): JValue
    decreases b, 1
  {
    if !b.JObject? then b
    else
      var root := Without(b.fields, Metadata);
      match Payload(root)
      case None => JObject(root)
      case Some(content) =>
        assert "type" !in Metadata;
        assert ContentKey(root) == ContentKey(b.fields);
        var t := ContentKey(root).value;
        assert Has(root, t) && t !in Metadata;
        assert Payload(b.fields) == Some(content);
        PayloadSmaller(b.fields);
        JObject(Assign(root, t, JObject(NormalizedContent(content))))
  }

  /** The content object with its metadata keys deleted and its `children`
      array, if any, normalized element by element. */
  function NormalizedContent(content: seq<Field>): seq<Field>
    decreases JObject(content), 0
  {
    var stripped := Without(content, Metadata);
    match Children(stripped)
    case None => stripped
    case Some(kids) =>
      assert "children" !in Metadata;
      assert Children(content) == Some(kids);
      LookupSmaller(content, "children");
      Assign(stripped, "children", JArray(seq(|kids|, i requires 0 <= i < |kids| => Normalized(kids[i]))))
  }

  /** No metadata key is left at the root, and the block keeps its type. */
  lemma NormalizedRoot(b: JValue)
    requires b.JObject?
    ensures Normalized(b).JObject?
    ensures NoMetadata(Normalized(b).fields)
    ensures ContentKey(Normalized(b).fields) == ContentKey(b.fields)
  {
    var root := Without(b.fields, Metadata);
    assert "type" !in Metadata;
    assert ContentKey(root) == ContentKey(b.fields);
    if Payload(root).Some? {
      var t := ContentKey(root).value;
      assert t != "type" && Has(root, t);
      var r := Normalized(b).fields;
      assert r == Assign(root, t, JObject(NormalizedContent(Payload(root).value)));
      assert forall i | 0 <= i < |r| :: r[i].key == root[i].key;
    }
  }

  /** Every key other than the metadata keys and the content key keeps its
      value, however deep metadata-named keys occur inside it. */
  lemma NormalizedKeepsOtherKeys(b: JValue, k: string)
    requires b.JObject? && k !in Metadata && Some(k) != ContentKey(b.fields)
    ensures Lookup(Normalized(b).fields, k) == Lookup(b.fields, k)
  {
    var root := Without(b.fields, Metadata);
    assert "type" !in Metadata;
    assert ContentKey(root) == ContentKey(b.fields);
  }

  /** A content object that the root does not hold (no type, an empty type, a
      type that is itself a metadata key, or a non-object payload) leaves the
      block as the root with its metadata deleted. */
  lemma NormalizedWithoutPayload(b: JValue)
    requires b.JObject? && Payload(Without(b.fields, Metadata)).None?
    ensures Normalized(b) == JObject(Without(b.fields, Metadata))
  {
  }

  /** The content object under the block's type is itself normalized. */
  lemma NormalizedPayload(b: JValue)
    requires b.JObject? && Payload(Without(b.fields, Metadata)).Some?
    ensures Payload(b.fields) == Payload(Without(b.fields, Metadata))
    ensures Payload(Normalized(b).fields) == Some(NormalizedContent(Payload(b.fields).value))
  {
    var root := Without(b.fields, Metadata);
    assert "type" !in Metadata;
    assert ContentKey(root) == ContentKey(b.fields);
    var t := ContentKey(root).value;
    assert t != "type" && Has(root, t) && t !in Metadata;
    PayloadAfterAssign(root, NormalizedContent(Payload(root).value));
  }

  /** Storing an object under the content key makes it the new payload. */
  lemma PayloadAfterAssign(fields: seq<Field>, content: seq<Field>)
    requires Payload(fields).Some?
    ensures Payload(Assign(fields, ContentKey(fields).value, JObject(content))) == Some(content)
  {
    var t := ContentKey(fields).value;
    assert t != "type";
    var r := Assign(fields, t, JObject(content));
    assert Lookup(r, "type") == Lookup(fields, "type");
  }

  /** No metadata key is left in the content object; every key other than
      `children` keeps its value. */
  lemma NormalizedContentClean(content: seq<Field>, k: string)
    ensures NoMetadata(NormalizedContent(content))
    ensures k !in Metadata && k != "children" ==> Lookup(NormalizedContent(content), k) == Lookup(content, k)
  {
    var stripped := Without(content, Metadata);
    assert "children" !in Metadata;
    if Children(stripped).Some? {
      var r := NormalizedContent(content);
      assert Has(stripped, "children");
      assert forall i | 0 <= i < |r| :: r[i].key == stripped[i].key;
    }
  }

  /** An array `children` is replaced by its elements normalized in the same
      order; any other `children` value is left as it is. */
  lemma NormalizedContentChildren(content: seq<Field>)
    ensures Children(content).None? ==>
      Lookup(NormalizedContent(content), "children") == Lookup(content, "children")
    ensures Children(content).Some? ==>
      var kids := Children(content).value;
      var kids' := Children(NormalizedContent(content));
      kids'.Some? && |kids'.value| == |kids| &&
      forall i | 0 <= i < |kids| :: kids'.value[i] == Normalized(kids[i])
  {
    assert "children" !in Metadata;
    assert Children(Without(content, Metadata)) == Children(content);
  }

  /** A block in which `normalize` finds nothing to delete: no metadata key at
      the root or in the content object, and recursively so in `children`. */
  predicate MetadataFree(b: JValue)
    decreases b, 1
  {
    b.JObject? ==>
      NoMetadata(b.fields) &&
      match Payload(b.fields)
      case None => true
      case Some(content) =>
        PayloadSmaller(b.fields);
        ContentMetadataFree(content)
  }

  predicate ContentMetadataFree(content: seq<Field>)
    decreases JObject(content), 0
  {
    NoMetadata(content) &&
    match Children(content)
    case None => true
    case Some(kids) =>
      LookupSmaller(content, "children");
      forall i | 0 <= i < |kids| :: MetadataFree(kids[i])
  }

  /** Whatever the input, the normalized block has nothing left to delete. */
  lemma {:induction false} NormalizedIsMetadataFree(b: JValue)
    decreases b, 1
    ensures MetadataFree(Normalized(b))
  {
    if b.JObject? {
      NormalizedRoot(b);
      var root := Without(b.fields, Metadata);
      if Payload(root).Some? {
        NormalizedPayload(b);
        PayloadSmaller(b.fields);
        NormalizedContentIsMetadataFree(Payload(b.fields).value);
      }
    }
  }

  lemma {:induction false} NormalizedContentIsMetadataFree(content: seq<Field>)
    decreases JObject(content), 0
    ensures ContentMetadataFree(NormalizedContent(content))
  {
    NormalizedContentClean(content, "children");
    NormalizedContentChildren(content);
    match Children(content)
    case None =>
      assert Children(NormalizedContent(content)) == None;
    case Some(kids) =>
      LookupSmaller(content, "children");
      forall i | 0 <= i < |kids|
        ensures MetadataFree(Children(NormalizedContent(content)).value[i])
      {
        NormalizedIsMetadataFree(kids[i]);
      }
  }

  /** A block that carries no metadata comes back unchanged. */
  lemma {:induction false} MetadataFreeUnchanged(b: JValue)
    decreases b, 1
    requires MetadataFree(b)
    ensures Normalized(b) == b
  {
    if b.JObject? {
      WithoutAbsent(b.fields, Metadata);
      match Payload(b.fields)
      case None =>
      case Some(content) =>
        PayloadSmaller(b.fields);
        MetadataFreeContentUnchanged(content);
        var t := ContentKey(b.fields).value;
        PayloadLookup(b.fields);
        AssignUnchanged(b.fields, t);
        assert Normalized(b) == JObject(Assign(b.fields, t, JObject(NormalizedContent(content))));
    }
  }

  lemma {:induction false} MetadataFreeContentUnchanged(content: seq<Field>)
    decreases JObject(content), 0
    requires ContentMetadataFree(content)
    ensures NormalizedContent(content) == content
  {
    WithoutAbsent(content, Metadata);
    match Children(content)
    case None =>
    case Some(kids) =>
      LookupSmaller(content, "children");
      var kids' := seq(|kids|, i requires 0 <= i < |kids| => Normalized(kids[i]));
      forall i | 0 <= i < |kids| ensures kids'[i] == kids[i] {
        MetadataFreeUnchanged(kids[i]);
      }
      assert kids' == kids;
      AssignUnchanged(content, "children");
  }

  /** Normalizing twice is normalizing once. */
  lemma NormalizedIdempotent(b: JValue)
    ensures Normalized(Normalized(b)) == Normalized(b)
  {
    NormalizedIsMetadataFree(b);
    MetadataFreeUnchanged(Normalized(b));
  }

  /** The `forEach` over `metadataProps` that deletes each key from an object. */
  method DeleteMetadata(obj: seq<Field>) returns (r: seq<Field>)
    ensures r == Without(obj, Metadata)
  {
    r := DeleteKeys(obj, MetadataProps);
    MetadataInTurn(obj);
  }

  /** `delete obj[k]` for each `k` of `keys`, in turn. */
  method DeleteKeys(obj: seq<Field>, keys: seq<string>) returns (r: seq<Field>)
    ensures r == DeletedInTurn(obj, keys)
  {
    r := obj;
    for j := 0 to |keys|
      invariant r == DeletedInTurn(obj, keys[..j])
    {
      assert keys[..j + 1][..j] == keys[..j];
      r := Without(r, {keys[j]});
    }
    assert keys[..|keys|] == keys;
  }

  /** Deleting the metadata keys one after another deletes all of them. */
  lemma MetadataInTurn(obj: seq<Field>)
    ensures DeletedInTurn(obj, MetadataProps) == Without(obj, Metadata)
  {
    DeletedInTurnIsWithout(obj, MetadataProps);
    assert KeySet(MetadataProps) == Metadata;
  }

  /** `normalize`: deletes the metadata keys from a copy of the block, then from
      the copy's content object, and replaces an array `children` by its
      elements normalized in turn. The input, a value, is left as it was. */
  method Normalize(block: JValue) returns (copy: JValue)
    decreases block, 2
    ensures copy == Normalized(block)
  {
    copy := block;
    if !copy.JObject? {
      return;
    }
    var root := DeleteMetadata(copy.fields);
    var key := ContentKey(root);
    if key.None? || Lookup(root, key.value).None? || !Lookup(root, key.value).value.JObject? {
      copy := JObject(root);
      return;
    }
    var t := key.value;
    var content := Lookup(root, t).value.fields;
    assert Payload(root) == Some(content);
    NormalizedPayload(block);
    PayloadSmaller(block.fields);
    content := NormalizeContent(content);
    copy := JObject(Assign(root, t, JObject(content)));
  }

  /** The part of `normalize` that works on the content object. */
  method NormalizeContent(content: seq<Field>) returns (r: seq<Field>)
    decreases JObject(content), 1
    ensures r == NormalizedContent(content)
  {
    r := DeleteMetadata(content);
    var children := Lookup(r, "children");
    if children.Some? && children.value.JArray? {
      var kids := children.value.elems;
      assert "children" !in Metadata;
      assert Children(content) == Some(kids);
      LookupSmaller(content, "children");
      var normalizedKids := NormalizeAll(kids);
      assert normalizedKids == seq(|kids|, i requires 0 <= i < |kids| => Normalized(kids[i]));
      r := Assign(r, "children", JArray(normalizedKids));
    } else {
      assert Children(r).None?;
    }
  }

  /** `content.children.map(child => this.normalize(child))` */
  method NormalizeAll(kids: seq<JValue>) returns (r: seq<JValue>)
    decreases JArray(kids), 0
    ensures |r| == |kids| && forall j | 0 <= j < |kids| :: r[j] == Normalized(kids[j])
  {
    r := [];
    for i := 0 to |kids|
      invariant |r| == i
      invariant forall j | 0 <= j < i :: r[j] == Normalized(kids[j])
    {
      assert kids[i] in kids;
      var child := Normalize(kids[i]);
      r := r + [child];
    }
  }
}
