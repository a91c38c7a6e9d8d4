/** BlockComparator: decides whether a rendered block and a persisted block
    hold the same content (src/notion/blocks/comparator.ts). */
module Comparator {
  import opened Json
  import opened Normalizer

  /** Where a difference was found: the child indices leading from the top block. */
  type Path = seq<nat>

  /** One entry of the list `findBlockDifferences` builds; the message text is
      not modelled, only what was compared and where. */
  datatype Difference =
    | TypeMismatch(path: Path)
    | TableWidth(path: Path)
    | RichTextLength(path: Path)
    | RichTextType(path: Path, index: nat)
    | PlainText(path: Path, index: nat)
    | Annotation(path: Path, index: nat, key: string)
    | TextContent(path: Path, index: nat)
    | EquationExpression(path: Path, index: nat)
    | Color(path: Path)
    | Icon(path: Path)
    | ChildrenLength(path: Path)

  /** `obj.type`, when it is a string. */
  function TypeName(fields: seq<Field>): Option<string> {
    match Lookup(fields, "type")
    case Some(JString(t)) => Some(t)
    case _ => None
  }

  /** `obj[key]`, when it is an object. */
  function ObjectAt(fields: seq<Field>, key: string): Option<seq<Field>> {
    match Lookup(fields, key)
    case Some(JObject(fs)) => Some(fs)
    case _ => None
  }

  /** `obj[key] || []` for a property that is either falsy or an array. */
  function ListAt(fields: seq<Field>, key: string): seq<JValue> {
    match Lookup(fields, key)
    case Some(JArray(xs)) => xs
    case _ => []
  }

  /** A property that is absent or an array. */
  predicate ListOrFalsy(fields: seq<Field>, key: string) {
    Truthy(Lookup(fields, key)) ==> Lookup(fields, key).Some? && Lookup(fields, key).value.JArray?
  }

  lemma ListAtSmaller(fields: seq<Field>, key: string, i: nat)
    requires i < |ListAt(fields, key)|
    ensures ListAt(fields, key)[i] < JObject(fields)
  {
    LookupSmaller(fields, key);
    assert ListAt(fields, key)[i] in ListAt(fields, key);
  }

  /** A rich text element the comparison can read without a TypeError: it has
      an `annotations` object, and a `text` or `equation` object when its type
      says so. */
  predicate RichTextShaped(rt: JValue) {
    && rt.JObject?
    && ObjectAt(rt.fields, "annotations").Some?
    && (Lookup(rt.fields, "type") == Some(JString("text")) ==> ObjectAt(rt.fields, "text").Some?)
    && (Lookup(rt.fields, "type") == Some(JString("equation")) ==> ObjectAt(rt.fields, "equation").Some?)
  }

  /** A block `findBlockDifferences` can inspect without a TypeError: a string
      type, an object under that type, arrays (or nothing) for `rich_text` and
      `children`, and the same for every child. */
  predicate Shaped(b: JValue)
    decreases b, 1
  {
    && b.JObject?
    && TypeName(b.fields).Some?
    && match ObjectAt(b.fields, TypeName(b.fields).value)
       case None => false
       case Some(content) =>
         LookupSmaller(b.fields, TypeName(b.fields).value);
         ContentShaped(content)
  }

  predicate ContentShaped(content: seq<Field>)
    decreases JObject(content), 0
  {
    && ListOrFalsy(content, "rich_text")
    && (forall i | 0 <= i < |ListAt(content, "rich_text")| :: RichTextShaped(ListAt(content, "rich_text")[i]))
    && ListOrFalsy(content, "children")
    && forall i | 0 <= i < |ListAt(content, "children")| ::
         ListAtSmaller(content, "children", i);
         Shaped(ListAt(content, "children")[i])
  }

  /** `block[block.type]` of a shaped block. */
  function Content(b: JValue): (content: seq<Field>)
    requires Shaped(b)
    ensures JObject(content) < b
    ensures ContentShaped(content)
  {
    var t := TypeName(b.fields).value;
    LookupSmaller(b.fields, t);
    ObjectAt(b.fields, t).value
  }

  /** Both tables state a width, and the widths are not identical. */
  predicate WidthsDiffer(c1: seq<Field>, c2: seq<Field>) {
    Has(c1, "table_width") && Has(c2, "table_width") && !StrictEq(Lookup(c1, "table_width"), Lookup(c2, "table_width"))
  }

  /** `findBlockDifferences(block1, block2, path)` */
  function Differences(b1: JValue, b2: JValue, path: Path): (r: seq<Difference>)
    requires Shaped(b1) && Shaped(b2)
    decreases b1, 1
    ensures TypeName(b1.fields) != TypeName(b2.fields) ==> r == [TypeMismatch(path)]
    ensures TypeName(b1.fields) == TypeName(b2.fields) == Some("table") && WidthsDiffer(Content(b1), Content(b2)) ==> r == [TableWidth(path)]
  {
    var t1, t2 := TypeName(b1.fields).value, TypeName(b2.fields).value;
    if t1 != t2 then [TypeMismatch(path)]
    else
      var c1, c2 := Content(b1), Content(b2);
      if t1 == "table" && WidthsDiffer(c1, c2) then [TableWidth(path)]
      else
        RichTextDifferences(c1, c2, path)
        + ColorDifferences(c1, c2, path)
        + IconDifferences(c1, c2, path)
        + ChildrenDifferences(c1, c2, path)
  }

  /** The `rich_text` comparison: only when both sides have one. */
  function RichTextDifferences(c1: seq<Field>, c2: seq<Field>, path: Path): (r: seq<Difference>)
    requires ContentShaped(c1) && ContentShaped(c2)
    ensures !Truthy(Lookup(c1, "rich_text")) || !Truthy(Lookup(c2, "rich_text")) ==> r == []
    ensures (&& Truthy(Lookup(c1, "rich_text")) && Truthy(Lookup(c2, "rich_text"))
             && |ListAt(c1, "rich_text")| != |ListAt(c2, "rich_text")|) ==> r == [RichTextLength(path)]
  {
    if Truthy(Lookup(c1, "rich_text")) && Truthy(Lookup(c2, "rich_text")) then
      var rts1, rts2 := ListAt(c1, "rich_text"), ListAt(c2, "rich_text");
      if |rts1| != |rts2| then [RichTextLength(path)]
      else ElementsDifferences(rts1, rts2, path, |rts1|)
    else []
  }

  /** Every rich text element on both sides can be inspected. */
  predicate ElementsShaped(rts1: seq<JValue>, rts2: seq<JValue>) {
    forall i | 0 <= i < |rts1| && i < |rts2| :: RichTextShaped(rts1[i]) && RichTextShaped(rts2[i])
  }

  /** The `forEach` over the first `n` rich text pairs, in order. */
  function ElementsDifferences(rts1: seq<JValue>, rts2: seq<JValue>, path: Path, n: nat): (r: seq<Difference>)
    requires n <= |rts1| == |rts2|
    requires ElementsShaped(rts1, rts2)
  {
    if n == 0 then [] else ElementsDifferences(rts1, rts2, path, n - 1) + ElementAt(rts1, rts2, path, n - 1)
  }

  /** The differences of the `i`-th rich text pair. */
  function ElementAt(rts1: seq<JValue>, rts2: seq<JValue>, path: Path, i: nat): (r: seq<Difference>)
    requires i < |rts1| == |rts2|
    requires ElementsShaped(rts1, rts2)
  {
    ElementDifferences(rts1[i].fields, rts2[i].fields, path, i)
  }

  /** One rich text pair: a type mismatch skips the other checks; otherwise
      `plain_text`, the annotation keys of the first element, and the text
      content or equation expression. A mention is checked on nothing more. */
  function ElementDifferences(rt1: seq<Field>, rt2: seq<Field>, path: Path, i: nat): (r: seq<Difference>)
    requires RichTextShaped(JObject(rt1)) && RichTextShaped(JObject(rt2))
    ensures !StrictEq(Lookup(rt1, "type"), Lookup(rt2, "type")) ==> r == [RichTextType(path, i)]
  {
    if !StrictEq(Lookup(rt1, "type"), Lookup(rt2, "type")) then [RichTextType(path, i)]
    else
      (if StrictEq(Lookup(rt1, "plain_text"), Lookup(rt2, "plain_text")) then [] else [PlainText(path, i)])
      + AnnotationDifferences(ObjectAt(rt1, "annotations").value, ObjectAt(rt2, "annotations").value, path, i)
      + match Lookup(rt1, "type")
        case Some(JString("text")) =>
          if StrictEq(Lookup(ObjectAt(rt1, "text").value, "content"), Lookup(ObjectAt(rt2, "text").value, "content"))
          then [] else [TextContent(path, i)]
        case Some(JString("equation")) =>
          if StrictEq(Lookup(ObjectAt(rt1, "equation").value, "expression"), Lookup(ObjectAt(rt2, "equation").value, "expression"))
          then [] else [EquationExpression(path, i)]
        case _ => []
  }

  /** `Object.entries(rt1.annotations)`: every key of the first element's
      annotations, in order, checked against the second's. */
  function AnnotationDifferences(a1: seq<Field>, a2: seq<Field>, path: Path, i: nat): (r: seq<Difference>)
  {
    if a1 == [] then []
    else
      (if StrictEq(Lookup(a2, a1[0].key), Some(a1[0].value)) then [] else [Annotation(path, i, a1[0].key)])
      + AnnotationDifferences(a1[1..], a2, path, i)
  }

  /** `content.color || "default"` */
  function ColorOrDefault(content: seq<Field>): Option<JValue> {
    if Truthy(Lookup(content, "color")) then Lookup(content, "color") else Some(JString("default"))
  }

  /** The `color` comparison, when either side has the key. */
  function ColorDifferences(c1: seq<Field>, c2: seq<Field>, path: Path): (r: seq<Difference>)
  {
    if (Has(c1, "color") || Has(c2, "color")) && !StrictEq(ColorOrDefault(c1), ColorOrDefault(c2))
    then [Color(path)]
    else []
  }

  /** The `icon` comparison, when either side's icon is truthy; the serialized
      forms are equal exactly when the values are. */
  function IconDifferences(c1: seq<Field>, c2: seq<Field>, path: Path): (r: seq<Difference>)
  {
    if (Truthy(Lookup(c1, "icon")) || Truthy(Lookup(c2, "icon"))) && Lookup(c1, "icon") != Lookup(c2, "icon")
    then [Icon(path)]
    else []
  }

  /** Icons are compared only when one side has a truthy icon, and then as
      whole values; two falsy icons (missing, null, empty) always agree. */
  lemma IconAgreement(c1: seq<Field>, c2: seq<Field>, path: Path)
    ensures IconDifferences(c1, c2, path) == []
        <==> (!Truthy(Lookup(c1, "icon")) && !Truthy(Lookup(c2, "icon"))) || Lookup(c1, "icon") == Lookup(c2, "icon")
    ensures IconDifferences(c1, c2, path) == [] || IconDifferences(c1, c2, path) == [Icon(path)]
    ensures IconDifferences(c1, c2, path) == [] <==> IconDifferences(c2, c1, path) == []
  {
  }

  /** The `children` comparison, when either side has children: missing
      children count as none, and children are compared by position. */
  function ChildrenDifferences(c1: seq<Field>, c2: seq<Field>, path: Path): (r: seq<Difference>)
    requires ContentShaped(c1) && ContentShaped(c2)
    decreases JObject(c1), 0
    ensures !Truthy(Lookup(c1, "children")) && !Truthy(Lookup(c2, "children")) ==> r == []
    ensures ((Truthy(Lookup(c1, "children")) || Truthy(Lookup(c2, "children")))
             && |ListAt(c1, "children")| != |ListAt(c2, "children")|) ==> r == [ChildrenLength(path)]
  {
    if Truthy(Lookup(c1, "children")) || Truthy(Lookup(c2, "children")) then
      var kids1, kids2 := ListAt(c1, "children"), ListAt(c2, "children");
      if |kids1| != |kids2| then [ChildrenLength(path)]
      else if kids1 == [] then []
      else
        LookupSmaller(c1, "children");
        PairwiseDifferences(kids1, kids2, path, |kids1|)
    else []
  }

  /** The `forEach` over the first `n` child pairs, in order. */
  function PairwiseDifferences(kids1: seq<JValue>, kids2: seq<JValue>, path: Path, n: nat): (r: seq<Difference>)
    requires n <= |kids1| == |kids2|
    requires forall i | 0 <= i < |kids1| :: Shaped(kids1[i]) && Shaped(kids2[i])
    decreases JArray(kids1), n
  {
    if n == 0 then []
    else PairwiseDifferences(kids1, kids2, path, n - 1) + ChildDifferences(kids1, kids2, path, n - 1)
  }

  /** The differences of the `i`-th child pair, found under the path extended by `i`. */
  function ChildDifferences(kids1: seq<JValue>, kids2: seq<JValue>, path: Path, i: nat): (r: seq<Difference>)
    requires i < |kids1| == |kids2|
    requires forall j | 0 <= j < |kids1| :: Shaped(kids1[j]) && Shaped(kids2[j])
    decreases JArray(kids1), i
  {
    assert kids1[i] in kids1;
    Differences(kids1[i], kids2[i], path + [i])
  }

  /** The parts joined end to end, in order. */
  function Concat(parts: seq<seq<Difference>>): seq<Difference> {
    if parts == [] then [] else Concat(parts[..|parts| - 1]) + parts[|parts| - 1]
  }

  /** The child comparisons in index order. */
  function ChildParts(kids1: seq<JValue>, kids2: seq<JValue>, path: Path, n: nat): (parts: seq<seq<Difference>>)
    requires n <= |kids1| == |kids2|
    requires forall j | 0 <= j < |kids1| :: Shaped(kids1[j]) && Shaped(kids2[j])
    ensures |parts| == n
    ensures forall i | 0 <= i < n :: parts[i] == ChildDifferences(kids1, kids2, path, i)
  {
    if n == 0 then [] else ChildParts(kids1, kids2, path, n - 1) + [ChildDifferences(kids1, kids2, path, n - 1)]
  }

  /** The `forEach` over the children joins the differences of each pair, in
      index order. */
  lemma {:induction false} PairwiseConcat(kids1: seq<JValue>, kids2: seq<JValue>, path: Path, n: nat)
    requires n <= |kids1| == |kids2|
    requires forall j | 0 <= j < |kids1| :: Shaped(kids1[j]) && Shaped(kids2[j])
    ensures PairwiseDifferences(kids1, kids2, path, n) == Concat(ChildParts(kids1, kids2, path, n))
  {
    if n > 0 {
      PairwiseConcat(kids1, kids2, path, n - 1);
      var parts := ChildParts(kids1, kids2, path, n);
      assert parts[..n - 1] == ChildParts(kids1, kids2, path, n - 1);
    }
  }

  /** Children of equal length (missing ones count as none), when either side
      has some, are compared pair by pair, and the differences are those of
      each pair joined in index order. */
  lemma ChildrenInOrder(c1: seq<Field>, c2: seq<Field>, path: Path)
    requires ContentShaped(c1) && ContentShaped(c2)
    requires Truthy(Lookup(c1, "children")) || Truthy(Lookup(c2, "children"))
    requires |ListAt(c1, "children")| == |ListAt(c2, "children")|
    ensures ChildrenDifferences(c1, c2, path)
         == Concat(ChildParts(ListAt(c1, "children"), ListAt(c2, "children"), path, |ListAt(c1, "children")|))
  {
    PairwiseConcat(ListAt(c1, "children"), ListAt(c2, "children"), path, |ListAt(c1, "children")|);
  }

  /** `areBlocksIdentical(block1, block2)`: both blocks present and no
      difference between their normalized copies. */
  predicate AreBlocksIdentical(b1: JValue, b2: JValue): (r: bool)
    requires Truthy(Some(b1)) && Truthy(Some(b2)) ==> Shaped(Normalized(b1)) && Shaped(Normalized(b2))
    ensures !Truthy(Some(b1)) || !Truthy(Some(b2)) ==> !r
    ensures r ==> TypeName(Normalized(b1).fields) == TypeName(Normalized(b2).fields)
  {
    Truthy(Some(b1)) && Truthy(Some(b2)) && Differences(Normalized(b1), Normalized(b2), []) == []
  }

  /** `block.type` read from a block (`undefined` on anything but an object). */
  function TypeOf(b: JValue): Option<JValue> {
    if b.JObject? then Lookup(b.fields, "type") else None
  }

  /** The gate of `compare`: both types present and identical. */
  predicate TypesMatch(m: JValue, n: JValue) {
    Truthy(TypeOf(m)) && Truthy(TypeOf(n)) && StrictEq(TypeOf(m), TypeOf(n))
  }

  /** What `compare` needs of its arguments: neither is null, and when the
      types match both normalized blocks can be inspected. */
  predicate CanCompare(m: JValue, n: JValue) {
    !m.JNull? && !n.JNull? && (TypesMatch(m, n) ==> Shaped(Normalized(m)) && Shaped(Normalized(n)))
  }

  /** `compare(martianBlock, notionBlock)` */
  predicate Compare(m: JValue, n: JValue): (r: bool)
    requires CanCompare(m, n)
    ensures r ==> TypesMatch(m, n)
    ensures r ==> TypeName(Normalized(m).fields) == TypeName(Normalized(n).fields)
  {
    if !TypesMatch(m, n) then false
    else
      NormalizedRoot(n);
      NormalizedIdempotent(n);
      AreBlocksIdentical(m, Normalized(n))
  }

  /** `compare` holds exactly when the types match and the normalized blocks
      show no difference: normalizing the persisted block a second time
      inside `areBlocksIdentical` changes nothing. */
  lemma CompareMeansNoDifferences(m: JValue, n: JValue)
    requires CanCompare(m, n)
    ensures Compare(m, n) <==> TypesMatch(m, n) && Differences(Normalized(m), Normalized(n), []) == []
  {
    if TypesMatch(m, n) {
      NormalizedRoot(n);
      NormalizedIdempotent(n);
      assert Truthy(Some(m)) && Truthy(Some(Normalized(n)));
      assert Compare(m, n) == AreBlocksIdentical(m, Normalized(n));
    }
  }

  /** A property the comparison reads with `===`: absent or a primitive. */
  predicate Scalar(o: Option<JValue>) {
    o.None? || Primitive(o.value)
  }

  /** A rich text element whose compared fields are primitives and whose
      annotations repeat no key. */
  predicate RichTextWellFormed(rt: JValue) {
    && RichTextShaped(rt)
    && Scalar(Lookup(rt.fields, "type"))
    && Scalar(Lookup(rt.fields, "plain_text"))
    && DistinctKeys(ObjectAt(rt.fields, "annotations").value)
    && (forall j | 0 <= j < |ObjectAt(rt.fields, "annotations").value| ::
          Primitive(ObjectAt(rt.fields, "annotations").value[j].value))
    && (Lookup(rt.fields, "type") == Some(JString("text")) ==>
          Scalar(Lookup(ObjectAt(rt.fields, "text").value, "content")))
    && (Lookup(rt.fields, "type") == Some(JString("equation")) ==>
          Scalar(Lookup(ObjectAt(rt.fields, "equation").value, "expression")))
  }

  /** A shaped block whose fields compared with `===` are primitives, at every depth. */
  predicate WellFormed(b: JValue)
    decreases b, 1
  {
    Shaped(b) && ContentWellFormed(Content(b))
  }

  predicate ContentWellFormed(content: seq<Field>)
    decreases JObject(content), 0
  {
    && ContentShaped(content)
    && Scalar(Lookup(content, "table_width"))
    && Scalar(Lookup(content, "color"))
    && (forall i | 0 <= i < |ListAt(content, "rich_text")| :: RichTextWellFormed(ListAt(content, "rich_text")[i]))
    && forall i | 0 <= i < |ListAt(content, "children")| ::
         ListAtSmaller(content, "children", i);
         WellFormed(ListAt(content, "children")[i])
  }

  /** A well-formed block shows no difference against itself. */
  lemma {:induction false} DifferencesReflexive(b: JValue, path: Path)
    requires WellFormed(b)
    ensures Differences(b, b, path) == []
    decreases b, 1
  {
    var c := Content(b);
    if Truthy(Lookup(c, "rich_text")) {
      var rts := ListAt(c, "rich_text");
      ElementsReflexive(rts, path, |rts|);
    }
    ChildrenReflexive(c, path);
  }

  lemma {:induction false} ChildrenReflexive(c: seq<Field>, path: Path)
    requires ContentWellFormed(c)
    ensures ChildrenDifferences(c, c, path) == []
    decreases JObject(c), 0
  {
    var kids := ListAt(c, "children");
    if Truthy(Lookup(c, "children")) && kids != [] {
      LookupSmaller(c, "children");
      PairwiseReflexive(kids, path, |kids|);
    }
  }

  lemma {:induction false} PairwiseReflexive(kids: seq<JValue>, path: Path, n: nat)
    requires n <= |kids|
    requires forall i | 0 <= i < |kids| :: Shaped(kids[i]) && WellFormed(kids[i])
    ensures PairwiseDifferences(kids, kids, path, n) == []
    decreases JArray(kids), n
  {
    if n > 0 {
      assert kids[n - 1] in kids;
      PairwiseReflexive(kids, path, n - 1);
      DifferencesReflexive(kids[n - 1], path + [n - 1]);
      assert ChildDifferences(kids, kids, path, n - 1) == [];
    }
  }

  lemma {:induction false} ElementsReflexive(rts: seq<JValue>, path: Path, n: nat)
    requires n <= |rts|
    requires forall i | 0 <= i < |rts| :: RichTextShaped(rts[i]) && RichTextWellFormed(rts[i])
    ensures ElementsDifferences(rts, rts, path, n) == []
  {
    if n > 0 {
      assert ElementsShaped(rts, rts);
      ElementsReflexive(rts, path, n - 1);
      ElementReflexive(rts[n - 1], path, n - 1);
      assert ElementAt(rts, rts, path, n - 1) == [];
    }
  }

  lemma ElementReflexive(rt: JValue, path: Path, i: nat)
    requires RichTextWellFormed(rt)
    ensures ElementDifferences(rt.fields, rt.fields, path, i) == []
  {
    var a := ObjectAt(rt.fields, "annotations").value;
    AnnotationsReflexive(a, path, i, 0);
    assert a[0..] == a;
  }

  /** Every annotation, from the `k`-th on, agrees with itself. */
  lemma {:induction false} AnnotationsReflexive(a: seq<Field>, path: Path, i: nat, k: nat)
    requires k <= |a| && DistinctKeys(a)
    requires forall j | 0 <= j < |a| :: Primitive(a[j].value)
    ensures AnnotationDifferences(a[k..], a, path, i) == []
    decreases |a| - k
  {
    if k < |a| {
      LookupAt(a, k);
      assert a[k..][1..] == a[k + 1..];
      AnnotationsReflexive(a, path, i, k + 1);
    }
  }

  /** A well-formed block is identical to itself. */
  lemma BlockIdenticalToItself(b: JValue)
    requires Truthy(Some(b)) && WellFormed(Normalized(b))
    ensures AreBlocksIdentical(b, b)
  {
    DifferencesReflexive(Normalized(b), []);
  }

  /** A block with a primitive type compares equal to itself. */
  lemma CompareReflexive(b: JValue)
    requires b.JObject? && Truthy(TypeOf(b)) && Primitive(TypeOf(b).value)
    requires WellFormed(Normalized(b))
    ensures Compare(b, b)
  {
    DifferencesReflexive(Normalized(b), []);
    CompareMeansNoDifferences(b, b);
  }

  /** Children agree exactly when the lists are as long as each other and
      every pair at the same position agrees. */
  lemma {:induction false} ChildrenDifferencesEmpty(c1: seq<Field>, c2: seq<Field>, path: Path)
    requires ContentShaped(c1) && ContentShaped(c2)
    ensures var kids1, kids2 := ListAt(c1, "children"), ListAt(c2, "children");
      ChildrenDifferences(c1, c2, path) == [] <==>
        |kids1| == |kids2| && PairsAgree(kids1, kids2, path, |kids1|)
  {
    var kids1, kids2 := ListAt(c1, "children"), ListAt(c2, "children");
    if |kids1| == |kids2| {
      PairwiseEmpty(kids1, kids2, path, |kids1|);
    }
  }

  /** Every pair among the first `n` children agrees. */
  predicate PairsAgree(kids1: seq<JValue>, kids2: seq<JValue>, path: Path, n: nat)
    requires n <= |kids1| == |kids2|
    requires forall i | 0 <= i < |kids1| :: Shaped(kids1[i]) && Shaped(kids2[i])
  {
    forall i | 0 <= i < n :: ChildDifferences(kids1, kids2, path, i) == []
  }

  lemma {:induction false} PairwiseEmpty(kids1: seq<JValue>, kids2: seq<JValue>, path: Path, n: nat)
    requires n <= |kids1| == |kids2|
    requires forall i | 0 <= i < |kids1| :: Shaped(kids1[i]) && Shaped(kids2[i])
    ensures PairwiseDifferences(kids1, kids2, path, n) == [] <==> PairsAgree(kids1, kids2, path, n)
  {
    if n > 0 {
      PairwiseEmpty(kids1, kids2, path, n - 1);
      var init := PairwiseDifferences(kids1, kids2, path, n - 1);
      var last := ChildDifferences(kids1, kids2, path, n - 1);
      assert PairwiseDifferences(kids1, kids2, path, n) == init + last;
      assert PairsAgree(kids1, kids2, path, n) <==> PairsAgree(kids1, kids2, path, n - 1) && last == [];
    }
  }

  /** Every pair among the first `n` rich text elements agrees. */
  predicate ElementsAgree(rts1: seq<JValue>, rts2: seq<JValue>, path: Path, n: nat)
    requires n <= |rts1| == |rts2|
    requires ElementsShaped(rts1, rts2)
  {
    forall i | 0 <= i < n :: ElementAt(rts1, rts2, path, i) == []
  }

  lemma {:induction false} ElementsEmpty(rts1: seq<JValue>, rts2: seq<JValue>, path: Path, n: nat)
    requires n <= |rts1| == |rts2|
    requires ElementsShaped(rts1, rts2)
    ensures ElementsDifferences(rts1, rts2, path, n) == [] <==> ElementsAgree(rts1, rts2, path, n)
  {
    if n > 0 {
      ElementsEmpty(rts1, rts2, path, n - 1);
      var init := ElementsDifferences(rts1, rts2, path, n - 1);
      var last := ElementAt(rts1, rts2, path, n - 1);
      assert ElementsDifferences(rts1, rts2, path, n) == init + last;
      assert ElementsAgree(rts1, rts2, path, n) <==> ElementsAgree(rts1, rts2, path, n - 1) && last == [];
    }
  }

  /** Rich text agrees exactly when one side has none, or both have lists
      of the same length whose elements agree position by position. */
  lemma RichTextDifferencesEmpty(c1: seq<Field>, c2: seq<Field>, path: Path)
    requires ContentShaped(c1) && ContentShaped(c2)
    ensures RichTextDifferences(c1, c2, path) == [] <==>
      || !Truthy(Lookup(c1, "rich_text"))
      || !Truthy(Lookup(c2, "rich_text"))
      || (&& |ListAt(c1, "rich_text")| == |ListAt(c2, "rich_text")|
          && ElementsAgree(ListAt(c1, "rich_text"), ListAt(c2, "rich_text"), path, |ListAt(c1, "rich_text")|))
  {
    var rts1, rts2 := ListAt(c1, "rich_text"), ListAt(c2, "rich_text");
    if Truthy(Lookup(c1, "rich_text")) && Truthy(Lookup(c2, "rich_text")) && |rts1| == |rts2| {
      ElementsEmpty(rts1, rts2, path, |rts1|);
    }
  }

  /** Properties a rich text element has besides its type, plain text,
      annotations, text content and equation expression (`href`, a mention's
      target, ...) are never compared, on either side. */
  lemma UncomparedPropertiesIgnored(rt1: seq<Field>, rt2: seq<Field>, path: Path, i: nat, k: string, v1: JValue, v2: JValue)
    requires RichTextShaped(JObject(rt1)) && RichTextShaped(JObject(rt2))
    requires k != "type" && k != "plain_text" && k != "annotations" && k != "text" && k != "equation"
    ensures RichTextShaped(JObject(Assign(rt1, k, v1))) && RichTextShaped(JObject(Assign(rt2, k, v2)))
    ensures ElementDifferences(Assign(rt1, k, v1), Assign(rt2, k, v2), path, i) == ElementDifferences(rt1, rt2, path, i)
  {
    AssignKeepsCompared(rt1, k, v1);
    AssignKeepsCompared(rt2, k, v2);
    SameComparedSameDifferences(Assign(rt1, k, v1), rt1, Assign(rt2, k, v2), rt2, path, i);
  }

  /** Two rich text elements agree on every property the comparison reads. */
  predicate SameCompared(a: seq<Field>, b: seq<Field>) {
    && Lookup(a, "type") == Lookup(b, "type")
    && Lookup(a, "plain_text") == Lookup(b, "plain_text")
    && ObjectAt(a, "annotations") == ObjectAt(b, "annotations")
    && ObjectAt(a, "text") == ObjectAt(b, "text")
    && ObjectAt(a, "equation") == ObjectAt(b, "equation")
  }

  lemma AssignKeepsCompared(rt: seq<Field>, k: string, v: JValue)
    requires k != "type" && k != "plain_text" && k != "annotations" && k != "text" && k != "equation"
    ensures SameCompared(Assign(rt, k, v), rt)
  {
    var r := Assign(rt, k, v);
    assert Lookup(r, "type") == Lookup(rt, "type");
    assert Lookup(r, "plain_text") == Lookup(rt, "plain_text");
    assert Lookup(r, "annotations") == Lookup(rt, "annotations");
    assert Lookup(r, "text") == Lookup(rt, "text");
    assert Lookup(r, "equation") == Lookup(rt, "equation");
  }

  lemma SameComparedSameDifferences(a1: seq<Field>, b1: seq<Field>, a2: seq<Field>, b2: seq<Field>, path: Path, i: nat)
    requires SameCompared(a1, b1) && SameCompared(a2, b2)
    requires RichTextShaped(JObject(b1)) && RichTextShaped(JObject(b2))
    ensures RichTextShaped(JObject(a1)) && RichTextShaped(JObject(a2))
    ensures ElementDifferences(a1, a2, path, i) == ElementDifferences(b1, b2, path, i)
  {
  }

  /** A missing or empty colour counts as "default". */
  lemma ColorDefaultsToDefault(c1: seq<Field>, c2: seq<Field>, path: Path)
    requires !Truthy(Lookup(c1, "color"))
    requires Lookup(c2, "color") == Some(JString("default"))
    ensures ColorDifferences(c1, c2, path) == [] && ColorDifferences(c2, c1, path) == []
  {
  }

  /** A mention element: its target, its plain text and its annotations. */
  function Mention(target: JValue, text: JValue, annotations: seq<Field>): seq<Field> {
    [Field("type", JString("mention")), Field("plain_text", text), Field("mention", target),
     Field("annotations", JObject(annotations))]
  }

  /** A paragraph holding one mention. */
  function MentionParagraph(target: JValue, text: JValue, annotations: seq<Field>): JValue {
    JObject([Field("type", JString("paragraph")),
             Field("paragraph", JObject([Field("rich_text", JArray([JObject(Mention(target, text, annotations))]))]))])
  }

  lemma MentionParagraphShape(target: JValue, text: JValue, annotations: seq<Field>)
    ensures Shaped(MentionParagraph(target, text, annotations))
    ensures TypeName(MentionParagraph(target, text, annotations).fields) == Some("paragraph")
    ensures Content(MentionParagraph(target, text, annotations))
         == [Field("rich_text", JArray([JObject(Mention(target, text, annotations))]))]
  {
    var m := Mention(target, text, annotations);
    var c := [Field("rich_text", JArray([JObject(m)]))];
    var b := [Field("type", JString("paragraph")), Field("paragraph", JObject(c))];
    LookupTwo(b[0], b[1], "type");
    LookupTwo(b[0], b[1], "paragraph");
    LookupOne(b[1], "paragraph");
    LookupOne(c[0], "rich_text");
    LookupOne(c[0], "children");
    MentionElement(target, text, annotations);
  }

  /** Between two mention paragraphs the plain text and the annotations are
      compared, and nothing else: the mention targets play no part. */
  lemma MentionParagraphDifferences(t1: JValue, s1: JValue, a1: seq<Field>, t2: JValue, s2: JValue, a2: seq<Field>)
    ensures Shaped(MentionParagraph(t1, s1, a1)) && Shaped(MentionParagraph(t2, s2, a2))
    ensures Differences(MentionParagraph(t1, s1, a1), MentionParagraph(t2, s2, a2), [])
         == (if StrictEq(Some(s1), Some(s2)) then [] else [PlainText([], 0)]) + AnnotationDifferences(a1, a2, [], 0)
  {
    MentionParagraphShape(t1, s1, a1);
    MentionParagraphShape(t2, s2, a2);
    var m1, m2 := Mention(t1, s1, a1), Mention(t2, s2, a2);
    MentionElementDifferences(t1, s1, a1, t2, s2, a2);
    ContentOfMention(m1);
    ContentOfMention(m2);
    assert ElementsDifferences([JObject(m1)], [JObject(m2)], [], 1) == ElementDifferences(m1, m2, [], 0);
  }

  lemma MentionElementDifferences(t1: JValue, s1: JValue, a1: seq<Field>, t2: JValue, s2: JValue, a2: seq<Field>)
    ensures RichTextShaped(JObject(Mention(t1, s1, a1))) && RichTextShaped(JObject(Mention(t2, s2, a2)))
    ensures ElementDifferences(Mention(t1, s1, a1), Mention(t2, s2, a2), [], 0)
         == (if StrictEq(Some(s1), Some(s2)) then [] else [PlainText([], 0)]) + AnnotationDifferences(a1, a2, [], 0)
  {
    MentionElement(t1, s1, a1);
    MentionElement(t2, s2, a2);
    var plain := if StrictEq(Some(s1), Some(s2)) then [] else [PlainText([], 0)];
    assert ElementDifferences(Mention(t1, s1, a1), Mention(t2, s2, a2), [], 0)
        == plain + AnnotationDifferences(a1, a2, [], 0) + [];
  }

  /** Two mentions with the same primitive plain text differ only in their
      annotations, whatever they point at. */
  lemma MentionTargetIgnored(t1: JValue, t2: JValue, s: JValue, a1: seq<Field>, a2: seq<Field>)
    requires Primitive(s)
    ensures Shaped(MentionParagraph(t1, s, a1)) && Shaped(MentionParagraph(t2, s, a2))
    ensures Differences(MentionParagraph(t1, s, a1), MentionParagraph(t2, s, a2), []) == AnnotationDifferences(a1, a2, [], 0)
  {
    MentionParagraphDifferences(t1, s, a1, t2, s, a2);
  }

  lemma MentionElement(target: JValue, text: JValue, annotations: seq<Field>)
    ensures Lookup(Mention(target, text, annotations), "type") == Some(JString("mention"))
    ensures Lookup(Mention(target, text, annotations), "plain_text") == Some(text)
    ensures ObjectAt(Mention(target, text, annotations), "annotations") == Some(annotations)
    ensures RichTextShaped(JObject(Mention(target, text, annotations)))
  {
    var m := Mention(target, text, annotations);
    assert m[1..] == [m[1], m[2], m[3]];
    assert m[1..][1..] == [m[2], m[3]];
    LookupTwo(m[2], m[3], "annotations");
    LookupOne(m[3], "annotations");
    assert Lookup(m, "annotations") == Lookup([m[2], m[3]], "annotations") == Some(JObject(annotations));
  }

  lemma ContentOfMention(m: seq<Field>)
    ensures var c := [Field("rich_text", JArray([JObject(m)]))];
      && ListAt(c, "rich_text") == [JObject(m)] && Truthy(Lookup(c, "rich_text"))
      && !Has(c, "color") && !Has(c, "icon") && !Has(c, "children")
  {
    var f := Field("rich_text", JArray([JObject(m)]));
    LookupOne(f, "rich_text");
    LookupOne(f, "color");
    LookupOne(f, "icon");
    LookupOne(f, "children");
  }

  /** Annotations are checked over the keys of the first block's elements
      only, so an annotation only the second
      block sets goes unnoticed one way and is reported the other way. */
  lemma AnnotationsComparedOneWay(target: JValue, text: JValue)
    requires Primitive(text)
    ensures Shaped(MentionParagraph(target, text, [])) && Shaped(MentionParagraph(target, text, [Field("bold", JBool(true))]))
    ensures Differences(MentionParagraph(target, text, []), MentionParagraph(target, text, [Field("bold", JBool(true))]), []) == []
    ensures Differences(MentionParagraph(target, text, [Field("bold", JBool(true))]), MentionParagraph(target, text, []), [])
            == [Annotation([], 0, "bold")]
  {
    var bold := [Field("bold", JBool(true))];
    MentionTargetIgnored(target, target, text, [], bold);
    MentionTargetIgnored(target, target, text, bold, []);
    assert AnnotationDifferences(bold, [], [], 0) == [Annotation([], 0, "bold")] by {
      assert bold[1..] == [];
    }
  }
}
