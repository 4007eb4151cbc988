/**
 * Turning one object literal of the tree into a protocol record: string
 * literals lose their quotes, `oracles` becomes a sorted set and
 * `oraclesBreakdown` a list of `(name, type)` entries sorted by name then
 * type. When a key is repeated, the last pair with the expected value kind
 * wins.
 */
module Normalize {
  import opened Wrappers
  import opened Text
  import opened Syntax

  datatype BreakdownItem = BreakdownItem(name: string, oracleType: string)

  datatype Record = Record(
    id: string,
    name: string,
    file: string,
    oracles: seq<string>,
    breakdown: seq<BreakdownItem>)

  predicate IsQuote(c: char)
  {
    c == '"' || c == '\''
  }

  /** Strips one matching pair of quotes, double or single; anything else is returned as it is. */
  function Unquote(s: string): string
  {
    if |s| >= 2 && s[0] == s[|s| - 1] && IsQuote(s[0]) then s[1..|s| - 1] else s
  }

  /**
   * Text quoted on both ends with the same quote character loses exactly
   * those two characters; any other text is returned unchanged.
   */
  lemma UnquoteSpec(s: string)
    ensures var r := Unquote(s);
      |s| >= 2 && s[0] == s[|s| - 1] && IsQuote(s[0]) ==> s == [s[0]] + r + [s[0]]
    ensures !(|s| >= 2 && s[0] == s[|s| - 1] && IsQuote(s[0])) ==> Unquote(s) == s
  {
    if |s| >= 2 && s[0] == s[|s| - 1] && IsQuote(s[0]) {
      assert s == [s[0]] + s[1..|s| - 1] + [s[0]];
    }
  }

  /** Quoting any text and unquoting it gives the text back. */
  lemma UnquoteQuoted(v: string, q: char)
    requires IsQuote(q)
    ensures Unquote([q] + v + [q]) == v
  {
    var s := [q] + v + [q];
    assert s[1..|s| - 1] == v;
  }

  /** The name of a pair's key: an identifier as written, a string literal unquoted, otherwise none. */
  function KeyName(key: Node): (r: Option<string>)
    ensures r.Some? <==> key.kind == "property_identifier" || IsString(key)
  {
    if key.kind == "property_identifier" then Some(key.text)
    else if IsString(key) then Some(Unquote(key.text))
    else None
  }

  /** `iter_object_pairs`: the key and value of every `pair` child that has both fields. */
  function ObjectPairs(obj: Node): (r: seq<(Node, Node)>)
    ensures |r| <= |obj.children|
  {
    PairsOf(obj.children)
  }

  function PairsOf(s: seq<Node>): (r: seq<(Node, Node)>)
    ensures |r| <= |s|
  {
    if s == [] then []
    else
      var c := s[|s| - 1];
      PairsOf(s[..|s| - 1])
      + (if IsPair(c) && Key(c).Some? && Value(c).Some? then [(Key(c).value, Value(c).value)] else [])
  }

  /**
   * The pairs are exactly the `pair` children that have both a key and a
   * value field; children of other kinds and incomplete pairs are skipped.
   */
  lemma {:induction false} PairsOfChildren(s: seq<Node>, p: (Node, Node))
    ensures p in PairsOf(s) <==> exists c :: c in s && IsPair(c) && Key(c) == Some(p.0) && Value(c) == Some(p.1)
  {
    if s != [] {
      var init, c := s[..|s| - 1], s[|s| - 1];
      PairsOfChildren(init, p);
      assert s == init + [c];
      if exists d :: d in s && IsPair(d) && Key(d) == Some(p.0) && Value(d) == Some(p.1) {
        var d :| d in s && IsPair(d) && Key(d) == Some(p.0) && Value(d) == Some(p.1);
        if d != c { assert d in init; }
      }
    }
  }

  /**
   * The pairs follow the order of the children: the pairs of two runs of
   * children are those of the first run, then those of the second.
   */
  lemma {:induction false} PairsOfAppend(a: seq<Node>, b: seq<Node>)
    ensures PairsOf(a + b) == PairsOf(a) + PairsOf(b)
    decreases |b|
  {
    if b == [] {
      assert a + b == a;
    } else {
      var ab := a + b;
      assert ab[..|ab| - 1] == a + b[..|b| - 1];
      assert ab[|ab| - 1] == b[|b| - 1];
      PairsOfAppend(a, b[..|b| - 1]);
    }
  }

  predicate Matches(p: (Node, Node), key: string, kind: string)
  {
    KeyName(p.0) == Some(key) && p.1.kind == kind
  }

  /** The value of the last pair whose key is `key` and whose value has kind `kind`. */
  function LastValue(pairs: seq<(Node, Node)>, key: string, kind: string): Option<Node>
  {
    if pairs == [] then None
    else if Matches(pairs[|pairs| - 1], key, kind) then Some(pairs[|pairs| - 1].1)
    else LastValue(pairs[..|pairs| - 1], key, kind)
  }

  /** Position `i` holds the last pair with this key and value kind. */
  predicate LastMatchAt(pairs: seq<(Node, Node)>, key: string, kind: string, i: int)
  {
    && 0 <= i < |pairs|
    && Matches(pairs[i], key, kind)
    && forall j :: i < j < |pairs| ==> !Matches(pairs[j], key, kind)
  }

  /** Last write wins: the field takes the value of the last matching pair, and is absent only when none matches. */
  lemma {:induction false} LastValueIsLastMatch(pairs: seq<(Node, Node)>, key: string, kind: string)
    ensures LastValue(pairs, key, kind).None? <==> forall i :: 0 <= i < |pairs| ==> !Matches(pairs[i], key, kind)
    ensures forall i :: LastMatchAt(pairs, key, kind, i) ==> LastValue(pairs, key, kind) == Some(pairs[i].1)
  {
    LastValueNone(pairs, key, kind);
    forall i | LastMatchAt(pairs, key, kind, i) ensures LastValue(pairs, key, kind) == Some(pairs[i].1) {
      LastValueAt(pairs, key, kind, i);
    }
  }

  lemma {:induction false} LastValueNone(pairs: seq<(Node, Node)>, key: string, kind: string)
    ensures LastValue(pairs, key, kind).None? <==> forall i :: 0 <= i < |pairs| ==> !Matches(pairs[i], key, kind)
  {
    if pairs != [] {
      var init := pairs[..|pairs| - 1];
      LastValueNone(init, key, kind);
      assert forall i :: 0 <= i < |init| ==> init[i] == pairs[i];
    }
  }

  lemma {:induction false} LastValueAt(pairs: seq<(Node, Node)>, key: string, kind: string, i: int)
    requires LastMatchAt(pairs, key, kind, i)
    ensures LastValue(pairs, key, kind) == Some(pairs[i].1)
    decreases |pairs|
  {
    var k := |pairs| - 1;
    if i < k {
      var init := pairs[..k];
      assert !Matches(pairs[k], key, kind);
      assert init[i] == pairs[i];
      assert forall j :: i < j < |init| ==> init[j] == pairs[j];
      assert LastMatchAt(init, key, kind, i);
      LastValueAt(init, key, kind, i);
    }
  }

  /** One more pair: it overwrites the field when it matches. */
  lemma LastValueStep(pairs: seq<(Node, Node)>, i: nat, key: string, kind: string)
    requires i < |pairs|
    ensures LastValue(pairs[..i + 1], key, kind)
      == if Matches(pairs[i], key, kind) then Some(pairs[i].1) else LastValue(pairs[..i], key, kind)
  {
    assert pairs[..i + 1][..i] == pairs[..i];
  }

  /** A string-valued field: the last string value of that key, unquoted, or `""` when there is none. */
  function StringField(pairs: seq<(Node, Node)>, key: string): string
  {
    match LastValue(pairs, key, "string")
    case None => ""
    case Some(v) => Unquote(v.text)
  }

  /**
   * A string field is the unquoted text of the last string value under its
   * key, and `""` when no pair has that key with a string value, whether the
   * key is missing or its values are of another kind.
   */
  lemma StringFieldValue(pairs: seq<(Node, Node)>, key: string)
    ensures (forall i :: 0 <= i < |pairs| ==> !Matches(pairs[i], key, "string")) ==> StringField(pairs, key) == ""
    ensures forall i :: LastMatchAt(pairs, key, "string", i) ==> StringField(pairs, key) == Unquote(pairs[i].1.text)
  {
    LastValueIsLastMatch(pairs, key, "string");
  }

  /** `array_string_values` over the array's named children: the unquoted string elements, in order. */
  function StringValues(els: seq<Node>): (r: seq<string>)
    ensures |r| <= |els|
  {
    if els == [] then []
    else
      var e := els[|els| - 1];
      StringValues(els[..|els| - 1]) + (if IsString(e) then [Unquote(e.text)] else [])
  }

  /** The values are exactly the unquoted string elements; elements of any other kind are ignored. */
  lemma StringValuesElems(els: seq<Node>)
    ensures Elems(StringValues(els)) == set e | e in els && IsString(e) :: Unquote(e.text)
  {
    var whole := set e | e in els && IsString(e) :: Unquote(e.text);
    forall v ensures v in Elems(StringValues(els)) <==> v in whole {
      StringValuesHas(els, v);
      if v in whole {
        var e :| e in els && IsString(e) && Unquote(e.text) == v;
        var i :| 0 <= i < |els| && els[i] == e;
        assert StringElement(els[i], v);
      }
    }
  }

  /** `e` is a string element whose unquoted text is `v`. */
  predicate StringElement(e: Node, v: string)
  {
    IsString(e) && Unquote(e.text) == v
  }

  lemma {:induction false} StringValuesHas(els: seq<Node>, v: string)
    ensures v in StringValues(els) <==> exists i :: 0 <= i < |els| && StringElement(els[i], v)
  {
    if els != [] {
      var init, e := els[..|els| - 1], els[|els| - 1];
      StringValuesHas(init, v);
      var tail := if IsString(e) then [Unquote(e.text)] else [];
      assert v in tail <==> StringElement(e, v);
      if exists i :: 0 <= i < |els| - 1 && StringElement(els[i], v) {
        var i :| 0 <= i < |els| - 1 && StringElement(els[i], v);
        assert StringElement(init[i], v);
      }
      if exists i :: 0 <= i < |init| && StringElement(init[i], v) {
        var i :| 0 <= i < |init| && StringElement(init[i], v);
        assert StringElement(els[i], v);
      }
    }
  }

  /** `array_string_values`: appends each string element's unquoted text. */
  method ArrayStringValues(arr: Node) returns (out: seq<string>)
    ensures out == StringValues(NamedChildren(arr))
  {
    var els := NamedChildren(arr);
    out := [];
    for i := 0 to |els|
      invariant out == StringValues(els[..i])
    {
      assert els[..i + 1][..i] == els[..i];
      if IsString(els[i]) {
        out := out + [Unquote(els[i].text)];
      }
    }
    assert els[..|els|] == els;
  }

  /** The breakdown entry an object element yields, if its name or its type is non-empty. */
  function ItemOf(el: Node): (r: Option<BreakdownItem>)
    ensures r.Some? ==> r.value.name != "" || r.value.oracleType != ""
  {
    var pairs := ObjectPairs(el);
    var name, oracleType := StringField(pairs, "name"), StringField(pairs, "type");
    if name != "" || oracleType != "" then Some(BreakdownItem(name, oracleType)) else None
  }

  /** The entries of the object elements, in array order, before sorting. */
  function RawItems(els: seq<Node>): (r: seq<BreakdownItem>)
    ensures forall it :: it in r ==> exists e :: e in els && IsObject(e) && ItemOf(e) == Some(it)
  {
    if els == [] then []
    else
      var e := els[|els| - 1];
      RawItems(els[..|els| - 1]) + (if IsObject(e) && ItemOf(e).Some? then [ItemOf(e).value] else [])
  }

  function ObjectCount(els: seq<Node>): nat
  {
    if els == [] then 0 else ObjectCount(els[..|els| - 1]) + (if IsObject(els[|els| - 1]) then 1 else 0)
  }

  /** Every object element with a non-empty name or type contributes its entry. */
  lemma {:induction false} RawItemsHas(els: seq<Node>, e: Node)
    requires e in els && IsObject(e) && ItemOf(e).Some?
    ensures ItemOf(e).value in RawItems(els)
  {
    var init, last := els[..|els| - 1], els[|els| - 1];
    assert els == init + [last];
    if e != last {
      assert e in init;
      RawItemsHas(init, e);
    }
  }

  /** At most one entry per object element. */
  lemma {:induction false} RawItemsAtMostOnePerObject(els: seq<Node>)
    ensures |RawItems(els)| <= ObjectCount(els)
  {
    if els != [] {
      RawItemsAtMostOnePerObject(els[..|els| - 1]);
    }
  }

  /** The tuple order `(name, type)` that the sort key compares. */
  predicate ItemLess(x: BreakdownItem, y: BreakdownItem)
  {
    Less(x.name, y.name) || (x.name == y.name && Less(x.oracleType, y.oracleType))
  }

  predicate ItemLeq(x: BreakdownItem, y: BreakdownItem)
  {
    x == y || ItemLess(x, y)
  }

  lemma ItemLeqTotal(x: BreakdownItem, y: BreakdownItem)
    ensures ItemLeq(x, y) || ItemLeq(y, x)
  {
    LessTotal(x.name, y.name);
    LessTotal(x.oracleType, y.oracleType);
  }

  lemma ItemLeqTransitive(x: BreakdownItem, y: BreakdownItem, z: BreakdownItem)
    requires ItemLeq(x, y) && ItemLeq(y, z)
    ensures ItemLeq(x, z)
  {
    if x != y && y != z {
      if Less(x.name, y.name) && Less(y.name, z.name) {
        LessTransitive(x.name, y.name, z.name);
      } else if x.name == y.name && y.name == z.name {
        LessTransitive(x.oracleType, y.oracleType, z.oracleType);
      }
    }
  }

  lemma ItemLeqAntisymmetric(x: BreakdownItem, y: BreakdownItem)
    requires ItemLeq(x, y) && ItemLeq(y, x)
    ensures x == y
  {
    if x != y {
      if Less(x.name, y.name) {
        LessAsymmetric(x.name, y.name);
      } else {
        LessIrreflexive(x.name);
        LessAsymmetric(x.oracleType, y.oracleType);
      }
    }
  }

  predicate SortedItems(s: seq<BreakdownItem>)
  {
    forall i, j :: 0 <= i < j < |s| ==> ItemLeq(s[i], s[j])
  }

  /** Every entry of `s` sorts at or after `b`. */
  predicate AtLeast(b: BreakdownItem, s: seq<BreakdownItem>)
  {
    forall j :: 0 <= j < |s| ==> ItemLeq(b, s[j])
  }

  /** A lower bound of a sequence bounds every rearrangement of it. */
  lemma AtLeastRearranged(b: BreakdownItem, s: seq<BreakdownItem>, t: seq<BreakdownItem>)
    requires AtLeast(b, s) && multiset(t) == multiset(s)
    ensures AtLeast(b, t)
  {
    forall j | 0 <= j < |t| ensures ItemLeq(b, t[j]) {
      assert t[j] in multiset(s);
      var k :| 0 <= k < |s| && s[k] == t[j];
    }
  }

  lemma SortedCons(b: BreakdownItem, s: seq<BreakdownItem>)
    requires AtLeast(b, s) && SortedItems(s)
    ensures SortedItems([b] + s)
  {
    var r := [b] + s;
    forall i, j | 0 <= i < j < |r| ensures ItemLeq(r[i], r[j]) {
      assert r[j] == s[j - 1];
      if i > 0 { assert r[i] == s[i - 1]; }
    }
  }

  function InsertItem(x: BreakdownItem, s: seq<BreakdownItem>): (r: seq<BreakdownItem>)
    requires SortedItems(s)
    ensures SortedItems(r) && multiset(r) == multiset(s) + multiset{x}
  {
    if s == [] then [x]
    else if ItemLeq(x, s[0]) then
      assert AtLeast(x, s) by {
        forall j | 0 <= j < |s| ensures ItemLeq(x, s[j]) {
          if j > 0 { ItemLeqTransitive(x, s[0], s[j]); }
        }
      }
      SortedCons(x, s);
      [x] + s
    else
      ItemLeqTotal(x, s[0]);
      var rest := s[1..];
      var t := InsertItem(x, rest);
      assert s == [s[0]] + rest;
      assert AtLeast(s[0], [x] + rest) by {
        forall j | 0 <= j < |[x] + rest| ensures ItemLeq(s[0], ([x] + rest)[j]) {
          if j > 0 { assert ([x] + rest)[j] == s[j]; }
        }
      }
      AtLeastRearranged(s[0], [x] + rest, t);
      SortedCons(s[0], t);
      [s[0]] + t
  }

  /** `items.sort(key=lambda x: (x["name"], x["type"]))`: a sorted rearrangement of the entries. */
  function SortItems(xs: seq<BreakdownItem>): (r: seq<BreakdownItem>)
    ensures SortedItems(r) && multiset(r) == multiset(xs)
  {
    if xs == [] then []
    else
      assert xs == xs[..|xs| - 1] + [xs[|xs| - 1]];
      InsertItem(xs[|xs| - 1], SortItems(xs[..|xs| - 1]))
  }

  /**
   * A sorted rearrangement is unique, because equal sort keys mean equal
   * entries; so the stable sort of the source and any other sort agree.
   */
  lemma {:induction false} SortedItemsUnique(x: seq<BreakdownItem>, y: seq<BreakdownItem>)
    requires SortedItems(x) && SortedItems(y) && multiset(x) == multiset(y)
    ensures x == y
    decreases |x|
  {
    if x != [] {
      SameHead(x, y);
      MultisetTail(x);
      MultisetTail(y);
      assert SortedItems(x[1..]) && SortedItems(y[1..]);
      SortedItemsUnique(x[1..], y[1..]);
      assert x == [x[0]] + x[1..] && y == [y[0]] + y[1..];
    } else {
      assert |multiset(y)| == 0;
    }
  }

  /** Two sorted rearrangements of the same entries start with the same entry. */
  lemma SameHead(x: seq<BreakdownItem>, y: seq<BreakdownItem>)
    requires SortedItems(x) && SortedItems(y) && multiset(x) == multiset(y) && x != []
    ensures y != [] && x[0] == y[0]
  {
    assert x[0] in multiset(x);
    assert y != [] by { assert x[0] in multiset(y); }
    assert y[0] in multiset(y);
    HeadIsLeast(y, x[0]);
    HeadIsLeast(x, y[0]);
    ItemLeqAntisymmetric(x[0], y[0]);
  }

  lemma HeadIsLeast(x: seq<BreakdownItem>, v: BreakdownItem)
    requires SortedItems(x) && v in x
    ensures ItemLeq(x[0], v)
  {
    var i :| 0 <= i < |x| && x[i] == v;
    if i > 0 { assert ItemLeq(x[0], x[i]); }
  }

  lemma MultisetTail(x: seq<BreakdownItem>)
    requires x != []
    ensures multiset(x[1..]) == multiset(x) - multiset{x[0]}
  {
    assert x == [x[0]] + x[1..];
  }

  /** `oracles_breakdown_items`: the entries of the object elements, sorted by name and type. */
  function BreakdownItems(arr: Node): (r: seq<BreakdownItem>)
    ensures SortedItems(r)
    ensures multiset(r) == multiset(RawItems(NamedChildren(arr)))
    ensures forall it :: it in r ==> it.name != "" || it.oracleType != ""
  {
    var raw := RawItems(NamedChildren(arr));
    var r := SortItems(raw);
    assert forall it :: it in r ==> it in raw by {
      forall it | it in r ensures it in raw {
        assert it in multiset(r);
      }
    }
    r
  }

  /** The sorted entries keep the entry of every object element that has one. */
  lemma BreakdownItemsHas(arr: Node, e: Node)
    requires e in NamedChildren(arr) && IsObject(e) && ItemOf(e).Some?
    ensures ItemOf(e).value in BreakdownItems(arr)
  {
    RawItemsHas(NamedChildren(arr), e);
    assert ItemOf(e).value in multiset(RawItems(NamedChildren(arr)));
  }

  lemma RawItemsStep(els: seq<Node>, i: nat)
    requires i < |els|
    ensures RawItems(els[..i + 1]) == RawItems(els[..i])
      + (if IsObject(els[i]) && ItemOf(els[i]).Some? then [ItemOf(els[i]).value] else [])
  {
    assert els[..i + 1][..i] == els[..i];
  }

  /** The entry of one object element: its last string `name` and `type`, kept when either is non-empty. */
  method ScanItem(el: Node) returns (item: Option<BreakdownItem>)
    ensures item == ItemOf(el)
  {
    var nameVal, typeVal := "", "";
    var pairs := ObjectPairs(el);
    for j := 0 to |pairs|
      invariant nameVal == StringField(pairs[..j], "name")
      invariant typeVal == StringField(pairs[..j], "type")
    {
      LastValueStep(pairs, j, "name", "string");
      LastValueStep(pairs, j, "type", "string");
      var (kNode, vNode) := pairs[j];
      var k := KeyName(kNode);
      if k == Some("name") && IsString(vNode) {
        nameVal := Unquote(vNode.text);
      } else if k == Some("type") && IsString(vNode) {
        typeVal := Unquote(vNode.text);
      }
    }
    assert pairs[..|pairs|] == pairs;
    item := if nameVal != "" || typeVal != "" then Some(BreakdownItem(nameVal, typeVal)) else None;
  }

  /** `oracles_breakdown_items`: scans each object element, keeps non-empty entries, then sorts. */
  method OraclesBreakdownItems(arr: Node) returns (items: seq<BreakdownItem>)
    ensures items == BreakdownItems(arr)
  {
    var els := NamedChildren(arr);
    items := [];
    for i := 0 to |els|
      invariant items == RawItems(els[..i])
    {
      RawItemsStep(els, i);
      if IsObject(els[i]) {
        var item := ScanItem(els[i]);
        if item.Some? {
          items := items + [item.value];
        }
      }
    }
    assert els[..|els|] == els;
    items := SortItems(items);
  }

  /** The sorted, duplicate-free strings of an `oracles` array. */
  ghost function OracleSet(arr: Node): (r: seq<string>)
    ensures StrictlyAscending(r)
    ensures Elems(r) == set e | e in NamedChildren(arr) && IsString(e) :: Unquote(e.text)
  {
    StringValuesElems(NamedChildren(arr));
    SortedSeqSpec(Elems(StringValues(NamedChildren(arr))));
    SortedSeq(Elems(StringValues(NamedChildren(arr))))
  }

  /** The `oracles` field: the last `oracles` array's strings as a sorted set, or empty. */
  ghost function OraclesField(pairs: seq<(Node, Node)>): (r: seq<string>)
    ensures StrictlyAscending(r)
  {
    match LastValue(pairs, "oracles", "array")
    case None => []
    case Some(a) => OracleSet(a)
  }

  /** The `oraclesBreakdown` field: the last `oraclesBreakdown` array's entries, or empty. */
  ghost function BreakdownField(pairs: seq<(Node, Node)>): (r: seq<BreakdownItem>)
    ensures SortedItems(r)
    ensures forall it :: it in r ==> it.name != "" || it.oracleType != ""
  {
    match LastValue(pairs, "oraclesBreakdown", "array")
    case None => []
    case Some(a) => BreakdownItems(a)
  }

  /**
   * `object_to_protocol_min`: the record an object literal stands for, or
   * none when it has no string `id` or that id unquotes to the empty string.
   */
  ghost function ObjectRecord(obj: Node, fileName: string): (r: Option<Record>)
    ensures r.Some? ==> r.value.id != "" && r.value.file == fileName
    ensures r.Some? ==> StrictlyAscending(r.value.oracles) && SortedItems(r.value.breakdown)
    ensures r.Some? ==> forall it :: it in r.value.breakdown ==> it.name != "" || it.oracleType != ""
  {
    var pairs := ObjectPairs(obj);
    var id := StringField(pairs, "id");
    if id == "" then None
    else Some(Record(id, StringField(pairs, "name"), fileName, OraclesField(pairs), BreakdownField(pairs)))
  }

  predicate IsIdPair(p: (Node, Node))
  {
    Matches(p, "id", "string")
  }

  /**
   * An object yields a record exactly when some pair has key `id` and a
   * string value and the last such pair's value unquotes to a non-empty
   * text; the record's id is that text.
   */
  lemma ObjectRecordNeedsId(obj: Node, fileName: string)
    ensures var pairs := ObjectPairs(obj);
      ObjectRecord(obj, fileName).Some? <==>
        exists i :: LastMatchAt(pairs, "id", "string", i) && Unquote(pairs[i].1.text) != ""
    ensures var pairs := ObjectPairs(obj);
      forall i :: LastMatchAt(pairs, "id", "string", i) && ObjectRecord(obj, fileName).Some?
        ==> ObjectRecord(obj, fileName).value.id == Unquote(pairs[i].1.text)
  {
    var pairs := ObjectPairs(obj);
    LastValueIsLastMatch(pairs, "id", "string");
    var last := LastValue(pairs, "id", "string");
    if last.Some? {
      var i := LastIndex(pairs, "id", "string");
      assert LastMatchAt(pairs, "id", "string", i);
    }
  }

  /** The last position holding `true`, searching down from `n`, past which every flag is `false`. */
  lemma {:induction false} LastTrue(flags: seq<bool>, n: nat) returns (i: nat)
    requires n <= |flags|
    requires exists j :: 0 <= j < n && flags[j]
    requires forall m :: n <= m < |flags| ==> !flags[m]
    ensures i < |flags| && flags[i] && forall m :: i < m < |flags| ==> !flags[m]
    decreases n
  {
    if flags[n - 1] {
      i := n - 1;
    } else {
      var j :| 0 <= j < n && flags[j];
      assert j < n - 1;
      i := LastTrue(flags, n - 1);
    }
  }

  /** Where the last matching pair sits, when there is one. */
  lemma LastIndex(pairs: seq<(Node, Node)>, key: string, kind: string) returns (i: int)
    requires exists j :: 0 <= j < |pairs| && Matches(pairs[j], key, kind)
    ensures LastMatchAt(pairs, key, kind, i)
  {
    var flags := seq(|pairs|, j requires 0 <= j < |pairs| => Matches(pairs[j], key, kind));
    var j :| 0 <= j < |pairs| && Matches(pairs[j], key, kind);
    assert flags[j];
    i := LastTrue(flags, |pairs|);
    forall m | i < m < |pairs| ensures !Matches(pairs[m], key, kind) {
      assert !flags[m];
    }
  }

  /** An object with no string-valued `id` pair never yields a record, whatever else it holds. */
  lemma ObjectWithoutIdIgnored(obj: Node, fileName: string)
    requires forall i :: 0 <= i < |ObjectPairs(obj)| ==> !IsIdPair(ObjectPairs(obj)[i])
    ensures ObjectRecord(obj, fileName).None?
  {
    LastValueIsLastMatch(ObjectPairs(obj), "id", "string");
  }

  /** `object_to_protocol_min`: scans the pairs, letting each recognised key overwrite its field. */
  method ObjectToProtocolMin(obj: Node, fileName: string) returns (r: Option<Record>)
    ensures r == ObjectRecord(obj, fileName)
  {
    var pid: Option<string> := None;
    var nameVal := "";
    var oracles: seq<string> := [];
    var breakdown: seq<BreakdownItem> := [];
    var pairs := ObjectPairs(obj);
    for i := 0 to |pairs|
      invariant (if pid.None? then "" else pid.value) == StringField(pairs[..i], "id")
      invariant nameVal == StringField(pairs[..i], "name")
      invariant oracles == OraclesField(pairs[..i])
      invariant breakdown == BreakdownField(pairs[..i])
    {
      LastValueStep(pairs, i, "id", "string");
      LastValueStep(pairs, i, "name", "string");
      LastValueStep(pairs, i, "oracles", "array");
      LastValueStep(pairs, i, "oraclesBreakdown", "array");
      var (kNode, vNode) := pairs[i];
      var k := KeyName(kNode);
      if k.None? || k.value == "" {
        continue;
      }
      if k.value == "id" && IsString(vNode) {
        pid := Some(Unquote(vNode.text));
      } else if k.value == "name" && IsString(vNode) {
        nameVal := Unquote(vNode.text);
      } else if k.value == "oracles" && IsArray(vNode) {
        var values := ArrayStringValues(vNode);
        oracles := SortSet(Elems(values));
      } else if k.value == "oraclesBreakdown" && IsArray(vNode) {
        breakdown := OraclesBreakdownItems(vNode);
      }
    }
    assert pairs[..|pairs|] == pairs;
    if pid.None? || pid.value == "" {
      return None;
    }
    r := Some(Record(pid.value, nameVal, fileName, oracles, breakdown));
  }
}
