/** The canonical serializer of packages/cli/src/core/approvals/ApprovalBinding.ts
    (stableSerialize): two JSON values print alike exactly when they are equal up to the
    order of object keys. */
module StableSerialize {
  import opened JsonStrings

  /** A named value; an object is a list of them in insertion order. */
  datatype Entry<+V> = Entry(key: Text, value: V)

  /** A JSON value.  A number is the token that ECMAScript prints for it, so numbers are
      equal when their tokens are. */
  datatype Json =
    | Null
    | Bool(b: bool)
    | Num(token: Text)
    | Str(text: Text)
    | Arr(items: seq<Json>)
    | Obj(fields: seq<Entry<Json>>)

  predicate IsDigit(c: Unit) { 48 <= c < 58 }

  /** Digits, sign, point and exponent mark (section 6 of RFC 8259). */
  predicate IsNumberUnit(c: Unit) {
    IsDigit(c) || c == 43 || c == 45 || c == 46 || c == 69 || c == 101
  }

  predicate NumberToken(t: Text) {
    t != [] && (IsDigit(t[0]) || t[0] == 45) && forall i :: 0 <= i < |t| ==> IsNumberUnit(t[i])
  }

  ghost predicate DistinctKeys<V>(es: seq<Entry<V>>) {
    forall i, j :: 0 <= i < j < |es| ==> es[i].key != es[j].key
  }

  ghost predicate WellFormed(v: Json) {
    match v
    case Num(t) => NumberToken(t)
    case Arr(items) => forall i :: 0 <= i < |items| ==> WellFormed(items[i])
    case Obj(fields) => DistinctKeys(fields) && forall i :: 0 <= i < |fields| ==> WellFormed(fields[i].value)
    case _ => true
  }

  /** Equality as unordered objects. */
  ghost predicate Equivalent(a: Json, b: Json) {
    match (a, b)
    case (Arr(xs), Arr(ys)) => |xs| == |ys| && forall i :: 0 <= i < |xs| ==> Equivalent(xs[i], ys[i])
    case (Obj(fs), Obj(gs)) =>
      && (forall i :: 0 <= i < |fs| ==> HasKey(gs, fs[i].key))
      && (forall j :: 0 <= j < |gs| ==> HasKey(fs, gs[j].key))
      && (forall i, j :: 0 <= i < |fs| && 0 <= j < |gs| && fs[i].key == gs[j].key ==>
        Equivalent(fs[i].value, gs[j].value))
    case _ => a == b
  }

  ghost predicate HasKey<V>(es: seq<Entry<V>>, key: Text) {
    exists i :: 0 <= i < |es| && es[i].key == key
  }

  /** The order in which Array.prototype.sort puts strings: by code units. */
  predicate KeyLess(a: Text, b: Text) {
    if b == [] then false
    else if a == [] then true
    else if a[0] == b[0] then KeyLess(a[1..], b[1..])
    else a[0] < b[0]
  }

  function InsertEntry<V>(e: Entry<V>, es: seq<Entry<V>>): seq<Entry<V>> {
    if es == [] then [e]
    else if KeyLess(es[0].key, e.key) then [es[0]] + InsertEntry(e, es[1..])
    else [e] + es
  }

  function SortEntries<V>(es: seq<Entry<V>>): seq<Entry<V>> {
    if es == [] then [] else InsertEntry(es[0], SortEntries(es[1..]))
  }

  const COMMA: Unit := 44
  const COLON: Unit := 58
  const ARRAY_END: Unit := 93
  const OBJECT_END: Unit := 125

  function Serialize(v: Json): Text {
    match v
    case Null => [110, 117, 108, 108]
    case Bool(b) => if b then [116, 114, 117, 101] else [102, 97, 108, 115, 101]
    case Num(t) => t
    case Str(s) => Quote(s)
    case Arr(items) => [91] + Joined(Texts(items)) + [ARRAY_END]
    case Obj(fields) => [123] + Joined(Pairs(SortEntries(Printed(fields)))) + [OBJECT_END]
  }

  function Texts(items: seq<Json>): seq<Text> {
    if items == [] then [] else [Serialize(items[0])] + Texts(items[1..])
  }

  /** The fields with their values printed. */
  function Printed(fields: seq<Entry<Json>>): seq<Entry<Text>> {
    if fields == [] then []
    else [Entry(fields[0].key, Serialize(fields[0].value))] + Printed(fields[1..])
  }

  function Pairs(es: seq<Entry<Text>>): seq<Text> {
    if es == [] then [] else [Quote(es[0].key) + [COLON] + es[0].value] + Pairs(es[1..])
  }

  /** join(','). */
  function Joined(parts: seq<Text>): Text {
    if parts == [] then []
    else if |parts| == 1 then parts[0]
    else parts[0] + [COMMA] + Joined(parts[1..])
  }

  // ----- sorting by key

  lemma {:induction false} KeyLessTotal(a: Text, b: Text)
    ensures KeyLess(a, b) || KeyLess(b, a) || a == b
    ensures !(KeyLess(a, b) && KeyLess(b, a)) && !KeyLess(a, a)
  {
    if a != [] && b != [] && a[0] == b[0] {
      KeyLessTotal(a[1..], b[1..]);
      assert a == [a[0]] + a[1..] && b == [b[0]] + b[1..];
    }
    if a != [] {
      KeyLessTotal(a[1..], a[1..]);
    }
  }

  lemma {:induction false} KeyLessTransitive(a: Text, b: Text, c: Text)
    requires KeyLess(a, b) && KeyLess(b, c)
    ensures KeyLess(a, c)
  {
    if a != [] && a[0] == b[0] == c[0] {
      KeyLessTransitive(a[1..], b[1..], c[1..]);
    }
  }

  ghost predicate SortedByKey<V>(es: seq<Entry<V>>) {
    forall i, j :: 0 <= i < j < |es| ==> KeyLess(es[i].key, es[j].key)
  }

  lemma {:induction false} InsertMembers<V>(e: Entry<V>, es: seq<Entry<V>>, x: Entry<V>)
    ensures |InsertEntry(e, es)| == |es| + 1
    ensures x in InsertEntry(e, es) <==> x == e || x in es
  {
    if es != [] && KeyLess(es[0].key, e.key) {
      InsertMembers(e, es[1..], x);
    }
  }

  lemma {:induction false} SortMembers<V>(es: seq<Entry<V>>, x: Entry<V>)
    ensures |SortEntries(es)| == |es|
    ensures x in SortEntries(es) <==> x in es
  {
    if es != [] {
      SortMembers(es[1..], x);
      InsertMembers(es[0], SortEntries(es[1..]), x);
    }
  }

  lemma {:induction false} InsertSorted<V>(e: Entry<V>, es: seq<Entry<V>>)
    requires SortedByKey(es) && forall i :: 0 <= i < |es| ==> es[i].key != e.key
    ensures SortedByKey(InsertEntry(e, es))
  {
    if es != [] {
      if KeyLess(es[0].key, e.key) {
        InsertSorted(e, es[1..]);
        var rest := InsertEntry(e, es[1..]);
        forall j | 0 <= j < |rest| ensures KeyLess(es[0].key, rest[j].key) {
          InsertMembers(e, es[1..], rest[j]);
        }
      } else {
        KeyLessTotal(es[0].key, e.key);
        forall j | 0 <= j < |es| ensures KeyLess(e.key, es[j].key) {
          if j > 0 {
            KeyLessTransitive(e.key, es[0].key, es[j].key);
          }
        }
      }
    }
  }

  lemma {:induction false} SortSorts<V>(es: seq<Entry<V>>)
    requires DistinctKeys(es)
    ensures SortedByKey(SortEntries(es))
  {
    if es != [] {
      SortSorts(es[1..]);
      var rest := SortEntries(es[1..]);
      forall i | 0 <= i < |rest| ensures rest[i].key != es[0].key {
        SortMembers(es[1..], rest[i]);
      }
      InsertSorted(es[0], rest);
    }
  }

  // ----- printing commutes with sorting

  lemma {:induction false} PrintedInsert(e: Entry<Json>, fields: seq<Entry<Json>>)
    ensures Printed(InsertEntry(e, fields)) == InsertEntry(Entry(e.key, Serialize(e.value)), Printed(fields))
  {
    hide Serialize;
    if fields != [] && KeyLess(fields[0].key, e.key) {
      PrintedInsert(e, fields[1..]);
      assert ([fields[0]] + InsertEntry(e, fields[1..]))[1..] == InsertEntry(e, fields[1..]);
    } else {
      assert ([e] + fields)[1..] == fields;
    }
  }

  lemma {:induction false} PrintedSort(fields: seq<Entry<Json>>)
    ensures Printed(SortEntries(fields)) == SortEntries(Printed(fields))
  {
    hide Serialize;
    if fields != [] {
      PrintedSort(fields[1..]);
      PrintedInsert(fields[0], SortEntries(fields[1..]));
    }
  }

  // ----- how values begin and what may follow them

  predicate StartsValue(c: Unit) {
    c == 110 || c == 116 || c == 102 || c == 34 || c == 91 || c == 123 || IsDigit(c) || c == 45
  }

  /** The text after a value inside a document: nothing, or a separator. */
  predicate Delimited(s: Text) {
    s == [] || s[0] == COMMA || s[0] == ARRAY_END || s[0] == OBJECT_END
  }

  lemma FirstUnit(v: Json)
    requires WellFormed(v)
    ensures Serialize(v) != [] && StartsValue(Serialize(v)[0])
    ensures v.Null? <==> Serialize(v)[0] == 110
    ensures v.Bool? <==> Serialize(v)[0] == 116 || Serialize(v)[0] == 102
    ensures v.Bool? ==> (v.b <==> Serialize(v)[0] == 116)
    ensures v.Str? <==> Serialize(v)[0] == 34
    ensures v.Arr? <==> Serialize(v)[0] == 91
    ensures v.Obj? <==> Serialize(v)[0] == 123
  {
    hide Joined, Pairs, Texts, SortEntries, Printed, Body;
  }

  /** Number tokens extend as far as they can, so what follows tells where they end. */
  lemma {:induction false} TokensAgree(x: Text, y: Text, s: Text, t: Text)
    requires forall i :: 0 <= i < |x| ==> IsNumberUnit(x[i])
    requires forall i :: 0 <= i < |y| ==> IsNumberUnit(y[i])
    requires Delimited(s) && Delimited(t) && x + s == y + t
    ensures x == y && s == t
  {
    assert x + s == if x == [] then s else [x[0]] + (x[1..] + s);
    assert y + t == if y == [] then t else [y[0]] + (y[1..] + t);
    if x != [] && y != [] {
      assert ([x[0]] + (x[1..] + s))[1..] == ([y[0]] + (y[1..] + t))[1..];
      TokensAgree(x[1..], y[1..], s, t);
      assert x == [x[0]] + x[1..] && y == [y[0]] + y[1..];
    }
  }

  function ItemsText(items: seq<Json>, k: nat): Text
    requires k <= |items|
  {
    Joined(Texts(items[k..]))
  }

  lemma {:induction false} TextsLength(items: seq<Json>)
    ensures |Texts(items)| == |items|
  {
    if items != [] {
      TextsLength(items[1..]);
    }
  }

  lemma UnfoldItems(items: seq<Json>, k: nat, tail: Text)
    requires k < |items|
    ensures ItemsText(items, k) + tail ==
      Serialize(items[k]) + (if k + 1 == |items| then tail else [COMMA] + (ItemsText(items, k + 1) + tail))
  {
    hide Serialize;
    TextsLength(items[k..]);
    assert items[k..][1..] == items[k + 1..];
    var head, rest := Serialize(items[k]), ItemsText(items, k + 1);
    assert Texts(items[k..]) == [head] + Texts(items[k + 1..]);
    assert Texts(items[k..])[1..] == Texts(items[k + 1..]);
    if k + 1 < |items| {
      assert head + [COMMA] + rest + tail == head + ([COMMA] + (rest + tail));
    }
  }

  function FieldsText(fields: seq<Entry<Json>>, k: nat): Text
    requires k <= |fields|
  {
    Joined(Pairs(Printed(fields[k..])))
  }

  lemma {:induction false} PairsLength(fields: seq<Entry<Json>>)
    ensures |Pairs(Printed(fields))| == |fields|
  {
    hide Serialize, Quote;
    if fields != [] {
      PairsLength(fields[1..]);
      assert Printed(fields)[1..] == Printed(fields[1..]);
    }
  }

  lemma UnfoldFields(fields: seq<Entry<Json>>, k: nat, tail: Text)
    requires k < |fields|
    ensures FieldsText(fields, k) + tail ==
      Quote(fields[k].key) + ([COLON] + (Serialize(fields[k].value)
        + (if k + 1 == |fields| then tail else [COMMA] + (FieldsText(fields, k + 1) + tail))))
  {
    hide Serialize, Quote;
    PairsLength(fields[k..]);
    assert fields[k..][1..] == fields[k + 1..];
    var key, value, rest := Quote(fields[k].key), Serialize(fields[k].value), FieldsText(fields, k + 1);
    assert Printed(fields[k..]) == [Entry(fields[k].key, value)] + Printed(fields[k + 1..]);
    assert Printed(fields[k..])[1..] == Printed(fields[k + 1..]);
    assert Pairs(Printed(fields[k..])) == [key + [COLON] + value] + Pairs(Printed(fields[k + 1..]));
    assert Pairs(Printed(fields[k..]))[1..] == Pairs(Printed(fields[k + 1..]));
    if k + 1 < |fields| {
      assert key + [COLON] + value + [COMMA] + rest + tail
          == key + ([COLON] + (value + ([COMMA] + (rest + tail))));
    } else {
      assert key + [COLON] + value + tail == key + ([COLON] + (value + tail));
    }
  }

  // ----- equal texts come from equivalent values

  lemma DropHead(c: Unit, d: Unit, x: Text, y: Text)
    requires [c] + x == [d] + y
    ensures c == d && x == y
  {
    assert ([c] + x)[0] == ([d] + y)[0] && ([c] + x)[1..] == x && ([d] + y)[1..] == y;
  }

  /** The same text, each followed by something that cannot belong to it, is the text of
      equivalent values, and the same thing follows. */
  lemma {:induction false} SerializePrefix(a: Json, b: Json, s: Text, t: Text)
    requires WellFormed(a) && WellFormed(b) && Delimited(s) && Delimited(t)
    requires Serialize(a) + s == Serialize(b) + t
    ensures Equivalent(a, b) && s == t
    decreases a, 1
  {
    SameShape(a, b, s, t);
    match a
    case Null => SameLength(Serialize(a), Serialize(b), s, t);
    case Bool(_) => SameLength(Serialize(a), Serialize(b), s, t);
    case Num(x) => TokensAgree(x, b.token, s, t);
    case Str(x) => QuoteInjective(x, b.text, s, t);
    case Arr(items) =>
      ArrayText(items, s);
      ArrayText(b.items, t);
      DropHead(91, 91, ItemsText(items, 0) + ([ARRAY_END] + s), ItemsText(b.items, 0) + ([ARRAY_END] + t));
      ArrayPrefix(a, b, 0, s, t);
    case Obj(fields) =>
      var fa, fb := SortEntries(fields), SortEntries(b.fields);
      ObjectText(fields, s);
      ObjectText(b.fields, t);
      DropHead(123, 123, FieldsText(fa, 0) + ([OBJECT_END] + s), FieldsText(fb, 0) + ([OBJECT_END] + t));
      SortedMembers(fields);
      SortedMembers(b.fields);
      ObjectPrefix(a, fa, b, fb, 0, s, t);
      SortedFieldsEquivalent(a, fa, b, fb);
  }

  lemma SameLength(x: Text, y: Text, s: Text, t: Text)
    requires x == y && x + s == y + t
    ensures s == t
  {
    assert (x + s)[|x|..] == s && (y + t)[|x|..] == t;
  }

  lemma SameShape(a: Json, b: Json, s: Text, t: Text)
    requires WellFormed(a) && WellFormed(b) && Serialize(a) + s == Serialize(b) + t
    ensures a.Null? <==> b.Null?
    ensures a.Bool? <==> b.Bool?
    ensures a.Bool? ==> a.b == b.b
    ensures a.Num? <==> b.Num?
    ensures a.Str? <==> b.Str?
    ensures a.Arr? <==> b.Arr?
    ensures a.Obj? <==> b.Obj?
  {
    FirstUnit(a);
    FirstUnit(b);
    hide Serialize, WellFormed;
    assert (Serialize(a) + s)[0] == Serialize(a)[0] && (Serialize(b) + t)[0] == Serialize(b)[0];
  }

  lemma ArrayText(items: seq<Json>, s: Text)
    ensures Serialize(Arr(items)) + s == [91] + (ItemsText(items, 0) + ([ARRAY_END] + s))
  {
    hide Joined, Texts;
    assert items[0..] == items;
    assert [91] + ItemsText(items, 0) + [ARRAY_END] + s == [91] + (ItemsText(items, 0) + ([ARRAY_END] + s));
  }

  lemma ObjectText(fields: seq<Entry<Json>>, s: Text)
    ensures Serialize(Obj(fields)) + s == [123] + (FieldsText(SortEntries(fields), 0) + ([OBJECT_END] + s))
  {
    PrintedSort(fields);
    hide Joined, Pairs, Printed, SortEntries;
    var fa := SortEntries(fields);
    assert fa[0..] == fa;
    assert [123] + FieldsText(fa, 0) + [OBJECT_END] + s == [123] + (FieldsText(fa, 0) + ([OBJECT_END] + s));
  }

  lemma ItemsTextEmpty(items: seq<Json>)
    ensures ItemsText(items, |items|) == []
  {
    assert items[|items|..] == [];
  }

  lemma ArrayPrefix(a: Json, b: Json, k: nat, s: Text, t: Text)
    requires a.Arr? && b.Arr? && WellFormed(a) && WellFormed(b) && k <= |a.items| && k <= |b.items|
    requires k > 0 ==> k < |a.items| && k < |b.items|
    requires ItemsText(a.items, k) + ([ARRAY_END] + s) == ItemsText(b.items, k) + ([ARRAY_END] + t)
    ensures |a.items| == |b.items| && s == t
    ensures forall i :: k <= i < |a.items| ==> Equivalent(a.items[i], b.items[i])
    decreases a, 0, |a.items| - k
  {
    hide ItemsText, Serialize, Equivalent;
    var xs, ys := a.items, b.items;
    var s', t' := [ARRAY_END] + s, [ARRAY_END] + t;
    if k == |xs| || k == |ys| {
      EmptyArrayPrefix(xs, ys, s', t');
      DropHead(ARRAY_END, ARRAY_END, s, t);
    } else {
      UnfoldItems(xs, k, s');
      UnfoldItems(ys, k, t');
      var after := if k + 1 == |xs| then s' else [COMMA] + (ItemsText(xs, k + 1) + s');
      var after' := if k + 1 == |ys| then t' else [COMMA] + (ItemsText(ys, k + 1) + t');
      SerializePrefix(xs[k], ys[k], after, after');
      assert after[0] == after'[0];
      if k + 1 < |xs| {
        DropHead(COMMA, COMMA, ItemsText(xs, k + 1) + s', ItemsText(ys, k + 1) + t');
        ArrayPrefix(a, b, k + 1, s, t);
      } else {
        DropHead(ARRAY_END, ARRAY_END, s, t);
      }
    }
  }

  lemma EmptyArrayPrefix(xs: seq<Json>, ys: seq<Json>, s: Text, t: Text)
    requires xs == [] || ys == []
    requires forall i :: 0 <= i < |xs| ==> WellFormed(xs[i])
    requires forall i :: 0 <= i < |ys| ==> WellFormed(ys[i])
    requires s != [] && t != [] && s[0] == t[0] == ARRAY_END
    requires ItemsText(xs, 0) + s == ItemsText(ys, 0) + t
    ensures xs == ys == [] && s == t
  {
    hide ItemsText, Serialize;
    ItemsTextStart(xs, s);
    ItemsTextStart(ys, t);
  }

  lemma ItemsTextStart(xs: seq<Json>, s: Text)
    requires forall i :: 0 <= i < |xs| ==> WellFormed(xs[i])
    ensures xs == [] ==> ItemsText(xs, 0) + s == s
    ensures xs != [] ==> ItemsText(xs, 0) + s != [] && StartsValue((ItemsText(xs, 0) + s)[0])
  {
    if xs == [] {
      ItemsTextEmpty(xs);
      assert [] + s == s;
    } else {
      UnfoldItems(xs, 0, s);
      FirstUnit(xs[0]);
    }
  }

  /** The sorted form of a list of fields with distinct keys. */
  ghost predicate SortedForm<V(!new)>(fields: seq<Entry<V>>, sorted: seq<Entry<V>>) {
    SortedByKey(sorted) && forall x :: x in sorted <==> x in fields
  }

  lemma SortedMembers(fields: seq<Entry<Json>>)
    requires DistinctKeys(fields)
    ensures SortedForm(fields, SortEntries(fields))
  {
    SortSorts(fields);
    forall x ensures x in SortEntries(fields) <==> x in fields {
      SortMembers(fields, x);
    }
  }

  lemma FieldOf(v: Json, sorted: seq<Entry<Json>>, k: nat) returns (i: nat)
    requires v.Obj? && WellFormed(v) && SortedForm(v.fields, sorted) && k < |sorted|
    ensures i < |v.fields| && v.fields[i] == sorted[k] && WellFormed(sorted[k].value)
  {
    assert sorted[k] in v.fields;
    i :| 0 <= i < |v.fields| && v.fields[i] == sorted[k];
  }

  lemma ObjectPrefix(a: Json, fa: seq<Entry<Json>>, b: Json, fb: seq<Entry<Json>>, k: nat, s: Text, t: Text)
    requires a.Obj? && b.Obj? && WellFormed(a) && WellFormed(b)
    requires SortedForm(a.fields, fa) && SortedForm(b.fields, fb)
    requires k <= |fa| && k <= |fb| && (k > 0 ==> k < |fa| && k < |fb|)
    requires FieldsText(fa, k) + ([OBJECT_END] + s) == FieldsText(fb, k) + ([OBJECT_END] + t)
    ensures |fa| == |fb| && s == t
    ensures forall i :: k <= i < |fa| ==> fa[i].key == fb[i].key && Equivalent(fa[i].value, fb[i].value)
    decreases a, 0, |fa| - k
  {
    hide FieldsText, Serialize, Equivalent, SortedForm, WellFormed, Quote;
    var s', t' := [OBJECT_END] + s, [OBJECT_END] + t;
    if k == |fa| || k == |fb| {
      EmptyObjectPrefix(fa, fb, s', t');
      DropHead(OBJECT_END, OBJECT_END, s, t);
    } else {
      UnfoldFields(fa, k, s');
      UnfoldFields(fb, k, t');
      var after := if k + 1 == |fa| then s' else [COMMA] + (FieldsText(fa, k + 1) + s');
      var after' := if k + 1 == |fb| then t' else [COMMA] + (FieldsText(fb, k + 1) + t');
      var value, value' := fa[k].value, fb[k].value;
      QuoteInjective(fa[k].key, fb[k].key, [COLON] + (Serialize(value) + after),
        [COLON] + (Serialize(value') + after'));
      DropHead(COLON, COLON, Serialize(value) + after, Serialize(value') + after');
      var i := FieldOf(a, fa, k);
      var j := FieldOf(b, fb, k);
      assert a.fields[i].value == value;
      SerializePrefix(value, value', after, after');
      assert after[0] == after'[0];
      if k + 1 < |fa| {
        DropHead(COMMA, COMMA, FieldsText(fa, k + 1) + s', FieldsText(fb, k + 1) + t');
        ObjectPrefix(a, fa, b, fb, k + 1, s, t);
      } else {
        DropHead(OBJECT_END, OBJECT_END, s, t);
      }
    }
  }

  lemma EmptyObjectPrefix(fa: seq<Entry<Json>>, fb: seq<Entry<Json>>, s: Text, t: Text)
    requires fa == [] || fb == []
    requires s != [] && t != [] && s[0] == t[0] == OBJECT_END
    requires FieldsText(fa, 0) + s == FieldsText(fb, 0) + t
    ensures fa == fb == [] && s == t
  {
    hide FieldsText, Serialize;
    FieldsTextStart(fa, s);
    FieldsTextStart(fb, t);
  }

  lemma FieldsTextStart(fields: seq<Entry<Json>>, s: Text)
    ensures fields == [] ==> FieldsText(fields, 0) + s == s
    ensures fields != [] ==> FieldsText(fields, 0) + s != [] && (FieldsText(fields, 0) + s)[0] == QUOTE
  {
    if fields == [] {
      assert fields[0..] == [] && [] + s == s;
    } else {
      UnfoldFields(fields, 0, s);
    }
  }

  lemma KeyAt<V(!new)>(fields: seq<Entry<V>>, sorted: seq<Entry<V>>, i: nat) returns (k: nat)
    requires SortedForm(fields, sorted) && i < |fields|
    ensures k < |sorted| && sorted[k] == fields[i]
  {
    assert fields[i] in sorted;
    k :| 0 <= k < |sorted| && sorted[k] == fields[i];
  }

  lemma PairedKeys(fs: seq<Entry<Json>>, fa: seq<Entry<Json>>, gs: seq<Entry<Json>>, fb: seq<Entry<Json>>, i: nat)
    requires SortedForm(fs, fa) && SortedForm(gs, fb) && |fa| == |fb| && i < |fs|
    requires forall k :: 0 <= k < |fa| ==> fa[k].key == fb[k].key
    ensures HasKey(gs, fs[i].key)
  {
    var k := KeyAt(fs, fa, i);
    assert fb[k] in gs;
    var j :| 0 <= j < |gs| && gs[j] == fb[k];
    assert gs[j].key == fs[i].key;
  }

  lemma SortedFieldsEquivalent(a: Json, fa: seq<Entry<Json>>, b: Json, fb: seq<Entry<Json>>)
    requires a.Obj? && b.Obj? && SortedForm(a.fields, fa) && SortedForm(b.fields, fb) && |fa| == |fb|
    requires forall k :: 0 <= k < |fa| ==> fa[k].key == fb[k].key && Equivalent(fa[k].value, fb[k].value)
    ensures Equivalent(a, b)
  {
    var fs, gs := a.fields, b.fields;
    forall i | 0 <= i < |fs| ensures HasKey(gs, fs[i].key) {
      PairedKeys(fs, fa, gs, fb, i);
    }
    forall j | 0 <= j < |gs| ensures HasKey(fs, gs[j].key) {
      PairedKeys(gs, fb, fs, fa, j);
    }
    forall i, j | 0 <= i < |fs| && 0 <= j < |gs| && fs[i].key == gs[j].key
      ensures Equivalent(fs[i].value, gs[j].value)
    {
      var k := KeyAt(fs, fa, i);
      var l := KeyAt(gs, fb, j);
      SortedKeysDiffer(fa, k, l);
    }
  }

  lemma SortedKeysDiffer<V>(es: seq<Entry<V>>, k: nat, l: nat)
    requires SortedByKey(es) && k < |es| && l < |es| && es[k].key == es[l].key
    ensures k == l
  {
    KeyLessTotal(es[k].key, es[l].key);
  }

  // ----- equivalent values print alike

  lemma {:induction false} EquivalentPrintAlike(a: Json, b: Json)
    requires WellFormed(a) && WellFormed(b) && Equivalent(a, b)
    ensures Serialize(a) == Serialize(b)
    decreases a
  {
    if a.Arr? {
      forall i | 0 <= i < |a.items| ensures Serialize(a.items[i]) == Serialize(b.items[i]) {
        EquivalentPrintAlike(a.items[i], b.items[i]);
      }
      TextsAlike(a.items, b.items);
    } else if a.Obj? {
      var fa, fb := SortEntries(a.fields), SortEntries(b.fields);
      SortedMembers(a.fields);
      SortedMembers(b.fields);
      SortedAlike(a, b, fa, fb);
      forall k | 0 <= k < |fa| ensures Serialize(fa[k].value) == Serialize(fb[k].value) {
        var i := FieldOf(a, fa, k);
        var j := FieldOf(b, fb, k);
        EquivalentPrintAlike(a.fields[i].value, b.fields[j].value);
      }
      PrintedAlike(fa, fb);
      PrintedSort(a.fields);
      PrintedSort(b.fields);
    }
  }

  lemma {:induction false} TextsAlike(xs: seq<Json>, ys: seq<Json>)
    requires |xs| == |ys| && forall i :: 0 <= i < |xs| ==> Serialize(xs[i]) == Serialize(ys[i])
    ensures Texts(xs) == Texts(ys)
  {
    hide Serialize;
    if xs != [] {
      TextsAlike(xs[1..], ys[1..]);
    }
  }

  lemma {:induction false} PrintedAlike(fa: seq<Entry<Json>>, fb: seq<Entry<Json>>)
    requires |fa| == |fb|
    requires forall i :: 0 <= i < |fa| ==> fa[i].key == fb[i].key && Serialize(fa[i].value) == Serialize(fb[i].value)
    ensures Printed(fa) == Printed(fb)
  {
    hide Serialize;
    if fa != [] {
      PrintedAlike(fa[1..], fb[1..]);
    }
  }

  /** Objects with the same keys have the same keys in the same sorted places. */
  lemma SortedAlike(a: Json, b: Json, fa: seq<Entry<Json>>, fb: seq<Entry<Json>>)
    requires a.Obj? && b.Obj? && Equivalent(a, b) && SortedForm(a.fields, fa) && SortedForm(b.fields, fb)
    ensures |fa| == |fb| && forall k :: 0 <= k < |fa| ==> fa[k].key == fb[k].key
  {
    forall key ensures HasKey(fa, key) <==> HasKey(fb, key) {
      SortedHasKey(a.fields, fa, key);
      SortedHasKey(b.fields, fb, key);
      SharedKey(a, b, key);
    }
    SameSortedKeys(fa, fb);
  }

  lemma SharedKey(a: Json, b: Json, key: Text)
    requires a.Obj? && b.Obj? && Equivalent(a, b)
    ensures HasKey(a.fields, key) <==> HasKey(b.fields, key)
  {
  }

  lemma SortedHasKey(fields: seq<Entry<Json>>, sorted: seq<Entry<Json>>, key: Text)
    requires SortedForm(fields, sorted)
    ensures HasKey(sorted, key) <==> HasKey(fields, key)
  {
    if HasKey(sorted, key) {
      var i :| 0 <= i < |sorted| && sorted[i].key == key;
      assert sorted[i] in fields;
    }
    if HasKey(fields, key) {
      var i :| 0 <= i < |fields| && fields[i].key == key;
      var k := KeyAt(fields, sorted, i);
    }
  }

  lemma {:induction false} SameSortedKeys(fa: seq<Entry<Json>>, fb: seq<Entry<Json>>)
    requires SortedByKey(fa) && SortedByKey(fb)
    requires forall key :: HasKey(fa, key) <==> HasKey(fb, key)
    ensures |fa| == |fb| && forall k :: 0 <= k < |fa| ==> fa[k].key == fb[k].key
  {
    if fa == [] || fb == [] {
      if fa != [] {
        assert HasKey(fa, fa[0].key);
      }
      if fb != [] {
        assert HasKey(fb, fb[0].key);
      }
    } else {
      SameLeastKey(fa, fb);
      forall key ensures HasKey(fa[1..], key) <==> HasKey(fb[1..], key) {
        TailKeys(fa, key);
        TailKeys(fb, key);
      }
      SameSortedKeys(fa[1..], fb[1..]);
    }
  }

  lemma SameLeastKey(fa: seq<Entry<Json>>, fb: seq<Entry<Json>>)
    requires SortedByKey(fa) && SortedByKey(fb) && fa != [] && fb != []
    requires forall key :: HasKey(fa, key) <==> HasKey(fb, key)
    ensures fa[0].key == fb[0].key
  {
    assert HasKey(fa, fa[0].key) && HasKey(fb, fb[0].key);
    var i :| 0 <= i < |fb| && fb[i].key == fa[0].key;
    var j :| 0 <= j < |fa| && fa[j].key == fb[0].key;
    KeyLessTotal(fa[0].key, fb[0].key);
  }

  lemma TailKeys(es: seq<Entry<Json>>, key: Text)
    requires SortedByKey(es) && es != []
    ensures HasKey(es[1..], key) <==> HasKey(es, key) && key != es[0].key
  {
    if HasKey(es[1..], key) {
      var i :| 0 <= i < |es[1..]| && es[1..][i].key == key;
      assert es[i + 1].key == key;
      KeyLessTotal(es[0].key, key);
    }
    if HasKey(es, key) && key != es[0].key {
      var i :| 0 <= i < |es| && es[i].key == key;
      assert es[1..][i - 1].key == key;
    }
  }

  /** Two values print the same exactly when they are equal as unordered objects. */
  lemma PrintsAlikeIff(a: Json, b: Json)
    requires WellFormed(a) && WellFormed(b)
    ensures Serialize(a) == Serialize(b) <==> Equivalent(a, b)
  {
    if Serialize(a) == Serialize(b) {
      assert Serialize(a) + [] == Serialize(b) + [];
      SerializePrefix(a, b, [], []);
    } else if Equivalent(a, b) {
      EquivalentPrintAlike(a, b);
    }
  }
}
