/** Slot filling (`populateSlots`).

    For every key of the data object, in key order, the first element of the
    fragment (document order, top-level elements included) carrying
    `[s-slot=key]` gets the key's value as its text; a key with no such
    element is skipped. The key stands unquoted in the selector, so a key that
    is not a CSS identifier makes the selector invalid and the DOM throws. */
module Slots {
  import opened Results
  import opened Dom

  /** Same elements in the same order, texts aside. */
  predicate SameAttrs(a: seq<Node>, b: seq<Node>) {
    |a| == |b| && forall i :: 0 <= i < |a| ==> a[i].attrs == b[i].attrs && a[i].button == b[i].button
  }

  /** `querySelector('[s-slot=key]').textContent = text` over nodes in document order. */
  function FillFirst(nodes: seq<Node>, key: string, text: string): (r: seq<Node>)
    ensures SameAttrs(nodes, r)
    ensures forall i :: 0 <= i < |nodes| && !HasValue(nodes[i], SlotDirective, key) ==> r[i] == nodes[i]
    ensures FirstWithValue(nodes, SlotDirective, key).Some? ==> r[FirstWithValue(nodes, SlotDirective, key).value].text == text
    ensures FirstWithValue(nodes, SlotDirective, key).None? ==> r == nodes
  {
    match FirstWithValue(nodes, SlotDirective, key)
    case None => nodes
    case Some(k) => nodes[k := nodes[k].(text := text)]
  }

  /** The same fill on a fragment's items: the first item holding a slot, at
      its root or else at its first marked descendant. */
  function FillItems(items: seq<Item>, key: string, text: string): (r: seq<Item>)
    ensures |r| == |items|
    decreases |items|
  {
    if items == [] then []
    else
      var item := items[0];
      if HasValue(item.root, SlotDirective, key) then
        [item.(root := item.root.(text := text))] + items[1..]
      else
        match FirstWithValue(item.descendants, SlotDirective, key)
        case Some(k) => [item.(descendants := item.descendants[k := item.descendants[k].(text := text)])] + items[1..]
        case None => [item] + FillItems(items[1..], key, text)
  }

  lemma FlattenCons(items: seq<Item>)
    requires items != []
    ensures Flatten(items) == Nodes(items[0]) + Flatten(items[1..])
  {
  }

  lemma FirstWithValueAppend(a: seq<Node>, b: seq<Node>, name: string, value: string)
    requires forall j :: 0 <= j < |a| ==> !HasValue(a[j], name, value)
    ensures FirstWithValue(a + b, name, value) == (match FirstWithValue(b, name, value) case None => None case Some(k) => Some(k + |a|))
  {
    var r := FirstWithValue(a + b, name, value);
    var rb := FirstWithValue(b, name, value);
    if r.Some? {
      assert r.value >= |a|;
      assert (a + b)[r.value] == b[r.value - |a|];
      forall j | 0 <= j < r.value - |a| ensures !HasValue(b[j], name, value) {
        assert (a + b)[j + |a|] == b[j];
      }
    } else {
      forall j | 0 <= j < |b| ensures !HasValue(b[j], name, value) {
        assert (a + b)[j + |a|] == b[j];
      }
    }
    if rb.Some? {
      assert (a + b)[rb.value + |a|] == b[rb.value];
      forall j | 0 <= j < rb.value + |a| ensures !HasValue((a + b)[j], name, value) {
        if j >= |a| {
          assert (a + b)[j] == b[j - |a|];
        } else {
          assert (a + b)[j] == a[j];
        }
      }
    }
  }

  lemma UpdateLeft<T>(a: seq<T>, b: seq<T>, k: nat, x: T)
    requires k < |a|
    ensures (a + b)[k := x] == a[k := x] + b
  {
  }

  lemma UpdateRight<T>(a: seq<T>, b: seq<T>, k: nat, x: T)
    requires k < |b|
    ensures (a + b)[k + |a| := x] == a + b[k := x]
  {
  }

  lemma FirstWithValuePrefix(a: seq<Node>, b: seq<Node>, name: string, value: string)
    requires FirstWithValue(a, name, value).Some?
    ensures FirstWithValue(a + b, name, value) == FirstWithValue(a, name, value)
  {
    var k := FirstWithValue(a, name, value).value;
    assert (a + b)[k] == a[k];
    forall j | 0 <= j < k ensures !HasValue((a + b)[j], name, value) {
      assert (a + b)[j] == a[j];
    }
  }

  /** The slot sits on the first item's root. */
  lemma FillAtRoot(items: seq<Item>, key: string, text: string)
    requires items != [] && HasValue(items[0].root, SlotDirective, key)
    ensures Flatten(FillItems(items, key, text)) == FillFirst(Flatten(items), key, text)
  {
    var item := items[0];
    var r := FillItems(items, key, text);
    FlattenCons(items);
    FlattenCons(r);
    assert r[1..] == items[1..];
    var flat := Flatten(items);
    assert flat[0] == item.root;
    assert FirstWithValue(flat, SlotDirective, key) == Some(0);
    UpdateLeft(Nodes(item), Flatten(items[1..]), 0, item.root.(text := text));
    assert Nodes(r[0]) == Nodes(item)[0 := item.root.(text := text)];
  }

  /** The slot sits below the first item's root. */
  lemma FillInDescendants(items: seq<Item>, key: string, text: string)
    requires items != [] && !HasValue(items[0].root, SlotDirective, key)
    requires FirstWithValue(items[0].descendants, SlotDirective, key).Some?
    ensures Flatten(FillItems(items, key, text)) == FillFirst(Flatten(items), key, text)
  {
    var item := items[0];
    var d := item.descendants;
    var k := FirstWithValue(d, SlotDirective, key).value;
    var x := d[k].(text := text);
    var r := FillItems(items, key, text);
    var rest := Flatten(items[1..]);
    assert r == [item.(descendants := d[k := x])] + items[1..];
    FlattenCons(items);
    FlattenCons(r);
    var flat := [item.root] + (d + rest);
    assert Flatten(items) == flat;
    assert Flatten(r) == [item.root] + (d[k := x] + rest);
    FirstWithValuePrefix(d, rest, SlotDirective, key);
    FirstWithValueAppend([item.root], d + rest, SlotDirective, key);
    assert flat[k + 1] == d[k];
    FillFirstAt(flat, key, text, k + 1);
    UpdateLeft(d, rest, k, x);
    UpdateRight([item.root], d + rest, k, x);
  }

  lemma FillFirstAt(nodes: seq<Node>, key: string, text: string, k: nat)
    requires FirstWithValue(nodes, SlotDirective, key) == Some(k)
    ensures FillFirst(nodes, key, text) == nodes[k := nodes[k].(text := text)]
  {
  }

  /** Filling per item is the document-order fill of the flattened fragment. */
  lemma {:induction false} FillItemsIsFillFirst(items: seq<Item>, key: string, text: string)
    ensures Flatten(FillItems(items, key, text)) == FillFirst(Flatten(items), key, text)
    decreases |items|
  {
    if items == [] {
    } else if HasValue(items[0].root, SlotDirective, key) {
      FillAtRoot(items, key, text);
    } else if FirstWithValue(items[0].descendants, SlotDirective, key).Some? {
      FillInDescendants(items, key, text);
    } else {
      FillItemsIsFillFirst(items[1..], key, text);
      FillPastItem(items, key, text);
    }
  }

  /** Nodes without a slot for `key` in front do not change where the fill lands. */
  lemma FillFirstPastClear(a: seq<Node>, b: seq<Node>, key: string, text: string)
    requires forall j :: 0 <= j < |a| ==> !HasValue(a[j], SlotDirective, key)
    ensures FillFirst(a + b, key, text) == a + FillFirst(b, key, text)
  {
    FirstWithValueAppend(a, b, SlotDirective, key);
    match FirstWithValue(b, SlotDirective, key)
    case None =>
    case Some(k) =>
      UpdateRight(a, b, k, b[k].(text := text));
  }

  /** The first item holds no slot for `key`: the fill happens in the rest. */
  lemma FillPastItem(items: seq<Item>, key: string, text: string)
    requires items != [] && !HasValue(items[0].root, SlotDirective, key)
    requires FirstWithValue(items[0].descendants, SlotDirective, key).None?
    requires Flatten(FillItems(items[1..], key, text)) == FillFirst(Flatten(items[1..]), key, text)
    ensures Flatten(FillItems(items, key, text)) == FillFirst(Flatten(items), key, text)
  {
    var item := items[0];
    var r := FillItems(items, key, text);
    FlattenCons(items);
    FlattenCons(r);
    assert r[0] == item && r[1..] == FillItems(items[1..], key, text);
    assert forall j :: 0 <= j < |Nodes(item)| ==> !HasValue(Nodes(item)[j], SlotDirective, key) by {
      forall j | 0 <= j < |Nodes(item)| ensures !HasValue(Nodes(item)[j], SlotDirective, key) {
        if j > 0 { assert Nodes(item)[j] == item.descendants[j - 1]; }
      }
    }
    FillFirstPastClear(Nodes(item), Flatten(items[1..]), key, text);
  }

  /** `populateSlots(fragment, data)` with the data's keys in enumeration order. */
  function PopulateSlots(items: seq<Item>, data: seq<(string, string)>): (r: Result<seq<Item>>)
    ensures r.Err? <==> exists i :: 0 <= i < |data| && !IsCssIdent(data[i].0)
    ensures r.Err? ==> r.failure == HostError
    ensures r.Ok? ==> |r.value| == |items|
    decreases |data|
  {
    if data == [] then Ok(items)
    else if !IsCssIdent(data[0].0) then Err(HostError)
    else
      assert forall i :: 1 <= i < |data| ==> data[1..][i - 1] == data[i];
      PopulateSlots(FillItems(items, data[0].0, data[0].1), data[1..])
  }

  /** The document-order fill for every key in turn. */
  function PopulateFlat(nodes: seq<Node>, data: seq<(string, string)>): (r: seq<Node>)
    ensures SameAttrs(nodes, r)
    decreases |data|
  {
    if data == [] then nodes else PopulateFlat(FillFirst(nodes, data[0].0, data[0].1), data[1..])
  }

  lemma {:induction false} PopulateSlotsIsFlat(items: seq<Item>, data: seq<(string, string)>)
    requires PopulateSlots(items, data).Ok?
    ensures Flatten(PopulateSlots(items, data).value) == PopulateFlat(Flatten(items), data)
    decreases |data|
  {
    if data != [] {
      FillItemsIsFillFirst(items, data[0].0, data[0].1);
      PopulateSlotsIsFlat(FillItems(items, data[0].0, data[0].1), data[1..]);
    }
  }

  /** Data whose key no slot carries changes nothing. */
  lemma MissingKeyIgnored(items: seq<Item>, key: string, text: string)
    requires forall j :: 0 <= j < |Flatten(items)| ==> !HasValue(Flatten(items)[j], SlotDirective, key)
    ensures Flatten(FillItems(items, key, text)) == Flatten(items)
  {
    FillItemsIsFillFirst(items, key, text);
  }

  lemma SameAttrsFirst(a: seq<Node>, b: seq<Node>, key: string)
    requires SameAttrs(a, b)
    ensures FirstWithValue(a, SlotDirective, key) == FirstWithValue(b, SlotDirective, key)
    decreases |a|
  {
    if a != [] {
      SameAttrsFirst(a[1..], b[1..], key);
    }
  }

  /** Filling other keys leaves the text of a slot for `key` alone. */
  lemma {:induction false} OtherKeysKeepText(nodes: seq<Node>, data: seq<(string, string)>, key: string, k: nat)
    requires k < |nodes| && HasValue(nodes[k], SlotDirective, key)
    requires forall i :: 0 <= i < |data| ==> data[i].0 != key
    ensures PopulateFlat(nodes, data)[k] == nodes[k]
    decreases |data|
  {
    if data != [] {
      var m := FillFirst(nodes, data[0].0, data[0].1);
      assert m[k] == nodes[k];
      OtherKeysKeepText(m, data[1..], key, k);
    }
  }

  /** With distinct keys, the first slot for each key shows that key's value. */
  lemma {:induction false} SlotShowsValue(nodes: seq<Node>, data: seq<(string, string)>, i: nat)
    requires i < |data|
    requires forall p, q :: 0 <= p < q < |data| ==> data[p].0 != data[q].0
    requires FirstWithValue(nodes, SlotDirective, data[i].0).Some?
    ensures PopulateFlat(nodes, data)[FirstWithValue(nodes, SlotDirective, data[i].0).value].text == data[i].1
    decreases |data|
  {
    var key := data[i].0;
    var k := FirstWithValue(nodes, SlotDirective, key).value;
    var m := FillFirst(nodes, data[0].0, data[0].1);
    SameAttrsFirst(nodes, m, key);
    var rest := data[1..];
    if i == 0 {
      forall p | 0 <= p < |rest| ensures rest[p].0 != key {
        assert rest[p] == data[p + 1];
      }
      OtherKeysKeepText(m, rest, key, k);
    } else {
      forall p, q | 0 <= p < q < |rest| ensures rest[p].0 != rest[q].0 {
        assert rest[p] == data[p + 1] && rest[q] == data[q + 1];
      }
      assert rest[i - 1] == data[i];
      SlotShowsValue(m, rest, i - 1);
    }
  }
}
