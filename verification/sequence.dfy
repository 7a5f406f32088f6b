/** The sequence stamper: every element marked `s-sequence` gets, as its text,
    the decimal form of `currentIndex + 1` left-padded with "0" to as many
    digits as its pattern has "0" characters. */
module Sequence {
  import opened Results
  import opened Text
  import opened Dom

  /** `generateSequence(target)` for a marker value `pattern`. */
  function GenerateSequence(pattern: string, counter: nat): (r: Result<string>)
    ensures r.Err? <==> pattern == ""
    ensures r.Err? ==> r.failure == MissingAttribute
    ensures r.Ok? ==> AllDigits(r.value)
    ensures r.Ok? ==> |r.value| == Max(Count(pattern, '0'), |Decimal(counter + 1)|)
    ensures r.Ok? ==> r.value[|r.value| - |Decimal(counter + 1)|..] == Decimal(counter + 1)
    ensures r.Ok? ==> forall i :: 0 <= i < |r.value| - |Decimal(counter + 1)| ==> r.value[i] == '0'
  {
    if pattern == "" then Err(MissingAttribute)
    else
      var d := Decimal(counter + 1);
      var text := PadStart(d, Count(pattern, '0'), '0');
      assert AllDigits(text) by {
        forall i | 0 <= i < |text| ensures IsDigit(text[i]) {
          if i >= |text| - |d| {
            assert text[i] == text[|text| - |d|..][i - (|text| - |d|)];
          }
        }
      }
      Ok(text)
  }

  /** With no "0" in the pattern the text is the plain number. */
  lemma UnpaddedIsPlain(pattern: string, counter: nat)
    requires pattern != "" && Count(pattern, '0') == 0
    ensures GenerateSequence(pattern, counter) == Ok(Decimal(counter + 1))
  {
    var r := GenerateSequence(pattern, counter);
    assert r.value == r.value[0..];
  }

  /** The stamped text reads back as `counter + 1`, whatever the padding. */
  lemma SequenceRoundTrip(pattern: string, counter: nat)
    requires pattern != ""
    ensures ParseDecimal(GenerateSequence(pattern, counter).value) == counter + 1
  {
    var text := GenerateSequence(pattern, counter).value;
    var d := Decimal(counter + 1);
    var z := text[..|text| - |d|];
    assert text == z + d;
    ParseDecimalIgnoresLeadingZeros(z, d);
    ParseDecimalOfDecimal(counter + 1);
  }

  /** Two stampings at different counter values never show the same text, even
      under different padding patterns. */
  lemma SequenceDistinct(p1: string, p2: string, c1: nat, c2: nat)
    requires p1 != "" && p2 != "" && c1 != c2
    ensures GenerateSequence(p1, c1).value != GenerateSequence(p2, c2).value
  {
    SequenceRoundTrip(p1, c1);
    SequenceRoundTrip(p2, c2);
  }

  /** A pattern of two zeros pads the first number to "01". */
  lemma TwoZeroPattern()
    ensures GenerateSequence("00", 0) == Ok("01")
  {
    assert Count("00", '0') == 2;
    assert Decimal(1) == "1";
    assert seq(1, _ => '0') == "0";
    assert PadStart("1", 2, '0') == "01";
  }

  /** The node shows the number `v` if it carries a sequence marker. */
  predicate ShowsNumber(n: Node, v: nat) {
    Has(n, SequenceDirective) ==> AllDigits(n.text) && ParseDecimal(n.text) == v
  }

  /** `after` shows what `generateSequence` gives for `before`'s own pattern
      at `counter`, padding included; an unmarked node keeps its text. */
  predicate ShowsSequence(before: Node, after: Node, counter: nat) {
    if Has(before, SequenceDirective) then
      before.attrs[SequenceDirective] != ""
      && after.text == GenerateSequence(before.attrs[SequenceDirective], counter).value
    else after.text == before.text
  }

  /** What the stamped text reads as: a marked node shows `counter + 1`. */
  lemma SequenceReads(before: Node, after: Node, counter: nat)
    requires Retexted(before, after) && ShowsSequence(before, after, counter)
    ensures ShowsNumber(after, counter + 1)
  {
    if Has(before, SequenceDirective) {
      SequenceRoundTrip(before.attrs[SequenceDirective], counter);
    }
  }

  predicate HasEmptyPattern(n: Node) {
    HasValue(n, SequenceDirective, "")
  }

  /** Same element with possibly different text. */
  predicate Retexted(a: Node, b: Node) {
    a.attrs == b.attrs && a.button == b.button
  }

  function StampNode(n: Node, counter: nat): (r: Result<Node>)
    ensures r.Err? <==> HasEmptyPattern(n)
    ensures r.Err? ==> r.failure == MissingAttribute
    ensures r.Ok? ==> Retexted(n, r.value) && ShowsSequence(n, r.value, counter)
    ensures r.Ok? && !Has(n, SequenceDirective) ==> r.value == n
  {
    if !Has(n, SequenceDirective) then Ok(n)
    else
      var pattern := n.attrs[SequenceDirective];
      if pattern == "" then Err(MissingAttribute)
      else Ok(n.(text := GenerateSequence(pattern, counter).value))
  }

  /** An element marked `s-sequence="00"` is stamped "01" on the first click. */
  lemma StampPadsToPattern()
    ensures var n := Node(map[SequenceDirective := "00"], "", false);
      StampNode(n, 0) == Ok(n.(text := "01"))
  {
    TwoZeroPattern();
  }

  /** `querySelectorAll('[s-sequence]').forEach(...)` over a list of nodes:
      it fails exactly when some marked node has an empty pattern. */
  function StampNodes(nodes: seq<Node>, counter: nat): (r: Result<seq<Node>>)
    ensures r.Err? <==> exists i :: 0 <= i < |nodes| && HasEmptyPattern(nodes[i])
    ensures r.Err? ==> r.failure == MissingAttribute
    ensures r.Ok? ==> |r.value| == |nodes|
    ensures r.Ok? ==> forall i :: 0 <= i < |nodes| ==> Retexted(nodes[i], r.value[i]) && ShowsSequence(nodes[i], r.value[i], counter)
    ensures r.Ok? ==> forall i :: 0 <= i < |nodes| && !Has(nodes[i], SequenceDirective) ==> r.value[i] == nodes[i]
    decreases |nodes|
  {
    if nodes == [] then Ok([])
    else
      var tail := nodes[1..];
      assert forall i :: 1 <= i < |nodes| ==> tail[i - 1] == nodes[i];
      match StampNode(nodes[0], counter)
      case Err(f) => Err(f)
      case Ok(n) =>
        match StampNodes(tail, counter)
        case Err(f) =>
          var k :| 0 <= k < |tail| && HasEmptyPattern(tail[k]);
          assert HasEmptyPattern(nodes[k + 1]);
          Err(f)
        case Ok(rest) =>
          var r := [n] + rest;
          assert forall i :: 1 <= i < |nodes| ==> r[i] == rest[i - 1];
          Ok(r)
  }

  predicate ItemHasEmptyPattern(item: Item, withRoot: bool) {
    (withRoot && HasEmptyPattern(item.root))
    || exists i :: 0 <= i < |item.descendants| && HasEmptyPattern(item.descendants[i])
  }

  /** Every marked node of the item (its root only when `withRoot`) shows `v`. */
  predicate ItemShowsNumber(item: Item, v: nat, withRoot: bool) {
    && (withRoot ==> ShowsNumber(item.root, v))
    && forall i :: 0 <= i < |item.descendants| ==> ShowsNumber(item.descendants[i], v)
  }

  /** Every marked node of `after` (its root only when `withRoot`) shows the
      padded text of the matching node of `before`; the others keep theirs. */
  predicate ItemShowsSequence(before: Item, after: Item, counter: nat, withRoot: bool) {
    && |after.descendants| == |before.descendants|
    && (withRoot ==> ShowsSequence(before.root, after.root, counter))
    && (!withRoot ==> after.root.text == before.root.text)
    && forall i :: 0 <= i < |before.descendants| ==> ShowsSequence(before.descendants[i], after.descendants[i], counter)
  }

  /** A stamped item reads as `counter + 1` wherever it is marked. */
  lemma ItemSequenceReads(before: Item, after: Item, counter: nat, withRoot: bool)
    requires SameShape(before, after) && ItemShowsSequence(before, after, counter, withRoot)
    ensures ItemShowsNumber(after, counter + 1, withRoot)
  {
    if withRoot {
      SequenceReads(before.root, after.root, counter);
    }
    forall i | 0 <= i < |after.descendants| ensures ShowsNumber(after.descendants[i], counter + 1) {
      SequenceReads(before.descendants[i], after.descendants[i], counter);
    }
  }

  /** Same elements, in the same order, with possibly different text. */
  predicate SameShape(a: Item, b: Item) {
    && Retexted(a.root, b.root)
    && |a.descendants| == |b.descendants|
    && forall i :: 0 <= i < |a.descendants| ==> Retexted(a.descendants[i], b.descendants[i])
  }

  /** Stamps an element's markers: `element.querySelectorAll` reaches the
      descendants only; a fragment's query also reaches its top-level roots. */
  function StampItem(item: Item, counter: nat, withRoot: bool): (r: Result<Item>)
    ensures r.Err? <==> ItemHasEmptyPattern(item, withRoot)
    ensures r.Err? ==> r.failure == MissingAttribute
    ensures r.Ok? ==> SameShape(item, r.value) && ItemShowsSequence(item, r.value, counter, withRoot)
    ensures r.Ok? && !withRoot ==> r.value.root == item.root
  {
    var root :- if withRoot then StampNode(item.root, counter) else Ok(item.root);
    var descendants :- StampNodes(item.descendants, counter);
    Ok(Item(root, descendants))
  }

  /** `createFragment()`: the cloned template content with every marker stamped. */
  function StampFragment(items: seq<Item>, counter: nat): (r: Result<seq<Item>>)
    ensures r.Err? <==> exists i :: 0 <= i < |items| && ItemHasEmptyPattern(items[i], true)
    ensures r.Err? ==> r.failure == MissingAttribute
    ensures r.Ok? ==> |r.value| == |items|
    ensures r.Ok? ==> forall i :: 0 <= i < |items| ==> SameShape(items[i], r.value[i]) && ItemShowsSequence(items[i], r.value[i], counter, true)
    decreases |items|
  {
    if items == [] then Ok([])
    else
      var tail := items[1..];
      assert forall i :: 1 <= i < |items| ==> tail[i - 1] == items[i];
      match StampItem(items[0], counter, true)
      case Err(f) => Err(f)
      case Ok(first) =>
        match StampFragment(tail, counter)
        case Err(f) =>
          var k :| 0 <= k < |tail| && ItemHasEmptyPattern(tail[k], true);
          assert ItemHasEmptyPattern(items[k + 1], true);
          Err(f)
        case Ok(rest) =>
          var r := [first] + rest;
          assert forall i :: 1 <= i < |items| ==> r[i] == rest[i - 1];
          Ok(r)
  }
}
