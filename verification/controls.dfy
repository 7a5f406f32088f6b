/** How each engine picks the delete control of what it adds.

    The bundled engine looks below the element for `[s-delete=id]`, with the
    identifier spliced into the selector unquoted; the mock looks below it
    for any `[s-delete]`; the older source looks at every top-level element
    of the fragment, the element itself first, then below it. The bundled
    engine and the mock wire the control only when it is a button; the older
    source wires whatever it found and checks for a button on click. */
module Controls {
  import opened Results
  import opened Dom

  /** `child.querySelector('[s-delete=id]')` followed by the button check.
      An identifier that is not a CSS identifier makes the query throw. */
  function BundledControl(child: Item, id: string): (r: Result<Option<Node>>)
    ensures r.Err? <==> !IsCssIdent(id)
    ensures r.Err? ==> r.failure == HostError
    ensures r.Ok? && r.value.Some? ==>
      exists k :: 0 <= k < |child.descendants| && child.descendants[k] == r.value.value
        && HasValue(child.descendants[k], DeleteDirective, id) && child.descendants[k].button
        && forall j :: 0 <= j < k ==> !HasValue(child.descendants[j], DeleteDirective, id)
    ensures r.Ok? && r.value.None? ==>
      forall k :: 0 <= k < |child.descendants| && HasValue(child.descendants[k], DeleteDirective, id) && child.descendants[k].button ==>
        exists j :: 0 <= j < k && HasValue(child.descendants[j], DeleteDirective, id)
  {
    if !IsCssIdent(id) then Err(HostError)
    else
      match FirstWithValue(child.descendants, DeleteDirective, id)
      case None => Ok(None)
      case Some(k) =>
        if child.descendants[k].button then Ok(Some(child.descendants[k]))
        else
          assert forall k' :: 0 <= k' < |child.descendants| && HasValue(child.descendants[k'], DeleteDirective, id) ==> k <= k';
          Ok(None)
  }

  /** `child.querySelector('[s-delete]')` followed by the button check. */
  function MockControl(child: Item): (r: Option<Node>)
    ensures r.Some? ==>
      exists k :: 0 <= k < |child.descendants| && child.descendants[k] == r.value
        && Has(child.descendants[k], DeleteDirective) && child.descendants[k].button
        && forall j :: 0 <= j < k ==> !Has(child.descendants[j], DeleteDirective)
    ensures r.None? ==>
      forall k :: 0 <= k < |child.descendants| && Has(child.descendants[k], DeleteDirective) && child.descendants[k].button ==>
        exists j :: 0 <= j < k && Has(child.descendants[j], DeleteDirective)
  {
    match FirstWith(child.descendants, DeleteDirective)
    case None => None
    case Some(k) =>
      if child.descendants[k].button then Some(child.descendants[k])
      else
        assert forall k' :: 0 <= k' < |child.descendants| && Has(child.descendants[k'], DeleteDirective) ==> k <= k';
        None
  }

  /** When every delete marker below the child names this scope, the bundled
      engine and the mock pick the same control. */
  lemma BundledAgreesWithMock(child: Item, id: string)
    requires IsCssIdent(id)
    requires forall k :: 0 <= k < |child.descendants| && Has(child.descendants[k], DeleteDirective) ==>
      HasValue(child.descendants[k], DeleteDirective, id)
    ensures BundledControl(child, id) == Ok(MockControl(child))
  {
    var d := child.descendants;
    assert forall k :: 0 <= k < |d| ==> (Has(d[k], DeleteDirective) <==> HasValue(d[k], DeleteDirective, id));
    var a := FirstWithValue(d, DeleteDirective, id);
    var b := FirstWith(d, DeleteDirective);
    if a.Some? && b.Some? {
      assert !(a.value < b.value) && !(b.value < a.value);
    }
  }

  /** The reduce over the fragment's top-level elements: the first of them
      marked `s-delete` itself, or else carrying a marked element below it,
      supplies the control. */
  function LegacyControl(children: seq<Item>): (r: Option<Node>)
    ensures r.Some? ==> Has(r.value, DeleteDirective)
    decreases |children|
  {
    if children == [] then None
    else if Has(children[0].root, DeleteDirective) then Some(children[0].root)
    else
      match FirstWith(children[0].descendants, DeleteDirective)
      case Some(k) => Some(children[0].descendants[k])
      case None => LegacyControl(children[1..])
  }

  /** The node of `nodes` the first `[name]` match designates. */
  function FirstMarked(nodes: seq<Node>, name: string): Option<Node> {
    match FirstWith(nodes, name)
    case None => None
    case Some(k) => Some(nodes[k])
  }

  lemma FirstMarkedAppend(a: seq<Node>, b: seq<Node>, name: string)
    ensures FirstMarked(a + b, name) == if FirstWith(a, name).Some? then FirstMarked(a, name) else FirstMarked(b, name)
    decreases |a|
  {
    if a == [] {
      assert a + b == b;
    } else if !Has(a[0], name) {
      var ab := a + b;
      assert ab[1..] == a[1..] + b;
      FirstMarkedAppend(a[1..], b, name);
      match FirstWith(ab[1..], name)
      case None =>
      case Some(k) => assert ab[k + 1] == ab[1..][k];
      match FirstWith(a[1..], name)
      case None =>
      case Some(k) => assert a[k + 1] == a[1..][k];
    }
  }

  /** The reduce picks exactly the first marked element of the fragment in
      document order. */
  lemma {:induction false} LegacyControlInDocumentOrder(children: seq<Item>)
    ensures LegacyControl(children) == FirstMarked(Flatten(children), DeleteDirective)
    decreases |children|
  {
    if children != [] {
      var c := children[0];
      FirstMarkedAppend(Nodes(c), Flatten(children[1..]), DeleteDirective);
      FirstMarkedAppend([c.root], c.descendants, DeleteDirective);
      LegacyControlInDocumentOrder(children[1..]);
    }
  }
}
