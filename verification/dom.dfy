/** The slice of the DOM the engine touches, as values.

    A `Node` is one element: its attributes, its text content and whether it
    is a <button>. An `Item` is one top-level element of a fragment or of the
    container together with its subtree, flattened in document order. The
    distinction between an item's root and its descendants matters because
    `element.querySelectorAll(sel)` searches descendants only, while
    `fragment.querySelectorAll(sel)` also sees the fragment's top-level
    elements. */
module Dom {
  import opened Results

  const StamperAttr := "stamper"
  const TempDirective := "s-temp"
  const CastDirective := "s-cast"
  const CrateDirective := "s-crate"
  const DeleteDirective := "s-delete"
  const IndexDirective := "s-index"
  const SequenceDirective := "s-sequence"
  const SlotDirective := "s-slot"
  const PreAddDirective := "s-preadd"
  const PostAddDirective := "s-postadd"
  const PreDeleteDirective := "s-predelete"
  const PostDeleteDirective := "s-postdelete"
  const AriaLabel := "aria-label"

  datatype Node = Node(attrs: map<string, string>, text: string, button: bool)

  datatype Item = Item(root: Node, descendants: seq<Node>)

  /** The item's elements in document order, root first. */
  function Nodes(item: Item): seq<Node> {
    [item.root] + item.descendants
  }

  /** The elements of a fragment in document order. */
  function Flatten(items: seq<Item>): (nodes: seq<Node>)
    ensures |nodes| >= |items|
  {
    if items == [] then [] else Nodes(items[0]) + Flatten(items[1..])
  }

  /** `[name=value]` holds of the node. */
  predicate HasValue(n: Node, name: string, value: string) {
    name in n.attrs && n.attrs[name] == value
  }

  /** `[name]` holds of the node. */
  predicate Has(n: Node, name: string) {
    name in n.attrs
  }

  /** `getAttribute(name)` read as JavaScript truthiness: absent and empty are
      both falsy. */
  function TruthyAttr(n: Node, name: string): Option<string> {
    if name in n.attrs && n.attrs[name] != "" then Some(n.attrs[name]) else None
  }

  /** Position of the first node carrying `[name=value]`. */
  function FirstWithValue(nodes: seq<Node>, name: string, value: string): (r: Option<nat>)
    ensures r.Some? ==> r.value < |nodes| && HasValue(nodes[r.value], name, value)
    ensures r.Some? ==> forall j :: 0 <= j < r.value ==> !HasValue(nodes[j], name, value)
    ensures r.None? <==> forall j :: 0 <= j < |nodes| ==> !HasValue(nodes[j], name, value)
  {
    if nodes == [] then None
    else if HasValue(nodes[0], name, value) then Some(0)
    else match FirstWithValue(nodes[1..], name, value)
      case None => None
      case Some(k) => Some(k + 1)
  }

  /** Position of the first node carrying `[name]`. */
  function FirstWith(nodes: seq<Node>, name: string): (r: Option<nat>)
    ensures r.Some? ==> r.value < |nodes| && Has(nodes[r.value], name)
    ensures r.Some? ==> forall j :: 0 <= j < r.value ==> !Has(nodes[j], name)
    ensures r.None? <==> forall j :: 0 <= j < |nodes| ==> !Has(nodes[j], name)
  {
    if nodes == [] then None
    else if Has(nodes[0], name) then Some(0)
    else match FirstWith(nodes[1..], name)
      case None => None
      case Some(k) => Some(k + 1)
  }

  predicate IsAsciiLetter(c: char) {
    'a' <= c <= 'z' || 'A' <= c <= 'Z'
  }

  predicate IsNameStart(c: char) {
    IsAsciiLetter(c) || c == '_' || c as int >= 0x80
  }

  predicate IsNameChar(c: char) {
    IsNameStart(c) || '0' <= c <= '9' || c == '-'
  }

  /** The value may stand unquoted in an attribute selector (`[a=value]`),
      that is, it is a CSS identifier; escape sequences are not recognised. */
  predicate IsCssIdent(s: string) {
    && |s| > 0
    && (forall i :: 0 <= i < |s| ==> IsNameChar(s[i]))
    && (if s[0] == '-' then |s| > 1 && (IsNameStart(s[1]) || s[1] == '-') else IsNameStart(s[0]))
  }

  /** One element below the root of a scope, in document order. A <template>
      carries its content; every element carries its element children, which
      the engine reads only for the container. */
  datatype PageElement = PageElement(node: Node, template: Option<seq<Item>>, children: seq<Item>)

  /** A root element with its `stamper` attribute and its subtree. */
  datatype Page = Page(identifier: Option<string>, elements: seq<PageElement>)

  /** Position of the first element carrying `[directive="identifier"]`. */
  function FirstElementWith(elements: seq<PageElement>, directive: string, identifier: string): (r: Option<nat>)
    ensures r.Some? ==> r.value < |elements| && HasValue(elements[r.value].node, directive, identifier)
    ensures r.Some? ==> forall j :: 0 <= j < r.value ==> !HasValue(elements[j].node, directive, identifier)
    ensures r.None? <==> forall j :: 0 <= j < |elements| ==> !HasValue(elements[j].node, directive, identifier)
  {
    if elements == [] then None
    else if HasValue(elements[0].node, directive, identifier) then Some(0)
    else match FirstElementWith(elements[1..], directive, identifier)
      case None => None
      case Some(k) => Some(k + 1)
  }

  /** Element `k` carries `[directive="identifier"]` and none before it does. */
  predicate FirstMatchAt(elements: seq<PageElement>, k: nat, directive: string, identifier: string) {
    && k < |elements|
    && HasValue(elements[k].node, directive, identifier)
    && forall j :: 0 <= j < k ==> !HasValue(elements[j].node, directive, identifier)
  }

  /** `root.querySelector('[directive="identifier"]')`: the first matching
      element in document order. */
  function QueryElement(elements: seq<PageElement>, directive: string, identifier: string): (r: Option<PageElement>)
    ensures r.Some? ==> exists k: nat :: FirstMatchAt(elements, k, directive, identifier) && elements[k] == r.value
    ensures r.None? <==> forall j :: 0 <= j < |elements| ==> !HasValue(elements[j].node, directive, identifier)
  {
    match FirstElementWith(elements, directive, identifier)
    case None => None
    case Some(k) => Some(elements[k])
  }
}
