/** The per-scope state all three engine variants share.

    A scope is the element carrying `stamper="id"`. Its state is what the
    engine instance holds (the resolved template content, the cast element,
    whether the crate was found, the counter `currentIndex`) plus what it has
    done to the page: the groups of elements it numbered or inserted, the
    listeners it wired, the `s-inited` marker, and a log of the observable
    events (hooks run, confirm prompts, insertions and removals).

    A group is what one delete control removes: one element in the bundled
    engine and the mock (`child.remove()`), every top-level element of one
    stamped fragment in the older source. `stamp` records the counter value
    the group was stamped with; it is model bookkeeping, not a DOM field. */
module ScopeState {
  import opened Results
  import opened Dom
  import opened Sequence
  import opened IndexTokens
  import opened Denylist

  /** Where a group sits: in the crate, or inserted before the cast element. */
  datatype Region = Crate | BeforeCast

  datatype Group = Group(members: seq<Item>, region: Region, control: Option<Node>, stamp: Option<nat>)

  datatype HookPoint = PreAdd | PostAdd | PreDelete | PostDelete

  datatype Event =
    | HookRan(point: HookPoint, code: string)
    | Appended(items: seq<Item>)
    | InsertedBeforeCast(items: seq<Item>)
    | Removed(items: seq<Item>)
    | Prompted(message: string)
    | CallbackRan(children: seq<Item>)
    | PostInitRan

  datatype Scope = Scope(
    id: Option<string>,
    template: Option<seq<Item>>,
    cast: Option<Node>,
    crateFound: bool,
    clickWired: bool,
    inited: bool,
    groups: seq<Group>,
    counter: nat,
    log: seq<Event>)

  /** The state after an operation, and what it raised, if anything. */
  datatype Transition = Transition(after: Scope, failure: Option<Failure>)

  /** A freshly constructed instance: nothing resolved, counter at zero. */
  function Fresh(id: Option<string>): (s: Scope)
    ensures s.counter == 0 && s.groups == [] && s.log == []
    ensures s.template.None? && s.cast.None? && !s.crateFound && !s.clickWired && !s.inited
  {
    Scope(id, None, None, false, false, false, [], 0, [])
  }

  /** `getAttribute("aria-label") || "Delete element"`. */
  function ConfirmLabel(control: Node): (r: string)
    ensures r != ""
    ensures TruthyAttr(control, AriaLabel).Some? ==> r == control.attrs[AriaLabel]
  {
    match TruthyAttr(control, AriaLabel)
    case Some(l) => l
    case None => "Delete element"
  }

  /** Runs hook code read from an attribute: absent or empty code is skipped;
      other code runs only if the denylist lets it through. */
  function RunHook(log: seq<Event>, point: HookPoint, code: Option<string>, params: seq<string>, list: seq<Pattern>): (r: Result<seq<Event>>)
    ensures code.None? ==> r == Ok(log)
    ensures code.Some? && code.value != "" ==> (r.Ok? <==> !Forbidden(code.value, list))
    ensures r.Ok? ==> r.value == log + Hooked(point, code)
    ensures r.Err? ==> r.failure == MissingCode || r.failure == ForbiddenPattern
  {
    match code
    case None => Ok(log)
    case Some(c) =>
      var h :- Synthesize(c, params, list);
      Ok(log + [HookRan(point, h.body)])
  }

  function RemoveAt<T>(s: seq<T>, k: nat): (r: seq<T>)
    requires k < |s|
    ensures |r| == |s| - 1
    ensures forall i :: 0 <= i < k ==> r[i] == s[i]
    ensures forall i :: k <= i < |r| ==> r[i] == s[i + 1]
  {
    s[..k] + s[k + 1..]
  }

  /** Every marked element below each member of the group reads as the
      group's stamp plus one. The members' own elements are left out, since
      seeding stamps only what lies below them. */
  predicate ShowsStamp(g: Group) {
    g.stamp.Some? ==> forall m :: 0 <= m < |g.members| ==> ItemShowsNumber(g.members[m], g.stamp.value + 1, false)
  }

  /** The numbering invariant: every group in the crate carries a stamp below
      the counter and displays it, and stamps increase in container order, so
      no number is shown twice and the next add shows a fresh one. */
  predicate Numbered(groups: seq<Group>, counter: nat) {
    && (forall i :: 0 <= i < |groups| && groups[i].region == Crate ==>
          groups[i].stamp.Some? && groups[i].stamp.value < counter && ShowsStamp(groups[i]))
    && (forall i, j :: 0 <= i < j < |groups| && groups[i].region == Crate && groups[j].region == Crate ==>
          groups[i].stamp.value < groups[j].stamp.value)
  }

  /** Under the invariant, no two crate groups carry the same stamp. */
  lemma NumberedDistinct(groups: seq<Group>, counter: nat, i: nat, j: nat)
    requires Numbered(groups, counter)
    requires i < |groups| && j < |groups| && i != j
    requires groups[i].region == Crate && groups[j].region == Crate
    ensures groups[i].stamp != groups[j].stamp
  {
    if i < j {
      assert groups[i].stamp.value < groups[j].stamp.value;
    } else {
      assert groups[j].stamp.value < groups[i].stamp.value;
    }
  }

  /** Under the invariant, two marked elements in different crate groups
      never display the same text. */
  lemma NumberedShowsDistinct(groups: seq<Group>, counter: nat, i: nat, j: nat, mi: nat, mj: nat, a: nat, b: nat)
    requires Numbered(groups, counter)
    requires i < |groups| && j < |groups| && i != j
    requires groups[i].region == Crate && groups[j].region == Crate
    requires mi < |groups[i].members| && a < |groups[i].members[mi].descendants|
    requires mj < |groups[j].members| && b < |groups[j].members[mj].descendants|
    requires Has(groups[i].members[mi].descendants[a], SequenceDirective)
    requires Has(groups[j].members[mj].descendants[b], SequenceDirective)
    ensures groups[i].members[mi].descendants[a].text != groups[j].members[mj].descendants[b].text
  {
    NumberedDistinct(groups, counter, i, j);
    assert ShowsStamp(groups[i]) && ShowsStamp(groups[j]);
    assert ShowsNumber(groups[i].members[mi].descendants[a], groups[i].stamp.value + 1);
    assert ShowsNumber(groups[j].members[mj].descendants[b], groups[j].stamp.value + 1);
  }

  /** Appending a crate group stamped with the counter, then advancing the
      counter, keeps the invariant. */
  lemma NumberedAppend(groups: seq<Group>, counter: nat, g: Group)
    requires Numbered(groups, counter)
    requires g.region == Crate && g.stamp == Some(counter) && ShowsStamp(g)
    ensures Numbered(groups + [g], counter + 1)
  {
    var gs := groups + [g];
    assert forall i :: 0 <= i < |groups| ==> gs[i] == groups[i];
    forall i, j | 0 <= i < j < |gs| && gs[i].region == Crate && gs[j].region == Crate
      ensures gs[i].stamp.value < gs[j].stamp.value
    {
      assert gs[i] == groups[i];
      if j < |groups| {
        assert gs[j] == groups[j];
      }
    }
  }

  /** A group outside the crate does not affect the invariant. */
  lemma NumberedOutsideCrate(groups: seq<Group>, counter: nat, g: Group)
    requires Numbered(groups, counter) && g.region == BeforeCast
    ensures Numbered(groups + [g], counter)
  {
    var gs := groups + [g];
    assert forall i :: 0 <= i < |groups| ==> gs[i] == groups[i];
  }

  /** Removing a group keeps the invariant: the others keep their numbers. */
  lemma NumberedRemove(groups: seq<Group>, counter: nat, k: nat)
    requires Numbered(groups, counter) && k < |groups|
    ensures Numbered(RemoveAt(groups, k), counter)
  {
    var gs := RemoveAt(groups, k);
    assert forall i :: 0 <= i < |gs| ==> gs[i] == groups[if i < k then i else i + 1];
    forall i, j | 0 <= i < j < |gs| && gs[i].region == Crate && gs[j].region == Crate
      ensures gs[i].stamp.value < gs[j].stamp.value
    {
      var i' := if i < k then i else i + 1;
      var j' := if j < k then j else j + 1;
      assert gs[i] == groups[i'] && gs[j] == groups[j'];
    }
  }

  /** Crate groups stamped with their own positions are numbered up to
      their count. */
  lemma NumberedByPosition(groups: seq<Group>)
    requires forall k :: 0 <= k < |groups| ==> groups[k].region == Crate && groups[k].stamp == Some(k) && ShowsStamp(groups[k])
    ensures Numbered(groups, |groups|)
  {
  }

  /** The counter may only grow; the invariant survives that. */
  lemma NumberedRaise(groups: seq<Group>, counter: nat, counter': nat)
    requires Numbered(groups, counter) && counter <= counter'
    ensures Numbered(groups, counter')
  {
  }

  /** The `current` setter of the bundled engine, and a write to the mock's
      public `currentIndex` field: only the counter changes. */
  function SetCurrent(s: Scope, n: nat): (r: Scope)
    ensures r.counter == n
    ensures r.(counter := s.counter) == s
  {
    s.(counter := n)
  }

  /** Writing the counter keeps the numbering invariant exactly when the new
      value is above every stamp in the crate; lowering it to a stamp already
      shown breaks the invariant, and the next add shows that number again. */
  lemma SetCurrentKeepsNumbered(s: Scope, n: nat)
    requires Numbered(s.groups, s.counter)
    ensures Numbered(SetCurrent(s, n).groups, SetCurrent(s, n).counter) <==>
      forall i :: 0 <= i < |s.groups| && s.groups[i].region == Crate ==> s.groups[i].stamp.value < n
  {
  }

  /** Rewriting index tokens never touches an element's text, so a stamped
      sequence survives it. */
  lemma RewriteKeepsNumber(item: Item, table: seq<Token>, counter: nat, guard: Guard, withRoot: bool, v: nat, stampedRoot: bool)
    requires ValidTable(table)
    requires ItemShowsNumber(item, v, stampedRoot)
    ensures ItemShowsNumber(RewriteItem(item, table, counter, guard, withRoot), v, stampedRoot)
  {
    var r := RewriteItem(item, table, counter, guard, withRoot);
    forall i | 0 <= i < |item.descendants| ensures ShowsNumber(r.descendants[i], v) {
      assert Has(r.descendants[i], SequenceDirective) == Has(item.descendants[i], SequenceDirective);
    }
    assert Has(r.root, SequenceDirective) == Has(item.root, SequenceDirective);
  }

  /** Rewriting index tokens keeps the stamped texts. */
  lemma RewriteKeepsSequence(before: Item, item: Item, table: seq<Token>, counter: nat, guard: Guard, withRoot: bool, c: nat, stampedRoot: bool)
    requires ValidTable(table)
    requires ItemShowsSequence(before, item, c, stampedRoot)
    ensures ItemShowsSequence(before, RewriteItem(item, table, counter, guard, withRoot), c, stampedRoot)
  {
  }

  /** `createFragment()` followed by `addIndex(fragment)` with the older
      tokens, as the mock and the older source build a click fragment: the
      stamped template content with the index tokens of every element, the
      top-level ones included, rewritten. */
  function IndexedFragment(template: seq<Item>, counter: nat): (r: Result<seq<Item>>)
    ensures r.Err? <==> StampFragment(template, counter).Err?
    ensures r.Err? ==> r.failure == MissingAttribute
    ensures r.Ok? ==> |r.value| == |template|
    ensures r.Ok? ==> forall i :: 0 <= i < |template| ==> ItemShowsSequence(template[i], r.value[i], counter, true)
    ensures r.Ok? ==> forall i :: 0 <= i < |template| ==> ItemShowsNumber(r.value[i], counter + 1, true)
  {
    match StampFragment(template, counter)
    case Err(f) => Err(f)
    case Ok(stamped) =>
      LegacyTableValid();
      var r := RewriteItems(stamped, LegacyTable, counter, ResultNonEmpty, true);
      forall i | 0 <= i < |stamped|
        ensures ItemShowsSequence(template[i], r[i], counter, true)
        ensures ItemShowsNumber(r[i], counter + 1, true)
      {
        ItemSequenceReads(template[i], stamped[i], counter, true);
        RewriteKeepsNumber(stamped[i], LegacyTable, counter, ResultNonEmpty, true, counter + 1, true);
        RewriteKeepsSequence(template[i], stamped[i], LegacyTable, counter, ResultNonEmpty, true, counter, true);
      }
      Ok(r)
  }

  /** Every node of the click fragment, the top-level elements included, has
      its listed attributes resolved with the counter. */
  lemma IndexedFragmentResolves(template: seq<Item>, counter: nat, i: nat, k: nat)
    requires IndexedFragment(template, counter).Ok? && i < |template|
    ensures var stamped := StampFragment(template, counter).value;
      var fragment := IndexedFragment(template, counter).value;
      && k < |stamped[i].descendants| ==>
           Resolved(stamped[i].descendants[k], fragment[i].descendants[k], LegacyTable, counter)
    ensures var stamped := StampFragment(template, counter).value;
      Resolved(stamped[i].root, IndexedFragment(template, counter).value[i].root, LegacyTable, counter)
  {
    var stamped := StampFragment(template, counter).value;
    LegacyNoReintroduction(counter);
    RewriteNodeResolves(stamped[i].root, LegacyTable, counter, ResultNonEmpty);
    if k < |stamped[i].descendants| {
      RewriteNodeResolves(stamped[i].descendants[k], LegacyTable, counter, ResultNonEmpty);
    }
  }

  /** `queryElement(directive, identifier)`: the first element below the root
      carrying `[directive="identifier"]`. */
  function QueryScope(page: Page, directive: string, id: Option<string>): (r: Result<PageElement>)
    ensures (id.None? || id.value == "") ==> r == Err(MissingIdentifier)
    ensures id.Some? && id.value != "" ==>
      (r.Err? <==> forall j :: 0 <= j < |page.elements| ==> !HasValue(page.elements[j].node, directive, id.value))
    ensures id.Some? && id.value != "" && r.Err? ==> r.failure == MissingElement(directive)
    ensures r.Ok? ==> id.Some? && id.value != "" && exists k: nat :: FirstMatchAt(page.elements, k, directive, id.value) && page.elements[k] == r.value
  {
    if id.None? || id.value == "" then Err(MissingIdentifier)
    else
      match QueryElement(page.elements, directive, id.value)
      case None => Err(MissingElement(directive))
      case Some(e) => Ok(e)
  }

  /** The names a synthesised hook is called with, in order. */
  const HookParams: seq<string> := ["currentIndex", "rootEl", "tempEl", "castEl", "crateEl", "child", "event"]

  /** The log entry a hook leaves when its attribute holds code. */
  function Hooked(point: HookPoint, code: Option<string>): seq<Event> {
    if code.Some? then [HookRan(point, code.value)] else []
  }
}
