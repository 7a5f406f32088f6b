/** Seeding: what `init` does to the children already in the crate.

    The bundled engine and the mock both walk the crate's element children in
    order; for each they stamp the sequence markers below it, rewrite the
    index tokens below it with the current counter, look up its delete
    control, and advance the counter. The element itself is not touched:
    both query it with `element.querySelectorAll`, which sees descendants
    only. They differ in the token table, the emptiness guard and the delete
    control; a `Flavour` names the difference. */
module Seeding {
  import opened Results
  import opened Dom
  import opened Sequence
  import opened IndexTokens
  import opened Controls
  import opened ScopeState

  /** The bundled engine seeds with the scope's identifier; the mock does not
      use it. */
  datatype Flavour = BundledSeeding(id: string) | MockSeeding

  function TableOf(f: Flavour): (r: seq<Token>)
    ensures ValidTable(r)
  {
    match f
    case BundledSeeding(id) => BundledTable(id)
    case MockSeeding => LegacyTableValid(); LegacyTable
  }

  function GuardOf(f: Flavour): Guard {
    if f.BundledSeeding? then SourceNonEmpty else ResultNonEmpty
  }

  function ControlOf(f: Flavour, child: Item): (r: Result<Option<Node>>)
    ensures r.Err? <==> f.BundledSeeding? && !IsCssIdent(f.id)
  {
    match f
    case BundledSeeding(id) => BundledControl(child, id)
    case MockSeeding => Ok(MockControl(child))
  }

  /** The delete selector throws: only the bundled engine's can. */
  predicate SelectorFails(f: Flavour) {
    f.BundledSeeding? && !IsCssIdent(f.id)
  }

  /** What seeding leaves: the crate's groups, the counter, and the failure. */
  datatype Seeded = Seeded(groups: seq<Group>, counter: nat, failure: Option<Failure>)

  /** Crate children seeding never reached. */
  function Unprocessed(children: seq<Item>): (r: seq<Group>)
    ensures |r| == |children|
    ensures forall k :: 0 <= k < |r| ==> r[k].region == Crate && r[k].members == [children[k]]
  {
    seq(|children|, k requires 0 <= k < |children| => Group([children[k]], Crate, None, None))
  }

  /** Some element below the child carries an empty sequence pattern. */
  predicate BadChild(child: Item) {
    ItemHasEmptyPattern(child, false)
  }

  /** One crate child processed: its descendants stamped, their index tokens
      rewritten, and its delete control looked up. A failure in the last step
      still leaves the rewritten child behind. */
  function SeedChild(child: Item, f: Flavour, counter: nat): (r: (Item, Result<Option<Node>>))
    requires !BadChild(child)
    ensures r.0.root == child.root && ItemShowsSequence(child, r.0, counter, false)
    ensures ItemShowsNumber(r.0, counter + 1, false)
    ensures r.1.Err? <==> SelectorFails(f)
  {
    var stamped := StampItem(child, counter, false).value;
    var indexed := RewriteItem(stamped, TableOf(f), counter, GuardOf(f), false);
    ItemSequenceReads(child, stamped, counter, false);
    RewriteKeepsNumber(stamped, TableOf(f), counter, GuardOf(f), false, counter + 1, false);
    RewriteKeepsSequence(child, stamped, TableOf(f), counter, GuardOf(f), false, counter, false);
    (indexed, ControlOf(f, indexed))
  }

  /** Position `i` below a seeded child is the stamped node with its index
      tokens rewritten. */
  lemma SeedChildAt(child: Item, f: Flavour, counter: nat, i: nat)
    requires !BadChild(child) && i < |child.descendants|
    ensures var stamped := StampItem(child, counter, false).value;
      i < |stamped.descendants| &&
      SeedChild(child, f, counter).0.descendants[i] == RewriteNode(stamped.descendants[i], TableOf(f), counter, GuardOf(f))
  {
  }

  /** The flavour's token table rewrites a node so that every listed
      attribute has its tokens resolved. For the bundled tokens this needs an
      identifier free of digits, which keeps a substituted number from
      completing another token (`DigitIdentifierReintroduces`). */
  lemma FlavourResolves(n: Node, f: Flavour, counter: nat)
    requires f.BundledSeeding? ==> DigitFree(f.id)
    ensures Resolved(n, RewriteNode(n, TableOf(f), counter, GuardOf(f)), TableOf(f), counter)
  {
    match f
    case BundledSeeding(id) =>
      BundledNoReintroduction(id, counter);
      RewriteNodeResolves(n, BundledTable(id), counter, SourceNonEmpty);
    case MockSeeding =>
      LegacyNoReintroduction(counter);
      RewriteNodeResolves(n, LegacyTable, counter, ResultNonEmpty);
  }

  /** Below a seeded child every listed attribute has its tokens resolved
      with the counter the child was seeded at. */
  lemma SeedChildResolves(child: Item, f: Flavour, counter: nat, i: nat)
    requires !BadChild(child) && i < |child.descendants|
    requires f.BundledSeeding? ==> DigitFree(f.id)
    ensures var stamped := StampItem(child, counter, false).value;
      i < |stamped.descendants| &&
      Resolved(stamped.descendants[i], SeedChild(child, f, counter).0.descendants[i], TableOf(f), counter)
  {
    SeedChildAt(child, f, counter, i);
    var stamped := StampItem(child, counter, false).value;
    FlavourResolves(stamped.descendants[i], f, counter);
  }

  /** The group seeding made of `child` with stamp `stamp`: one element, its
      own node untouched, the number `stamp + 1` shown below it. */
  predicate SeededAs(g: Group, child: Item, f: Flavour, stamp: nat) {
    && g.region == Crate
    && g.stamp == Some(stamp)
    && |g.members| == 1
    && g.members[0].root == child.root
    && ItemShowsNumber(g.members[0], stamp + 1, false)
  }

  /** Group by group, `gs` is `children` seeded with consecutive stamps from
      `counter` on. */
  predicate SeededFrom(gs: seq<Group>, children: seq<Item>, f: Flavour, counter: nat)
    decreases |gs|
  {
    && |gs| == |children|
    && (gs != [] ==> SeededAs(gs[0], children[0], f, counter) && SeededFrom(gs[1..], children[1..], f, counter + 1))
  }

  /** Group by group, `gs` holds `children` as `SeedChild` left them, at
      consecutive counter values from `counter` on. */
  predicate ProcessedFrom(gs: seq<Group>, children: seq<Item>, f: Flavour, counter: nat)
    decreases |gs|
  {
    && |gs| == |children|
    && (gs != [] ==>
          && !BadChild(children[0])
          && |gs[0].members| == 1
          && gs[0].members[0] == SeedChild(children[0], f, counter).0
          && ProcessedFrom(gs[1..], children[1..], f, counter + 1))
  }

  lemma {:induction false} SeededFromAt(gs: seq<Group>, children: seq<Item>, f: Flavour, counter: nat, k: nat)
    requires SeededFrom(gs, children, f, counter) && k < |gs|
    ensures SeededAs(gs[k], children[k], f, counter + k)
    decreases k
  {
    if k > 0 {
      SeededFromAt(gs[1..], children[1..], f, counter + 1, k - 1);
      assert gs[1..][k - 1] == gs[k] && children[1..][k - 1] == children[k];
    }
  }

  /** Children seeded from zero carry stamps 0, 1, ... and so satisfy the
      numbering invariant up to their count. */
  lemma SeededFromZero(gs: seq<Group>, children: seq<Item>, f: Flavour)
    requires SeededFrom(gs, children, f, 0)
    ensures forall k :: 0 <= k < |gs| ==> SeededAs(gs[k], children[k], f, k)
    ensures Numbered(gs, |gs|)
  {
    forall k | 0 <= k < |gs| ensures SeededAs(gs[k], children[k], f, k) && ShowsStamp(gs[k]) {
      SeededFromAt(gs, children, f, 0, k);
    }
    NumberedByPosition(gs);
  }

  /** `initializeCrateElements`: each existing child of the crate has its
      descendants stamped and their index tokens rewritten, gets its delete
      control, and advances the counter. The child's own element is left
      alone. */
  function Seed(children: seq<Item>, f: Flavour, counter: nat): (r: Seeded)
    ensures |r.groups| == |children|
    ensures forall k :: 0 <= k < |children| ==> r.groups[k].region == Crate && |r.groups[k].members| == 1
    ensures r.failure.None? ==> r.counter == counter + |children|
    ensures r.failure.None? ==> SeededFrom(r.groups, children, f, counter)
    ensures r.failure.None? ==> ProcessedFrom(r.groups, children, f, counter)
    ensures r.failure.Some? ==> counter <= r.counter < counter + |children|
    decreases |children|
  {
    if children == [] then Seeded([], counter, None)
    else if BadChild(children[0]) then Seeded(Unprocessed(children), counter, Some(MissingAttribute))
    else
      var (indexed, control) := SeedChild(children[0], f, counter);
      match control
      case Err(e) => Seeded([Group([indexed], Crate, None, Some(counter))] + Unprocessed(children[1..]), counter, Some(e))
      case Ok(c) =>
        var rest := Seed(children[1..], f, counter + 1);
        Seeded([Group([indexed], Crate, c, Some(counter))] + rest.groups, rest.counter, rest.failure)
  }

  lemma SeedStopsAtBadChild(children: seq<Item>, f: Flavour, counter: nat)
    requires children != [] && BadChild(children[0])
    ensures Seed(children, f, counter).failure == Some(MissingAttribute)
  {
  }

  lemma SeedStopsAtBadIdent(children: seq<Item>, f: Flavour, counter: nat)
    requires children != [] && !BadChild(children[0]) && SelectorFails(f)
    ensures Seed(children, f, counter).failure == Some(HostError)
  {
    assert SeedChild(children[0], f, counter).1.Err?;
  }

  lemma SeedContinues(children: seq<Item>, f: Flavour, counter: nat)
    requires children != [] && !BadChild(children[0]) && !SelectorFails(f)
    ensures Seed(children, f, counter).failure == Seed(children[1..], f, counter + 1).failure
  {
  }

  /** Some child has an empty sequence pattern below it. */
  predicate SomeBadChild(children: seq<Item>) {
    exists k :: 0 <= k < |children| && BadChild(children[k])
  }

  lemma SomeBadChildTail(children: seq<Item>)
    requires children != [] && !BadChild(children[0])
    ensures SomeBadChild(children) <==> SomeBadChild(children[1..])
  {
    if SomeBadChild(children) {
      var k :| 0 <= k < |children| && BadChild(children[k]);
      assert children[1..][k - 1] == children[k];
    }
    if SomeBadChild(children[1..]) {
      var k :| 0 <= k < |children[1..]| && BadChild(children[1..][k]);
      assert children[1..][k] == children[k + 1];
    }
  }

  /** Seeding fails exactly when some child has an empty sequence pattern
      below it, or when there is a child and the identifier cannot stand in
      the delete selector. */
  lemma {:induction false} SeedFailsIff(children: seq<Item>, f: Flavour, counter: nat)
    ensures Seed(children, f, counter).failure.Some? <==> (|children| > 0 && SelectorFails(f)) || SomeBadChild(children)
    decreases |children|
  {
    if children == [] {
    } else if BadChild(children[0]) {
      SeedStopsAtBadChild(children, f, counter);
    } else if SelectorFails(f) {
      SeedStopsAtBadIdent(children, f, counter);
    } else {
      SeedContinues(children, f, counter);
      SeedFailsIff(children[1..], f, counter + 1);
      SomeBadChildTail(children);
    }
  }
}
