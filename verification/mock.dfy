/** The engine the end-to-end pages load (the mock build): `init`, the add
    click, `addItemWithSlot`. Its delete listener is the one in
    `HookedDelete`, called with `MockHookParams`.

    It differs from the bundled engine in five ways: the identifier is read
    from the root at `init` and the constructor never fails; the template is
    kept before its child count is checked; index tokens are the older
    `{{index}}` and `{{index++}}`, matched ignoring case and rewritten over
    the whole fragment before `s-preadd` runs; the delete control is any
    `[s-delete]` button; the hooks get no `currentIndex` parameter. */
module Mock {
  import opened Results
  import opened Dom
  import opened Sequence
  import opened IndexTokens
  import opened Denylist
  import opened Slots
  import opened Controls
  import opened Seeding
  import opened ScopeState

  /** The names the mock's hooks are synthesised with. */
  const MockHookParams: seq<string> := ["rootEl", "tempEl", "castEl", "crateEl", "child", "event"]

  /** `init()`: the identifier comes from the root's `stamper` attribute. A
      template is kept as soon as it is recognised, so one with too many
      children is rejected but stays resolved. */
  function Init(s: Scope, page: Page, postInit: bool): (t: Transition)
    ensures t.after.id == s.id && t.after.counter >= s.counter
    ensures t.after.clickWired <==> s.clickWired || t.failure.None?
    ensures t.failure.None? ==> t.after.inited && t.after.template.Some? && |t.after.template.value| <= 1
    ensures t.failure.None? ==> t.after.cast.Some? && t.after.crateFound
    ensures t.failure.None? ==> t.after.log == s.log + (if postInit then [PostInitRan] else [])
    ensures t.failure.Some? ==> t.after.log == s.log && t.after.inited == s.inited
  {
    match QueryScope(page, TempDirective, page.identifier)
    case Err(f) => Transition(s, Some(f))
    case Ok(tempEl) =>
      match tempEl.template
      case None => Transition(s, Some(InvalidTemplate))
      case Some(content) =>
        var s1 := s.(template := Some(content));
        if |content| > 1 then Transition(s1, Some(TooManyTemplateChildren))
        else
          match QueryScope(page, CastDirective, page.identifier)
          case Err(f) => Transition(s1, Some(f))
          case Ok(castEl) =>
            var s2 := s1.(cast := Some(castEl.node));
            match QueryScope(page, CrateDirective, page.identifier)
            case Err(f) => Transition(s2, Some(f))
            case Ok(crateEl) =>
              var seeded := Seed(crateEl.children, MockSeeding, s.counter);
              var s3 := s2.(crateFound := true, groups := s.groups + seeded.groups, counter := seeded.counter);
              if seeded.failure.Some? then Transition(s3, seeded.failure)
              else
                Transition(s3.(clickWired := true, inited := true, log := s.log + (if postInit then [PostInitRan] else [])), None)
  }

  /** Unlike the bundled engine, a template with more than one element child
      is kept when `init` rejects it. */
  lemma InitKeepsOversizedTemplate(s: Scope, page: Page, postInit: bool)
    requires QueryScope(page, TempDirective, page.identifier).Ok?
    requires var e := QueryScope(page, TempDirective, page.identifier).value;
      e.template.Some? && |e.template.value| > 1
    ensures var t := Init(s, page, postInit);
      && t.failure == Some(TooManyTemplateChildren)
      && t.after == s.(template := QueryScope(page, TempDirective, page.identifier).value.template)
  {
  }

  /** An `s-temp` element that is not a `<template>` is refused before
      anything is kept. */
  lemma InitRejectsNonTemplate(s: Scope, page: Page, postInit: bool)
    requires QueryScope(page, TempDirective, page.identifier).Ok?
    requires QueryScope(page, TempDirective, page.identifier).value.template.None?
    ensures Init(s, page, postInit) == Transition(s, Some(InvalidTemplate))
  {
  }

  /** Once the three elements are found and the template is usable, seeding
      can only fail on an empty sequence pattern: the mock's delete selector
      never throws. */
  lemma InitFailsOnlyOnPatterns(s: Scope, page: Page, postInit: bool)
    requires QueryScope(page, TempDirective, page.identifier).Ok?
    requires var e := QueryScope(page, TempDirective, page.identifier).value;
      e.template.Some? && |e.template.value| <= 1
    requires QueryScope(page, CastDirective, page.identifier).Ok?
    requires QueryScope(page, CrateDirective, page.identifier).Ok?
    ensures Init(s, page, postInit).failure.Some? <==>
      SomeBadChild(QueryScope(page, CrateDirective, page.identifier).value.children)
  {
    SeedFailsIff(QueryScope(page, CrateDirective, page.identifier).value.children, MockSeeding, s.counter);
  }

  /** A fresh instance that `init` completes on numbers every existing crate
      child in order, as the bundled engine does: the k-th carries stamp k
      and shows k + 1, and the numbering invariant holds. */
  lemma InitNumbersCrate(page: Page, postInit: bool)
    requires Init(Fresh(None), page, postInit).failure.None?
    ensures QueryScope(page, CrateDirective, page.identifier).Ok?
    ensures var t := Init(Fresh(None), page, postInit);
      var children := QueryScope(page, CrateDirective, page.identifier).value.children;
      && t.after.counter == |children|
      && |t.after.groups| == |children|
      && (forall k :: 0 <= k < |children| ==> SeededAs(t.after.groups[k], children[k], MockSeeding, k))
      && Numbered(t.after.groups, t.after.counter)
  {
    var children := QueryScope(page, CrateDirective, page.identifier).value.children;
    var seeded := Seed(children, MockSeeding, 0);
    assert Init(Fresh(None), page, postInit).after.groups == seeded.groups;
    SeededFromZero(seeded.groups, children, MockSeeding);
  }

  /** The add click: stamp and index the fragment, run `s-preadd`, append,
      run `s-postadd`, wire the first element's delete control, advance the
      counter. An empty template still runs both hooks and then fails on the
      missing element. */
  function AddClick(s: Scope): (t: Transition)
    ensures !s.clickWired ==> t == Transition(s, None)
    ensures t.after.id == s.id && t.after.template == s.template && t.after.cast == s.cast
    ensures t.after.counter == s.counter + (if s.clickWired && t.failure.None? then 1 else 0)
    ensures |s.groups| <= |t.after.groups| <= |s.groups| + 1 && t.after.groups[..|s.groups|] == s.groups
  {
    if !s.clickWired then Transition(s, None)
    else if s.template.None? || s.cast.None? then Transition(s, Some(HostError))
    else
      var c := s.counter;
      var preadd := TruthyAttr(s.cast.value, PreAddDirective);
      var postadd := TruthyAttr(s.cast.value, PostAddDirective);
      match IndexedFragment(s.template.value, c)
      case Err(f) => Transition(s, Some(f))
      case Ok(fragment) =>
        match RunHook(s.log, PreAdd, preadd, MockHookParams, BundledDenylist)
        case Err(f) => Transition(s, Some(f))
        case Ok(log1) =>
          var log2 := log1 + [Appended(fragment)];
          var appended := if fragment == [] then s.groups else s.groups + [Group(fragment, Crate, None, Some(c))];
          match RunHook(log2, PostAdd, postadd, MockHookParams, BundledDenylist)
          case Err(f) => Transition(s.(groups := appended, log := log2), Some(f))
          case Ok(log3) =>
            if fragment == [] then Transition(s.(log := log3), Some(HostError))
            else
              Transition(s.(groups := s.groups + [Group(fragment, Crate, MockControl(fragment[0]), Some(c))], log := log3, counter := c + 1), None)
  }

  /** The ways a wired add click fails, and only those. */
  predicate AddBlocked(s: Scope)
    requires s.template.Some? && s.cast.Some?
  {
    || (exists i :: 0 <= i < |s.template.value| && ItemHasEmptyPattern(s.template.value[i], true))
    || (TruthyAttr(s.cast.value, PreAddDirective).Some? && Forbidden(TruthyAttr(s.cast.value, PreAddDirective).value, BundledDenylist))
    || (TruthyAttr(s.cast.value, PostAddDirective).Some? && Forbidden(TruthyAttr(s.cast.value, PostAddDirective).value, BundledDenylist))
    || s.template.value == []
  }

  /** A wired add click succeeds exactly when none of its checks fires. */
  lemma AddClickFailsIff(s: Scope)
    requires s.clickWired && s.template.Some? && s.cast.Some?
    ensures AddClick(s).failure.Some? <==> AddBlocked(s)
  {
  }

  /** The group a successful add appends. */
  lemma AddClickAppendsGroup(s: Scope)
    requires s.clickWired && AddClick(s).failure.None?
    ensures s.template.Some? && IndexedFragment(s.template.value, s.counter).Ok?
    ensures var fragment := IndexedFragment(s.template.value, s.counter).value;
      && fragment != []
      && AddClick(s).after.groups == s.groups + [Group(fragment, Crate, MockControl(fragment[0]), Some(s.counter))]
  {
    var c := s.counter;
    assert IndexedFragment(s.template.value, c).Ok?;
    var fragment := IndexedFragment(s.template.value, c).value;
    assert AddClick(s).after.groups == s.groups + [Group(fragment, Crate, MockControl(fragment[0]), Some(c))];
  }

  /** What the appended group displays: its first element shows the padded
      number of its template element, on its own node too, and every marked
      element of the group reads as the next number. */
  lemma AddClickAppendsNumbered(s: Scope)
    requires s.clickWired && AddClick(s).failure.None?
    ensures |AddClick(s).after.groups| == |s.groups| + 1
    ensures s.template.Some? && s.template.value != []
    ensures var g := AddClick(s).after.groups[|s.groups|];
      && g.region == Crate && g.stamp == Some(s.counter)
      && g.members == IndexedFragment(s.template.value, s.counter).value
      && |g.members| >= 1 && ItemShowsNumber(g.members[0], s.counter + 1, true)
      && ItemShowsSequence(s.template.value[0], g.members[0], s.counter, true)
      && ShowsStamp(g)
  {
    AddClickAppendsGroup(s);
    AppendedGroupShows(s.groups, s.template.value, s.counter, AddClick(s).after.groups);
  }

  /** The groups after appending the indexed fragment show its stamp. */
  lemma AppendedGroupShows(before: seq<Group>, template: seq<Item>, c: nat, after: seq<Group>)
    requires template != [] && IndexedFragment(template, c).Ok?
    requires var fragment := IndexedFragment(template, c).value;
      fragment != [] && after == before + [Group(fragment, Crate, MockControl(fragment[0]), Some(c))]
    ensures |after| == |before| + 1
    ensures var g := after[|before|];
      && g.region == Crate && g.stamp == Some(c)
      && g.members == IndexedFragment(template, c).value
      && |g.members| >= 1 && ItemShowsNumber(g.members[0], c + 1, true)
      && ItemShowsSequence(template[0], g.members[0], c, true)
      && ShowsStamp(g)
  {
    var fragment := IndexedFragment(template, c).value;
    FragmentGroupShows(template, c);
    assert after[|before|] == Group(fragment, Crate, MockControl(fragment[0]), Some(c));
  }

  /** The crate group built from an indexed fragment shows its stamp. */
  lemma FragmentGroupShows(template: seq<Item>, c: nat)
    requires template != [] && IndexedFragment(template, c).Ok?
    ensures var fragment := IndexedFragment(template, c).value;
      && |fragment| == |template|
      && ItemShowsNumber(fragment[0], c + 1, true)
      && ItemShowsSequence(template[0], fragment[0], c, true)
      && ShowsStamp(Group(fragment, Crate, MockControl(fragment[0]), Some(c)))
  {
  }

  /** On success the log records `s-preadd`, the append and `s-postadd`, in
      that order. */
  lemma AddClickHookOrder(s: Scope)
    requires s.clickWired && AddClick(s).failure.None?
    ensures var t := AddClick(s);
      t.after.log == s.log + Hooked(PreAdd, TruthyAttr(s.cast.value, PreAddDirective))
                   + [Appended(t.after.groups[|s.groups|].members)]
                   + Hooked(PostAdd, TruthyAttr(s.cast.value, PostAddDirective))
  {
  }

  /** A successful add keeps the numbering invariant. */
  lemma AddClickKeepsNumbered(s: Scope)
    requires Numbered(s.groups, s.counter)
    requires AddClick(s).failure.None?
    ensures Numbered(AddClick(s).after.groups, AddClick(s).after.counter)
  {
    if s.clickWired {
      AddClickAppendsGroup(s);
      AddClickAppendsNumbered(s);
      NumberedAppend(s.groups, s.counter, AddClick(s).after.groups[|s.groups|]);
    }
  }

  /** The mock appends before `s-postadd` as well: a refused `s-postadd`
      leaves the element in the crate with the counter unchanged. */
  lemma LateAddFailureBreaksNumbering(s: Scope)
    requires s.clickWired && s.template.Some? && s.cast.Some? && s.template.value != []
    requires IndexedFragment(s.template.value, s.counter).Ok?
    requires TruthyAttr(s.cast.value, PreAddDirective).None? || !Forbidden(TruthyAttr(s.cast.value, PreAddDirective).value, BundledDenylist)
    requires TruthyAttr(s.cast.value, PostAddDirective).Some? && Forbidden(TruthyAttr(s.cast.value, PostAddDirective).value, BundledDenylist)
    ensures var t := AddClick(s);
      && t.failure == Some(ForbiddenPattern) && t.after.counter == s.counter
      && |t.after.groups| == |s.groups| + 1
      && t.after.groups[|s.groups|].stamp == Some(s.counter)
      && t.after.groups[|s.groups|].control.None?
      && !Numbered(t.after.groups, t.after.counter)
  {
    var t := AddClick(s);
    assert t.after.groups[|s.groups|].stamp.value == t.after.counter;
  }

  /** An empty template appends nothing, runs both hooks and then fails: the
      counter stays. */
  lemma EmptyTemplateRunsHooks(s: Scope)
    requires s.clickWired && s.template == Some([]) && s.cast.Some?
    requires TruthyAttr(s.cast.value, PreAddDirective).None? || !Forbidden(TruthyAttr(s.cast.value, PreAddDirective).value, BundledDenylist)
    requires TruthyAttr(s.cast.value, PostAddDirective).None? || !Forbidden(TruthyAttr(s.cast.value, PostAddDirective).value, BundledDenylist)
    ensures var t := AddClick(s);
      && t.failure == Some(HostError)
      && t.after == s.(log := t.after.log)
      && t.after.log == s.log + Hooked(PreAdd, TruthyAttr(s.cast.value, PreAddDirective))
                      + [Appended([])] + Hooked(PostAdd, TruthyAttr(s.cast.value, PostAddDirective))
  {
  }

  /** `addItemWithSlot(data)`: stamp a fragment, fill its slots, insert it
      before the cast element and wire its delete control. Index tokens are
      left as they are and the counter does not move. */
  function AddItemWithSlot(s: Scope, data: seq<(string, string)>): (t: Transition)
    ensures t.after == s.(groups := t.after.groups, log := t.after.log)
    ensures s.template.None? ==> t == Transition(s, Some(TemplateNotFound))
    ensures s.template.Some? && s.cast.None? ==> t == Transition(s, Some(CastNotFound))
    ensures |s.groups| <= |t.after.groups| <= |s.groups| + 1 && t.after.groups[..|s.groups|] == s.groups
    ensures forall k :: |s.groups| <= k < |t.after.groups| ==> t.after.groups[k].region == BeforeCast
  {
    if s.template.None? then Transition(s, Some(TemplateNotFound))
    else if s.cast.None? then Transition(s, Some(CastNotFound))
    else
      match StampFragment(s.template.value, s.counter)
      case Err(f) => Transition(s, Some(f))
      case Ok(fragment) =>
        match PopulateSlots(fragment, data)
        case Err(f) => Transition(s, Some(f))
        case Ok(filled) =>
          var log1 := s.log + [InsertedBeforeCast(filled)];
          if filled == [] then Transition(s.(log := log1), Some(HostError))
          else Transition(s.(groups := s.groups + [Group(filled, BeforeCast, MockControl(filled[0]), Some(s.counter))], log := log1), None)
  }

  /** A slot add fails exactly on a missing template or cast, an empty
      sequence pattern, a key that cannot stand in the slot selector, or an
      empty template; none of these is the delete selector. */
  lemma SlotAddFailsIff(s: Scope, data: seq<(string, string)>)
    requires s.template.Some? && s.cast.Some?
    ensures AddItemWithSlot(s, data).failure.Some? <==>
      || (exists i :: 0 <= i < |s.template.value| && ItemHasEmptyPattern(s.template.value[i], true))
      || (exists i :: 0 <= i < |data| && !IsCssIdent(data[i].0))
      || s.template.value == []
  {
    if StampFragment(s.template.value, s.counter).Ok? && PopulateSlots(StampFragment(s.template.value, s.counter).value, data).Ok? {
      assert |PopulateSlots(StampFragment(s.template.value, s.counter).value, data).value| == |s.template.value|;
    }
  }

  /** Inserting before the cast never disturbs the crate's numbering. */
  lemma SlotAddKeepsNumbered(s: Scope, data: seq<(string, string)>)
    requires Numbered(s.groups, s.counter)
    ensures Numbered(AddItemWithSlot(s, data).after.groups, AddItemWithSlot(s, data).after.counter)
  {
    var t := AddItemWithSlot(s, data);
    if |t.after.groups| > |s.groups| {
      assert t.after.groups == s.groups + [t.after.groups[|s.groups|]];
      NumberedOutsideCrate(s.groups, s.counter, t.after.groups[|s.groups|]);
    }
  }
}
