/** The bundled engine (stamper v1.2.3 as shipped): construction, `init`, the
    add click on the cast element, the delete click on a group's control, and
    `addItemWithSlot`.

    Every operation maps a scope to a `Transition`: the state it leaves behind
    and the failure it raised. A failure does not roll anything back, since
    the engine mutates the page as it goes; the state after a failure is the
    state at the throw. */
module Bundled {
  import opened Results
  import opened Text
  import opened Dom
  import opened Sequence
  import opened IndexTokens
  import opened Denylist
  import opened Slots
  import opened Controls
  import opened Seeding
  import opened ScopeState

  /** `new Stamper({ rootEl })`: the root must carry a non-empty `stamper`. */
  function Construct(page: Page): (r: Result<Scope>)
    ensures r.Ok? <==> page.identifier.Some? && page.identifier.value != ""
    ensures r.Err? ==> r.failure == MissingIdentifier
    ensures r.Ok? ==> r.value == Fresh(page.identifier)
  {
    match page.identifier
    case None => Err(MissingIdentifier)
    case Some(id) => if id == "" then Err(MissingIdentifier) else Ok(Fresh(Some(id)))
  }

  /** `validateTemplateElement`: a <template> with at most one element child. */
  function ValidateTemplate(e: PageElement): (r: Result<seq<Item>>)
    ensures r.Ok? <==> e.template.Some? && |e.template.value| <= 1
    ensures r.Ok? ==> r.value == e.template.value
    ensures e.template.None? ==> r == Err(InvalidTemplate)
    ensures e.template.Some? && |e.template.value| > 1 ==> r == Err(TooManyTemplateChildren)
  {
    match e.template
    case None => Err(InvalidTemplate)
    case Some(content) => if |content| > 1 then Err(TooManyTemplateChildren) else Ok(content)
  }

  /** `init()`: resolve the template, the cast and the crate, seed the crate,
      wire the add click, mark the root and run the post-init callback. Each
      resolved element is kept even when a later step throws. */
  function Init(s: Scope, page: Page, postInit: bool): (t: Transition)
    ensures t.after.id == s.id && t.after.counter >= s.counter
    ensures t.after.clickWired <==> s.clickWired || t.failure.None?
    ensures t.failure.None? ==> t.after.inited && t.after.template.Some? && t.after.cast.Some? && t.after.crateFound
    ensures t.failure.None? ==> t.after.log == s.log + (if postInit then [PostInitRan] else [])
    ensures t.failure.Some? ==> t.after.log == s.log && t.after.inited == s.inited
  {
    match QueryScope(page, TempDirective, s.id)
    case Err(f) => Transition(s, Some(f))
    case Ok(tempEl) =>
      match ValidateTemplate(tempEl)
      case Err(f) => Transition(s, Some(f))
      case Ok(content) =>
        var s1 := s.(template := Some(content));
        match QueryScope(page, CastDirective, s.id)
        case Err(f) => Transition(s1, Some(f))
        case Ok(castEl) =>
          var s2 := s1.(cast := Some(castEl.node));
          match QueryScope(page, CrateDirective, s.id)
          case Err(f) => Transition(s2, Some(f))
          case Ok(crateEl) =>
            var seeded := Seed(crateEl.children, BundledSeeding(s.id.value), s.counter);
            var s3 := s2.(crateFound := true, groups := s.groups + seeded.groups, counter := seeded.counter);
            if seeded.failure.Some? then Transition(s3, seeded.failure)
            else
              Transition(s3.(clickWired := true, inited := true, log := s.log + (if postInit then [PostInitRan] else [])), None)
  }

  /** A completed `init` found a crate and seeded all of its children from
      the scope's counter without a failure; the seeded groups follow the
      existing ones and the counter is where seeding left it. */
  lemma InitSeeds(s: Scope, page: Page, postInit: bool)
    requires Init(s, page, postInit).failure.None?
    ensures s.id.Some? && QueryScope(page, CrateDirective, s.id).Ok?
    ensures var seeded := Seed(QueryScope(page, CrateDirective, s.id).value.children, BundledSeeding(s.id.value), s.counter);
      && seeded.failure.None?
      && Init(s, page, postInit).after.groups == s.groups + seeded.groups
      && Init(s, page, postInit).after.counter == seeded.counter
  {
  }

  /** A scope fresh from construction that `init` completes on numbers every
      existing crate child in order: the k-th carries stamp k and shows
      k + 1, the counter ends at the number of children, and the numbering
      invariant holds. */
  lemma InitNumbersCrate(id: string, page: Page, postInit: bool)
    requires Init(Fresh(Some(id)), page, postInit).failure.None?
    ensures QueryScope(page, CrateDirective, Some(id)).Ok?
    ensures var t := Init(Fresh(Some(id)), page, postInit);
      var children := QueryScope(page, CrateDirective, Some(id)).value.children;
      && t.after.counter == |children|
      && |t.after.groups| == |children|
      && (forall k :: 0 <= k < |children| ==> SeededAs(t.after.groups[k], children[k], BundledSeeding(id), k))
      && Numbered(t.after.groups, t.after.counter)
  {
    InitSeeds(Fresh(Some(id)), page, postInit);
    var children := QueryScope(page, CrateDirective, Some(id)).value.children;
    var gs := Seed(children, BundledSeeding(id), 0).groups;
    assert Init(Fresh(Some(id)), page, postInit).after.groups == gs;
    SeededFromZero(gs, children, BundledSeeding(id));
  }

  /** A `s-temp` element that is not a <template>, or has more than one
      element child, stops `init` before anything is kept or wired. */
  lemma InitRejectsTemplate(s: Scope, page: Page, postInit: bool)
    requires QueryScope(page, TempDirective, s.id).Ok?
    requires var e := QueryScope(page, TempDirective, s.id).value; e.template.None? || |e.template.value| > 1
    ensures var t := Init(s, page, postInit);
      && t.after == s
      && t.failure == Some(if QueryScope(page, TempDirective, s.id).value.template.None? then InvalidTemplate else TooManyTemplateChildren)
  {
  }

  /** The add click as written: stamp a fragment, run `s-preadd`, rewrite the
      index tokens below the first element, append, run `s-postadd`, wire the
      delete control, and only then advance the counter. Without a wired
      click nothing happens. */
  function AddClick(s: Scope): (t: Transition)
    ensures !s.clickWired ==> t == Transition(s, None)
    ensures t.after.id == s.id && t.after.template == s.template && t.after.cast == s.cast
    ensures t.after.clickWired == s.clickWired && t.after.crateFound == s.crateFound && t.after.inited == s.inited
    ensures t.after.counter == s.counter + (if s.clickWired && t.failure.None? then 1 else 0)
    ensures |s.groups| <= |t.after.groups| <= |s.groups| + 1 && t.after.groups[..|s.groups|] == s.groups
  {
    if !s.clickWired then Transition(s, None)
    else if s.template.None? || s.cast.None? then Transition(s, Some(HostError))
    else
      var id := if s.id.Some? then s.id.value else "";
      var c := s.counter;
      var preadd := TruthyAttr(s.cast.value, PreAddDirective);
      var postadd := TruthyAttr(s.cast.value, PostAddDirective);
      match StampFragment(s.template.value, c)
      case Err(f) => Transition(s, Some(f))
      case Ok(fragment) =>
        match RunHook(s.log, PreAdd, preadd, HookParams, BundledDenylist)
        case Err(f) => Transition(s, Some(f))
        case Ok(log1) =>
          if fragment == [] then Transition(s.(log := log1), Some(HostError))
          else
            var child := RewriteItem(fragment[0], BundledTable(id), c, SourceNonEmpty, false);
            var members := [child] + fragment[1..];
            var g := Group(members, Crate, None, Some(c));
            var log2 := log1 + [Appended(members)];
            match RunHook(log2, PostAdd, postadd, HookParams, BundledDenylist)
            case Err(f) => Transition(s.(groups := s.groups + [g], log := log2), Some(f))
            case Ok(log3) =>
              match BundledControl(child, id)
              case Err(f) => Transition(s.(groups := s.groups + [g], log := log3), Some(f))
              case Ok(control) =>
                Transition(s.(groups := s.groups + [g.(control := control)], log := log3, counter := c + 1), None)
  }

  /** The ways a wired add click fails, and only those. */
  predicate AddBlocked(s: Scope)
    requires s.template.Some? && s.cast.Some? && s.id.Some?
  {
    || (exists i :: 0 <= i < |s.template.value| && ItemHasEmptyPattern(s.template.value[i], true))
    || (TruthyAttr(s.cast.value, PreAddDirective).Some? && Forbidden(TruthyAttr(s.cast.value, PreAddDirective).value, BundledDenylist))
    || s.template.value == []
    || (TruthyAttr(s.cast.value, PostAddDirective).Some? && Forbidden(TruthyAttr(s.cast.value, PostAddDirective).value, BundledDenylist))
    || !IsCssIdent(s.id.value)
  }

  /** A wired add click succeeds exactly when none of its checks fires. */
  lemma AddClickFailsIff(s: Scope)
    requires s.clickWired && s.template.Some? && s.cast.Some? && s.id.Some?
    ensures AddClick(s).failure.Some? <==> AddBlocked(s)
  {
  }

  /** A successful add appends one crate group stamped with the old counter:
      the stamped fragment with the index tokens below its first element
      rewritten, and that element's `[s-delete=id]` button as control. */
  lemma AddClickAppendsGroup(s: Scope)
    requires s.clickWired && AddClick(s).failure.None?
    ensures s.id.Some? && s.template.Some? && s.template.value != []
    ensures StampFragment(s.template.value, s.counter).Ok?
    ensures var fragment := StampFragment(s.template.value, s.counter).value;
      var child := RewriteItem(fragment[0], BundledTable(s.id.value), s.counter, SourceNonEmpty, false);
      && BundledControl(child, s.id.value).Ok?
      && AddClick(s).after.groups == s.groups + [Group([child] + fragment[1..], Crate, BundledControl(child, s.id.value).value, Some(s.counter))]
  {
    var c := s.counter;
    var id := s.id.value;
    var fragment := StampFragment(s.template.value, c).value;
    var child := RewriteItem(fragment[0], BundledTable(id), c, SourceNonEmpty, false);
    assert AddClick(s).after.groups == s.groups + [Group([child] + fragment[1..], Crate, BundledControl(child, id).value, Some(c))];
  }

  /** What the appended group displays: its first element shows the padded
      number of its template element, on its own node too, and every marked
      element of the group reads as the next number. */
  lemma AddClickAppendsNumbered(s: Scope)
    requires s.clickWired && AddClick(s).failure.None?
    ensures |AddClick(s).after.groups| == |s.groups| + 1
    ensures s.template.Some? && s.template.value != []
    ensures var g := AddClick(s).after.groups[|s.groups|];
      && g.region == Crate && g.stamp == Some(s.counter) && |g.members| >= 1
      && ItemShowsSequence(s.template.value[0], g.members[0], s.counter, true)
      && ItemShowsNumber(g.members[0], s.counter + 1, true)
      && ShowsStamp(g)
  {
    AddClickAppendsGroup(s);
    var c := s.counter;
    var id := s.id.value;
    var fragment := StampFragment(s.template.value, c).value;
    var child := RewriteItem(fragment[0], BundledTable(id), c, SourceNonEmpty, false);
    var members := [child] + fragment[1..];
    var g := AddClick(s).after.groups[|s.groups|];
    assert g.members == members && g.stamp == Some(c);
    ItemSequenceReads(s.template.value[0], fragment[0], c, true);
    RewriteKeepsNumber(fragment[0], BundledTable(id), c, SourceNonEmpty, false, c + 1, true);
    RewriteKeepsSequence(s.template.value[0], fragment[0], BundledTable(id), c, SourceNonEmpty, false, c, true);
    forall m | 0 <= m < |members| ensures ItemShowsNumber(members[m], c + 1, false) {
      if m > 0 {
        assert members[m] == fragment[m];
        ItemSequenceReads(s.template.value[m], fragment[m], c, true);
      }
    }
  }

  /** Lowering the counter through `current` to a number the crate already
      shows makes the next successful add stamp that number a second time. */
  lemma LoweredCounterRepeatsStamp(s: Scope, i: nat)
    requires i < |s.groups| && s.groups[i].region == Crate && s.groups[i].stamp.Some?
    requires s.clickWired && AddClick(SetCurrent(s, s.groups[i].stamp.value)).failure.None?
    ensures var t := AddClick(SetCurrent(s, s.groups[i].stamp.value));
      && |t.after.groups| == |s.groups| + 1
      && t.after.groups[i] == s.groups[i]
      && t.after.groups[|s.groups|].region == Crate
      && t.after.groups[|s.groups|].stamp == s.groups[i].stamp
      && !Numbered(t.after.groups, t.after.counter)
  {
    var s1 := SetCurrent(s, s.groups[i].stamp.value);
    AddClickAppendsGroup(s1);
    var t := AddClick(s1);
    assert t.after.groups[i] == t.after.groups[..|s.groups|][i];
    if Numbered(t.after.groups, t.after.counter) {
      NumberedDistinct(t.after.groups, t.after.counter, i, |s.groups|);
      assert false;
    }
  }

  /** The index tokens of a successful add: below the new element every
      listed attribute has its scope-qualified tokens resolved with the old
      counter, while the element's own attributes keep theirs, since
      `addIndex(child)` queries descendants only. */
  lemma AddClickResolves(s: Scope, k: nat)
    requires s.clickWired && AddClick(s).failure.None?
    requires s.id.Some? && DigitFree(s.id.value)
    ensures s.template.Some? && s.template.value != [] && StampFragment(s.template.value, s.counter).Ok?
    ensures var fragment := StampFragment(s.template.value, s.counter).value;
      var g := AddClick(s).after.groups[|s.groups|];
      && g.members[0].root.attrs == s.template.value[0].root.attrs
      && |g.members[0].descendants| == |fragment[0].descendants|
      && (k < |fragment[0].descendants| ==>
            Resolved(fragment[0].descendants[k], g.members[0].descendants[k], BundledTable(s.id.value), s.counter))
  {
    AddClickAppendsGroup(s);
    var fragment := StampFragment(s.template.value, s.counter).value;
    BundledNoReintroduction(s.id.value, s.counter);
    if k < |fragment[0].descendants| {
      RewriteNodeResolves(fragment[0].descendants[k], BundledTable(s.id.value), s.counter, SourceNonEmpty);
    }
  }

  /** A refused template stamp or `s-preadd` leaves the scope as it was. */
  lemma AddClickEarlyFailureKeepsState(s: Scope)
    requires s.clickWired && s.template.Some? && s.cast.Some?
    requires || StampFragment(s.template.value, s.counter).Err?
             || RunHook(s.log, PreAdd, TruthyAttr(s.cast.value, PreAddDirective), HookParams, BundledDenylist).Err?
    ensures AddClick(s).after == s && AddClick(s).failure.Some?
  {
  }

  /** On success the log records `s-preadd`, the append and `s-postadd`, in
      that order. */
  lemma AddClickHookOrder(s: Scope)
    requires s.clickWired && AddClick(s).failure.None?
    ensures var t := AddClick(s);
      t.after.log == s.log + Hooked(PreAdd, TruthyAttr(s.cast.value, PreAddDirective))
                   + [Appended(t.after.groups[|s.groups|].members)]
                   + Hooked(PostAdd, TruthyAttr(s.cast.value, PostAddDirective))
  {
  }

  /** A successful add keeps the numbering invariant. */
  lemma AddClickKeepsNumbered(s: Scope)
    requires Numbered(s.groups, s.counter)
    requires AddClick(s).failure.None?
    ensures Numbered(AddClick(s).after.groups, AddClick(s).after.counter)
  {
    if s.clickWired {
      var t := AddClick(s);
      AddClickAppendsNumbered(s);
      NumberedAppend(s.groups, s.counter, t.after.groups[|s.groups|]);
    }
  }

  /** A failure after the append (`s-postadd` refused, or an identifier the
      delete selector cannot hold) leaves the new element in the crate with
      the counter unchanged: the invariant breaks. */
  lemma LateAddFailureBreaksNumbering(s: Scope)
    requires s.clickWired && s.template.Some? && s.cast.Some? && s.id.Some?
    requires StampFragment(s.template.value, s.counter).Ok? && s.template.value != []
    requires RunHook(s.log, PreAdd, TruthyAttr(s.cast.value, PreAddDirective), HookParams, BundledDenylist).Ok?
    requires || (TruthyAttr(s.cast.value, PostAddDirective).Some? && Forbidden(TruthyAttr(s.cast.value, PostAddDirective).value, BundledDenylist))
             || !IsCssIdent(s.id.value)
    ensures var t := AddClick(s);
      && t.failure.Some? && t.after.counter == s.counter
      && |t.after.groups| == |s.groups| + 1
      && t.after.groups[|s.groups|].region == Crate && t.after.groups[|s.groups|].stamp == Some(s.counter)
      && t.after.groups[|s.groups|].control.None?
      && !Numbered(t.after.groups, t.after.counter)
  {
    var t := AddClick(s);
    var c := s.counter;
    var fragment := StampFragment(s.template.value, c).value;
    var child := RewriteItem(fragment[0], BundledTable(s.id.value), c, SourceNonEmpty, false);
    var g := Group([child] + fragment[1..], Crate, None, Some(c));
    assert t.after.groups == s.groups + [g] && t.after.counter == c && t.failure.Some?;
    assert t.after.groups[|s.groups|].stamp.value == t.after.counter;
  }

  /** So the next click stamps the same number again: it appends a second
      element identical to the first, showing the same padded number. */
  lemma LateAddFailureRepeatsNumber(s: Scope)
    requires s.clickWired && s.template.Some? && s.cast.Some? && s.id.Some?
    requires StampFragment(s.template.value, s.counter).Ok? && s.template.value != []
    requires TruthyAttr(s.cast.value, PreAddDirective).None? || !Forbidden(TruthyAttr(s.cast.value, PreAddDirective).value, BundledDenylist)
    requires || (TruthyAttr(s.cast.value, PostAddDirective).Some? && Forbidden(TruthyAttr(s.cast.value, PostAddDirective).value, BundledDenylist))
             || !IsCssIdent(s.id.value)
    ensures var t2 := AddClick(AddClick(s).after);
      && |t2.after.groups| == |s.groups| + 2 && t2.after.counter == s.counter
      && t2.after.groups[|s.groups|].region == Crate && t2.after.groups[|s.groups| + 1].region == Crate
      && t2.after.groups[|s.groups|].stamp == t2.after.groups[|s.groups| + 1].stamp == Some(s.counter)
      && t2.after.groups[|s.groups|].members == t2.after.groups[|s.groups| + 1].members
      && |t2.after.groups[|s.groups|].members| == |s.template.value|
      && ItemShowsSequence(s.template.value[0], t2.after.groups[|s.groups|].members[0], s.counter, true)
  {
    var t1 := AddClick(s);
    var c := s.counter;
    var fragment := StampFragment(s.template.value, c).value;
    var child := RewriteItem(fragment[0], BundledTable(s.id.value), c, SourceNonEmpty, false);
    var g := Group([child] + fragment[1..], Crate, None, Some(c));
    LateAddFailureBreaksNumbering(s);
    assert t1.after.groups == s.groups + [g];
    LateAddFailureBreaksNumbering(t1.after);
    var t2 := AddClick(t1.after);
    assert t2.after.groups == s.groups + [g] + [g];
    RewriteKeepsSequence(s.template.value[0], fragment[0], BundledTable(s.id.value), c, SourceNonEmpty, false, c, true);
  }

  /** The same repeat, read off the page: when the template element's own
      pattern stamps as `text`, both appended elements show `text`. */
  lemma LateAddFailureRepeatsText(s: Scope, text: string)
    requires s.clickWired && s.template.Some? && s.cast.Some? && s.id.Some?
    requires StampFragment(s.template.value, s.counter).Ok? && s.template.value != []
    requires TruthyAttr(s.cast.value, PreAddDirective).None? || !Forbidden(TruthyAttr(s.cast.value, PreAddDirective).value, BundledDenylist)
    requires || (TruthyAttr(s.cast.value, PostAddDirective).Some? && Forbidden(TruthyAttr(s.cast.value, PostAddDirective).value, BundledDenylist))
             || !IsCssIdent(s.id.value)
    requires Has(s.template.value[0].root, SequenceDirective)
    requires GenerateSequence(s.template.value[0].root.attrs[SequenceDirective], s.counter) == Ok(text)
    ensures var t2 := AddClick(AddClick(s).after);
      && |t2.after.groups| == |s.groups| + 2 && t2.after.counter == s.counter
      && t2.after.groups[|s.groups|].stamp == Some(s.counter) && t2.after.groups[|s.groups| + 1].stamp == Some(s.counter)
      && |t2.after.groups[|s.groups|].members| == |s.template.value| == |t2.after.groups[|s.groups| + 1].members|
      && t2.after.groups[|s.groups|].members[0].root.text == text
      && t2.after.groups[|s.groups| + 1].members[0].root.text == text
  {
    LateAddFailureRepeatsNumber(s);
  }

  /** `fetch(url)` is refused, stated for a code value equal to it. */
  lemma FetchCodeRefused(code: string)
    requires code == "fetch(url)"
    ensures Forbidden(code, BundledDenylist)
  {
    FetchForbidden();
  }

  /** A one-element template without an empty pattern stamps successfully. */
  lemma StampFragmentSucceeds(items: seq<Item>, counter: nat)
    requires |items| == 1 && !ItemHasEmptyPattern(items[0], true)
    ensures StampFragment(items, counter).Ok?
  {
  }

  /** The pattern `0` stamps "1" at counter 0. */
  lemma ZeroPatternShowsOne(pattern: string, counter: nat)
    requires pattern == "0" && counter == 0
    ensures GenerateSequence(pattern, counter) == Ok("1")
  {
    assert Count("0", '0') == 1;
    assert Decimal(1) == "1";
  }

  /** A cast whose only attribute is `s-postadd="fetch(url)"` has no
      `s-preadd` and a refused `s-postadd`. */
  lemma FetchCast(cast: Node)
    requires cast == Node(map[PostAddDirective := "fetch(url)"], "", true)
    ensures TruthyAttr(cast, PreAddDirective).None?
    ensures TruthyAttr(cast, PostAddDirective).Some? && Forbidden(TruthyAttr(cast, PostAddDirective).value, BundledDenylist)
  {
    assert PreAddDirective[3] != PostAddDirective[3];
    FetchCodeRefused(cast.attrs[PostAddDirective]);
  }

  /** A template of one element marked `s-sequence="0"` stamps "1" at
      counter 0. */
  lemma ZeroTemplate(items: seq<Item>, counter: nat)
    requires |items| == 1 && items[0].root.attrs == map[SequenceDirective := "0"] && items[0].descendants == []
    requires counter == 0
    ensures StampFragment(items, counter).Ok? && items != []
    ensures Has(items[0].root, SequenceDirective)
    ensures GenerateSequence(items[0].root.attrs[SequenceDirective], counter) == Ok("1")
  {
    assert items[0].root.attrs[SequenceDirective] == "0";
    StampFragmentSucceeds(items, counter);
    ZeroPatternShowsOne(items[0].root.attrs[SequenceDirective], counter);
  }

  /** A concrete case: a wired scope at counter 0, a cast whose `s-postadd`
      calls `fetch`, and a template of one element whose only attribute is
      `s-sequence="0"`. Two clicks append two elements that both show "1",
      and leave the counter at 0. */
  lemma FetchPostAddRepeatsNumber(s: Scope)
    requires s.clickWired && s.id.Some? && s.counter == 0
    requires s.template.Some? && |s.template.value| == 1 && s.template.value[0].descendants == []
    requires s.template.value[0].root.attrs == map[SequenceDirective := "0"]
    requires s.cast == Some(Node(map[PostAddDirective := "fetch(url)"], "", true))
    ensures var t2 := AddClick(AddClick(s).after);
      && |t2.after.groups| == |s.groups| + 2 && t2.after.counter == s.counter
      && t2.after.groups[|s.groups|].stamp == Some(s.counter) && t2.after.groups[|s.groups| + 1].stamp == Some(s.counter)
      && |t2.after.groups[|s.groups|].members| == |s.template.value| == |t2.after.groups[|s.groups| + 1].members|
      && t2.after.groups[|s.groups|].members[0].root.text == "1"
      && t2.after.groups[|s.groups| + 1].members[0].root.text == "1"
  {
    FetchCast(s.cast.value);
    ZeroTemplate(s.template.value, s.counter);
    LateAddFailureRepeatsText(s, "1");
  }

  /** The add click with every fallible step checked before the page changes:
      either all of it happens or none of it does. */
  function AddClickChecked(s: Scope): (t: Transition)
    ensures t.failure.Some? ==> t.after == s
    ensures t.after.counter == s.counter + (if s.clickWired && t.failure.None? then 1 else 0)
  {
    if !s.clickWired then Transition(s, None)
    else if s.template.None? || s.cast.None? then Transition(s, Some(HostError))
    else
      var id := if s.id.Some? then s.id.value else "";
      var c := s.counter;
      var preadd := TruthyAttr(s.cast.value, PreAddDirective);
      var postadd := TruthyAttr(s.cast.value, PostAddDirective);
      match StampFragment(s.template.value, c)
      case Err(f) => Transition(s, Some(f))
      case Ok(fragment) =>
        match RunHook(s.log, PreAdd, preadd, HookParams, BundledDenylist)
        case Err(f) => Transition(s, Some(f))
        case Ok(log1) =>
          if fragment == [] then Transition(s, Some(HostError))
          else
            var child := RewriteItem(fragment[0], BundledTable(id), c, SourceNonEmpty, false);
            var members := [child] + fragment[1..];
            var log2 := log1 + [Appended(members)];
            match RunHook(log2, PostAdd, postadd, HookParams, BundledDenylist)
            case Err(f) => Transition(s, Some(f))
            case Ok(log3) =>
              match BundledControl(child, id)
              case Err(f) => Transition(s, Some(f))
              case Ok(control) =>
                Transition(s.(groups := s.groups + [Group(members, Crate, control, Some(c))], log := log3, counter := c + 1), None)
  }

  /** The checked add fails on the same inputs as the original and, when it
      succeeds, does exactly what the original does. */
  lemma CheckedAgreesWithAddClick(s: Scope)
    ensures AddClickChecked(s).failure.Some? <==> AddClick(s).failure.Some?
    ensures AddClickChecked(s).failure.None? ==> AddClickChecked(s) == AddClick(s)
  {
  }

  /** The checked add keeps the numbering invariant whatever happens. */
  lemma CheckedKeepsNumbered(s: Scope)
    requires Numbered(s.groups, s.counter)
    ensures Numbered(AddClickChecked(s).after.groups, AddClickChecked(s).after.counter)
  {
    CheckedAgreesWithAddClick(s);
    if AddClickChecked(s).failure.None? {
      AddClickKeepsNumbered(s);
    }
  }

  /** `addItemWithSlot(data)`: stamp a fragment, fill its slots, insert it
      before the cast element and wire its delete control. No index tokens
      are rewritten and the counter does not move. */
  function AddItemWithSlot(s: Scope, data: seq<(string, string)>): (t: Transition)
    ensures t.after == s.(groups := t.after.groups, log := t.after.log)
    ensures s.template.None? ==> t == Transition(s, Some(TemplateNotFound))
    ensures s.template.Some? && s.cast.None? ==> t == Transition(s, Some(CastNotFound))
    ensures |s.groups| <= |t.after.groups| <= |s.groups| + 1 && t.after.groups[..|s.groups|] == s.groups
    ensures forall k :: |s.groups| <= k < |t.after.groups| ==> t.after.groups[k].region == BeforeCast
  {
    if s.template.None? then Transition(s, Some(TemplateNotFound))
    else if s.cast.None? then Transition(s, Some(CastNotFound))
    else
      var id := if s.id.Some? then s.id.value else "";
      match StampFragment(s.template.value, s.counter)
      case Err(f) => Transition(s, Some(f))
      case Ok(fragment) =>
        match PopulateSlots(fragment, data)
        case Err(f) => Transition(s, Some(f))
        case Ok(filled) =>
          var log1 := s.log + [InsertedBeforeCast(filled)];
          if filled == [] then Transition(s.(log := log1), Some(HostError))
          else
            var g := Group(filled, BeforeCast, None, Some(s.counter));
            match BundledControl(filled[0], id)
            case Err(f) => Transition(s.(groups := s.groups + [g], log := log1), Some(f))
            case Ok(control) => Transition(s.(groups := s.groups + [g.(control := control)], log := log1), None)
  }

  /** Inserting before the cast never disturbs the crate's numbering. */
  lemma SlotAddKeepsNumbered(s: Scope, data: seq<(string, string)>)
    requires Numbered(s.groups, s.counter)
    ensures Numbered(AddItemWithSlot(s, data).after.groups, AddItemWithSlot(s, data).after.counter)
  {
    var t := AddItemWithSlot(s, data);
    if |t.after.groups| > |s.groups| {
      assert t.after.groups == s.groups + [t.after.groups[|s.groups|]];
      NumberedOutsideCrate(s.groups, s.counter, t.after.groups[|s.groups|]);
    }
  }

  /** What a successful slot add inserts is the stamped fragment with every
      key's first slot filled, in the data's order. */
  lemma SlotAddInsertsFilled(s: Scope, data: seq<(string, string)>)
    requires AddItemWithSlot(s, data).failure.None?
    ensures s.template.Some? && StampFragment(s.template.value, s.counter).Ok?
    ensures var t := AddItemWithSlot(s, data);
      var stamped := StampFragment(s.template.value, s.counter).value;
      && |t.after.groups| == |s.groups| + 1
      && Flatten(t.after.groups[|s.groups|].members) == PopulateFlat(Flatten(stamped), data)
      && t.after.log == s.log + [InsertedBeforeCast(t.after.groups[|s.groups|].members)]
  {
    PopulateSlotsIsFlat(StampFragment(s.template.value, s.counter).value, data);
  }
}
