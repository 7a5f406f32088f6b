/** The older TypeScript engine: `init`, the add click, the delete click and
    `addItemWithSlot`.

    It has no seeding of existing crate children, no child-count check on
    the template, no hooks, no `s-inited` marker and no post-init callback.
    A click add appends every top-level element of the fragment, hands them
    to the user callback (always set, a no-op by default) and wires one
    delete control for all of them; that control need not be a button, and
    the check for a button happens only when it is clicked. */
module Legacy {
  import opened Results
  import opened Dom
  import opened Sequence
  import opened IndexTokens
  import opened Slots
  import opened Controls
  import opened ScopeState

  /** `init()`: resolve the template, the cast and the crate from the root's
      `stamper` attribute and wire the add click. What was resolved before a
      failure stays resolved. */
  function Init(s: Scope, page: Page): (t: Transition)
    ensures t.after == s.(template := t.after.template, cast := t.after.cast, crateFound := t.after.crateFound, clickWired := t.after.clickWired)
    ensures t.after.clickWired <==> s.clickWired || t.failure.None?
    ensures t.failure.None? ==> t.after.template.Some? && t.after.cast.Some? && t.after.crateFound
  {
    match QueryScope(page, TempDirective, page.identifier)
    case Err(f) => Transition(s, Some(f))
    case Ok(tempEl) =>
      match tempEl.template
      case None => Transition(s, Some(InvalidTemplate))
      case Some(content) =>
        var s1 := s.(template := Some(content));
        match QueryScope(page, CastDirective, page.identifier)
        case Err(f) => Transition(s1, Some(f))
        case Ok(castEl) =>
          var s2 := s1.(cast := Some(castEl.node));
          match QueryScope(page, CrateDirective, page.identifier)
          case Err(f) => Transition(s2, Some(f))
          case Ok(crateEl) => Transition(s2.(crateFound := true, clickWired := true), None)
  }

  /** `init` succeeds exactly when the identifier is present and names a
      <template>, a cast and a crate; the template may have any number of
      element children. */
  lemma InitSucceedsIff(s: Scope, page: Page)
    ensures Init(s, page).failure.None? <==>
      && QueryScope(page, TempDirective, page.identifier).Ok?
      && QueryScope(page, TempDirective, page.identifier).value.template.Some?
      && QueryScope(page, CastDirective, page.identifier).Ok?
      && QueryScope(page, CrateDirective, page.identifier).Ok?
    ensures Init(s, page).failure.None? ==>
      Init(s, page).after.template == QueryScope(page, TempDirective, page.identifier).value.template
  {
  }

  /** The add click: stamp and index the fragment, append all of it, hand
      its elements to the callback, wire one control for all of them and
      advance the counter. Only an empty sequence pattern stops it, and then
      before anything changes. */
  function AddClick(s: Scope): (t: Transition)
    ensures !s.clickWired ==> t == Transition(s, None)
    ensures t.failure.Some? ==> t.after == s
    ensures s.template.Some? && t.failure.Some? ==> t.failure == Some(MissingAttribute)
    ensures t.after.id == s.id && t.after.template == s.template && t.after.cast == s.cast
    ensures t.after.counter == s.counter + (if s.clickWired && t.failure.None? then 1 else 0)
    ensures |s.groups| <= |t.after.groups| <= |s.groups| + 1 && t.after.groups[..|s.groups|] == s.groups
  {
    if !s.clickWired then Transition(s, None)
    else if s.template.None? then Transition(s, Some(HostError))
    else
      var c := s.counter;
      match IndexedFragment(s.template.value, c)
      case Err(f) => Transition(s, Some(f))
      case Ok(children) =>
        var groups := if children == [] then s.groups else s.groups + [Group(children, Crate, LegacyControl(children), Some(c))];
        Transition(s.(groups := groups, log := s.log + [Appended(children), CallbackRan(children)], counter := c + 1), None)
  }

  /** A wired click fails exactly when some template element carries an
      empty sequence pattern. */
  lemma AddClickFailsIff(s: Scope)
    requires s.clickWired && s.template.Some?
    ensures AddClick(s).failure.Some? <==> exists i :: 0 <= i < |s.template.value| && ItemHasEmptyPattern(s.template.value[i], true)
  {
  }

  /** A successful add appends the whole fragment as one group stamped with
      the old counter, whose control is the first `[s-delete]` element of the
      fragment in document order, and logs the append and the callback. The
      first element shows the padded number of its template element. */
  lemma AddClickAppendsFragment(s: Scope)
    requires s.clickWired && s.template.Some? && s.template.value != [] && AddClick(s).failure.None?
    ensures var t := AddClick(s); var fragment := IndexedFragment(s.template.value, s.counter).value;
      && t.after.groups == s.groups + [Group(fragment, Crate, FirstMarked(Flatten(fragment), DeleteDirective), Some(s.counter))]
      && ItemShowsNumber(fragment[0], s.counter + 1, true)
      && ItemShowsSequence(s.template.value[0], fragment[0], s.counter, true)
      && t.after.log == s.log + [Appended(fragment), CallbackRan(fragment)]
  {
    LegacyControlInDocumentOrder(IndexedFragment(s.template.value, s.counter).value);
  }

  /** Every add click keeps the numbering invariant, whatever it does. */
  lemma AddClickKeepsNumbered(s: Scope)
    requires Numbered(s.groups, s.counter)
    ensures Numbered(AddClick(s).after.groups, AddClick(s).after.counter)
  {
    var t := AddClick(s);
    if t.failure.None? && s.clickWired && s.template.Some? {
      if |t.after.groups| > |s.groups| {
        var fragment := IndexedFragment(s.template.value, s.counter).value;
        assert t.after.groups == s.groups + [Group(fragment, Crate, LegacyControl(fragment), Some(s.counter))];
        NumberedAppend(s.groups, s.counter, t.after.groups[|s.groups|]);
      } else {
        NumberedRaise(s.groups, s.counter, t.after.counter);
      }
    }
  }

  /** The delete click on group `g`'s control: refuse a control that is not
      a button; otherwise prompt with its label and, on confirmation, remove
      every element of the group. */
  function DeleteClick(s: Scope, g: nat, confirm: bool): (t: Transition)
    ensures t.after == s.(groups := t.after.groups, log := t.after.log)
    ensures t.after.groups == s.groups || (g < |s.groups| && t.after.groups == RemoveAt(s.groups, g))
    ensures (g >= |s.groups| || s.groups[g].control.None?) ==> t == Transition(s, None)
  {
    if g >= |s.groups| || s.groups[g].control.None? then Transition(s, None)
    else
      var control := s.groups[g].control.value;
      if !control.button then Transition(s, Some(InvalidElement))
      else
        var log0 := s.log + [Prompted(ConfirmLabel(control))];
        if !confirm then Transition(s.(log := log0), None)
        else Transition(s.(groups := RemoveAt(s.groups, g), log := log0 + [Removed(s.groups[g].members)]), None)
  }

  /** A delete click fails exactly when its control is not a button, and
      then nothing changes; a confirmed click on a button removes the whole
      group. */
  lemma DeleteClickFailsIff(s: Scope, g: nat, confirm: bool)
    requires g < |s.groups| && s.groups[g].control.Some?
    ensures var t := DeleteClick(s, g, confirm);
      && (t.failure.Some? <==> !s.groups[g].control.value.button)
      && (t.failure.Some? ==> t == Transition(s, Some(InvalidElement)))
      && (s.groups[g].control.value.button && confirm ==>
            t.after.groups == RemoveAt(s.groups, g)
            && t.after.log == s.log + [Prompted(ConfirmLabel(s.groups[g].control.value)), Removed(s.groups[g].members)])
      && (!confirm ==> t.after.groups == s.groups)
  {
  }

  /** Deleting never renumbers: the invariant survives every delete click. */
  lemma DeleteKeepsNumbered(s: Scope, g: nat, confirm: bool)
    requires Numbered(s.groups, s.counter)
    ensures Numbered(DeleteClick(s, g, confirm).after.groups, DeleteClick(s, g, confirm).after.counter)
  {
    var t := DeleteClick(s, g, confirm);
    if t.after.groups != s.groups {
      NumberedRemove(s.groups, s.counter, g);
    }
  }

  /** `addItemWithSlot(data)`: stamp a fragment, fill its slots and insert
      it before the cast element, with no delete control. */
  function AddItemWithSlot(s: Scope, data: seq<(string, string)>): (t: Transition)
    ensures t.after == s.(groups := t.after.groups, log := t.after.log)
    ensures s.template.None? ==> t == Transition(s, Some(TemplateNotFound))
    ensures s.template.Some? && s.cast.None? ==> t == Transition(s, Some(CastNotFound))
    ensures t.failure.Some? ==> t.after == s
    ensures |s.groups| <= |t.after.groups| <= |s.groups| + 1 && t.after.groups[..|s.groups|] == s.groups
    ensures forall k :: |s.groups| <= k < |t.after.groups| ==> t.after.groups[k].region == BeforeCast && t.after.groups[k].control.None?
  {
    if s.template.None? then Transition(s, Some(TemplateNotFound))
    else if s.cast.None? then Transition(s, Some(CastNotFound))
    else
      match StampFragment(s.template.value, s.counter)
      case Err(f) => Transition(s, Some(f))
      case Ok(fragment) =>
        match PopulateSlots(fragment, data)
        case Err(f) => Transition(s, Some(f))
        case Ok(filled) =>
          var groups := if filled == [] then s.groups else s.groups + [Group(filled, BeforeCast, None, Some(s.counter))];
          Transition(s.(groups := groups, log := s.log + [InsertedBeforeCast(filled)]), None)
  }

  /** What a successful slot add inserts is the stamped fragment with every
      key's first slot filled, in the data's order. */
  lemma SlotAddInsertsFilled(s: Scope, data: seq<(string, string)>)
    requires AddItemWithSlot(s, data).failure.None? && s.template.Some? && s.template.value != []
    ensures StampFragment(s.template.value, s.counter).Ok?
    ensures var t := AddItemWithSlot(s, data);
      var stamped := StampFragment(s.template.value, s.counter).value;
      && |t.after.groups| == |s.groups| + 1
      && Flatten(t.after.groups[|s.groups|].members) == PopulateFlat(Flatten(stamped), data)
  {
    PopulateSlotsIsFlat(StampFragment(s.template.value, s.counter).value, data);
  }
}
