/** The delete listener the bundled engine and the mock wire on a group's
    control. On click it asks for confirmation, naming the control's
    `aria-label`; on confirmation it runs `s-predelete`, removes the group
    and runs `s-postdelete`. The hooks' parameter names differ between the
    two engines and are passed in. The counter is never touched, so numbers
    are not reused and gaps remain. */
module HookedDelete {
  import opened Results
  import opened Dom
  import opened Denylist
  import opened ScopeState

  /** The delete click on group `g`'s control: prompt with its label; on
      confirmation run `s-predelete`, remove the group, run `s-postdelete`.
      A group without a control has no listener. */
  function DeleteClick(s: Scope, g: nat, confirm: bool, params: seq<string>): (t: Transition)
    ensures t.after == s.(groups := t.after.groups, log := t.after.log)
    ensures t.after.groups == s.groups || (g < |s.groups| && t.after.groups == RemoveAt(s.groups, g))
    ensures (g >= |s.groups| || s.groups[g].control.None?) ==> t == Transition(s, None)
    ensures !confirm ==> t.after.groups == s.groups && t.failure.None?
  {
    if g >= |s.groups| || s.groups[g].control.None? then Transition(s, None)
    else
      var control := s.groups[g].control.value;
      var log0 := s.log + [Prompted(ConfirmLabel(control))];
      if !confirm then Transition(s.(log := log0), None)
      else
        match RunHook(log0, PreDelete, TruthyAttr(control, PreDeleteDirective), params, BundledDenylist)
        case Err(f) => Transition(s.(log := log0), Some(f))
        case Ok(log1) =>
          var log2 := log1 + [Removed(s.groups[g].members)];
          match RunHook(log2, PostDelete, TruthyAttr(control, PostDeleteDirective), params, BundledDenylist)
          case Err(f) => Transition(s.(groups := RemoveAt(s.groups, g), log := log2), Some(f))
          case Ok(log3) => Transition(s.(groups := RemoveAt(s.groups, g), log := log3), None)
  }

  /** A confirmed delete whose hooks are accepted prompts, runs
      `s-predelete`, removes the group and runs `s-postdelete`, in that
      order. */
  lemma DeleteClickOrder(s: Scope, g: nat, params: seq<string>)
    requires g < |s.groups| && s.groups[g].control.Some?
    requires var c := s.groups[g].control.value;
      && (TruthyAttr(c, PreDeleteDirective).None? || !Forbidden(TruthyAttr(c, PreDeleteDirective).value, BundledDenylist))
      && (TruthyAttr(c, PostDeleteDirective).None? || !Forbidden(TruthyAttr(c, PostDeleteDirective).value, BundledDenylist))
    ensures var t := DeleteClick(s, g, true, params); var c := s.groups[g].control.value;
      && t.failure.None?
      && t.after.groups == RemoveAt(s.groups, g)
      && t.after.log == s.log + [Prompted(ConfirmLabel(c))] + Hooked(PreDelete, TruthyAttr(c, PreDeleteDirective))
                       + [Removed(s.groups[g].members)] + Hooked(PostDelete, TruthyAttr(c, PostDeleteDirective))
  {
  }

  /** A cancelled prompt only records the prompt. */
  lemma DeleteCancelledOnlyPrompts(s: Scope, g: nat, params: seq<string>)
    requires g < |s.groups| && s.groups[g].control.Some?
    ensures DeleteClick(s, g, false, params) == Transition(s.(log := s.log + [Prompted(ConfirmLabel(s.groups[g].control.value))]), None)
  {
  }

  /** A refused `s-predelete` keeps the group. */
  lemma PreDeleteRefusalKeepsGroup(s: Scope, g: nat, params: seq<string>)
    requires g < |s.groups| && s.groups[g].control.Some?
    requires var c := s.groups[g].control.value;
      TruthyAttr(c, PreDeleteDirective).Some? && Forbidden(TruthyAttr(c, PreDeleteDirective).value, BundledDenylist)
    ensures DeleteClick(s, g, true, params).after.groups == s.groups
    ensures DeleteClick(s, g, true, params).failure == Some(ForbiddenPattern)
  {
  }

  /** Deleting never renumbers: the invariant survives every delete click. */
  lemma DeleteKeepsNumbered(s: Scope, g: nat, confirm: bool, params: seq<string>)
    requires Numbered(s.groups, s.counter)
    ensures Numbered(DeleteClick(s, g, confirm, params).after.groups, DeleteClick(s, g, confirm, params).after.counter)
  {
    var t := DeleteClick(s, g, confirm, params);
    if t.after.groups != s.groups {
      NumberedRemove(s.groups, s.counter, g);
    }
  }
}
