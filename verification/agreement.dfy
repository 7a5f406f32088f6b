/** How the mock's add click relates to the older source's. Both build the
    fragment the same way; with no hooks on the cast and a non-empty template
    they append the same elements with the same stamp and advance the counter
    alike. They differ on an empty template, which only the mock refuses, and
    in the delete control: the older source may pick the element itself or a
    non-button. */
module Agreement {
  import opened Results
  import opened Dom
  import opened Controls
  import opened ScopeState
  import Mock
  import Legacy

  /** Without hooks, the mock and the older source fail on the same scopes
      (given a non-empty template) and, on success, append the same elements
      with the same stamp and reach the same counter. */
  lemma MockAgreesWithLegacy(s: Scope)
    requires s.clickWired && s.template.Some? && |s.template.value| >= 1 && s.cast.Some?
    requires TruthyAttr(s.cast.value, PreAddDirective).None? && TruthyAttr(s.cast.value, PostAddDirective).None?
    ensures Mock.AddClick(s).failure.Some? <==> Legacy.AddClick(s).failure.Some?
    ensures Mock.AddClick(s).failure.None? ==>
      && Mock.AddClick(s).after.counter == Legacy.AddClick(s).after.counter
      && |Mock.AddClick(s).after.groups| == |Legacy.AddClick(s).after.groups| == |s.groups| + 1
      && Mock.AddClick(s).after.groups[|s.groups|].members == Legacy.AddClick(s).after.groups[|s.groups|].members
      && Mock.AddClick(s).after.groups[|s.groups|].stamp == Legacy.AddClick(s).after.groups[|s.groups|].stamp
  {
  }

  /** On an empty template the two part ways: the mock raises a host error
      after its hooks and keeps the counter, while the older source appends
      nothing yet advances the counter. */
  lemma EmptyTemplateDiffers(s: Scope)
    requires s.clickWired && s.template == Some([]) && s.cast.Some?
    requires TruthyAttr(s.cast.value, PreAddDirective).None? && TruthyAttr(s.cast.value, PostAddDirective).None?
    ensures Mock.AddClick(s).failure == Some(HostError) && Mock.AddClick(s).after.counter == s.counter
    ensures Legacy.AddClick(s).failure.None? && Legacy.AddClick(s).after.counter == s.counter + 1
    ensures Legacy.AddClick(s).after.groups == s.groups
  {
  }

  /** When the element itself carries no `s-delete` and its first marked
      descendant is a button, both engines wire the same control. */
  lemma ControlsAgree(s: Scope)
    requires s.clickWired && s.template.Some? && |s.template.value| == 1 && s.cast.Some?
    requires TruthyAttr(s.cast.value, PreAddDirective).None? && TruthyAttr(s.cast.value, PostAddDirective).None?
    requires Mock.AddClick(s).failure.None?
    requires var first := IndexedFragment(s.template.value, s.counter).value[0];
      && !Has(first.root, DeleteDirective)
      && (FirstWith(first.descendants, DeleteDirective).Some? ==> first.descendants[FirstWith(first.descendants, DeleteDirective).value].button)
    ensures Mock.AddClick(s).after.groups[|s.groups|].control == Legacy.AddClick(s).after.groups[|s.groups|].control
  {
    var fragment := IndexedFragment(s.template.value, s.counter).value;
    assert fragment[1..] == [];
    assert LegacyControl(fragment[1..]) == None;
    assert Legacy.AddClick(s).after.groups[|s.groups|].control == LegacyControl(fragment);
    assert Mock.AddClick(s).after.groups[|s.groups|].control == MockControl(fragment[0]);
  }
}
