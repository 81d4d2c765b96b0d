/**
 Sequences of calls made on one component over its lifetime: lifecycle,
 keystrokes, picks, clears, host writes and disable toggles.
 */
module Sessions {
  import opened Values
  import opened Filtering
  import opened Autocomplete

  datatype Action =
    | Start
    | Key(text: string)
    | Choose(picked: Value)
    | ClearIt
    | Write(v: Value)
    | Disable(isDisabled: bool)

  /** One action; Angular runs `ngOnInit` once, so a repeated start does nothing. */
  function Apply(c: Component, a: Action): (r: Component)
    requires c.Valid()
    ensures r.Valid()
  {
    match a
    case Start => if c.subscribed then c else Init(c)
    case Key(text) => Type(c, text)
    case Choose(picked) => Pick(c, picked)
    case ClearIt => Clear(c)
    case Write(v) => WriteValue(c, v)
    case Disable(b) => SetDisabledState(c, b)
  }

  function Run(c: Component, actions: seq<Action>): (r: Component)
    requires c.Valid()
    ensures r.Valid()
    decreases |actions|
  {
    if actions == [] then c else Run(Apply(c, actions[0]), actions[1..])
  }

  /** Every recorded selection names an option of the list. */
  predicate SelectionsFromOptions(c: Component)
  {
    forall e :: e in c.events && e.Selected? ==> e.record in c.options
  }

  /** The inputs a single action never changes, and the logs only grow. */
  ghost predicate Extends(c: Component, r: Component)
  {
    && r.options == c.options && r.displayField == c.displayField
    && r.valueField == c.valueField && r.required == c.required
    && |c.events| <= |r.events| && r.events[..|c.events|] == c.events
    && |c.calls| <= |r.calls| && r.calls[..|c.calls|] == c.calls
  }

  lemma ExtendsTransitive(a: Component, b: Component, c: Component)
    requires Extends(a, b) && Extends(b, c)
    ensures Extends(a, c)
  {
    assert c.events[..|a.events|] == c.events[..|b.events|][..|a.events|];
    assert c.calls[..|a.calls|] == c.calls[..|b.calls|][..|a.calls|];
  }

  /** A pick keeps the inputs, extends both logs and emits only an option. */
  lemma PickExtends(c: Component, picked: Value)
    requires c.Valid()
    ensures Extends(c, Pick(c, picked))
    ensures SelectionsFromOptions(c) ==> SelectionsFromOptions(Pick(c, picked))
  {
    match Find(c.options, c.valueField, picked) {
      case None =>
      case Some(i) =>
        assert FirstMatch(c.options, c.valueField, picked, i);
        assert Pick(c, picked).events == c.events + [Selected(c.options[i])];
    }
  }

  /** One action keeps the inputs, extends both logs and keeps selections in the list. */
  lemma ApplyExtends(c: Component, a: Action)
    requires c.Valid()
    ensures Extends(c, Apply(c, a))
    ensures SelectionsFromOptions(c) ==> SelectionsFromOptions(Apply(c, a))
  {
    match a
    case Choose(picked) =>
      PickExtends(c, picked);
    case ClearIt =>
      assert Apply(c, a).events == c.events + [Deselected];
    case _ =>
  }

  /**
   Over any session the inputs stay put, the event and call logs are only
   appended to, and every emitted selection is one of the options.
   */
  lemma {:induction false} RunExtends(c: Component, actions: seq<Action>)
    requires c.Valid()
    ensures Extends(c, Run(c, actions))
    ensures SelectionsFromOptions(c) ==> SelectionsFromOptions(Run(c, actions))
    decreases |actions|
  {
    if actions != [] {
      var c1 := Apply(c, actions[0]);
      ApplyExtends(c, actions[0]);
      RunExtends(c1, actions[1..]);
      ExtendsTransitive(c, c1, Run(c1, actions[1..]));
    }
  }

  /**
   After `ngOnInit`, every action keeps the shown suggestions equal to the
   options filtered by the control's current value.
   */
  lemma ApplyKeepsViewCurrent(c: Component, a: Action)
    requires c.Valid() && c.subscribed && c.ViewCurrent()
    ensures Apply(c, a).subscribed && Apply(c, a).ViewCurrent()
  {
    match a
    case Choose(picked) =>
      if Find(c.options, c.valueField, picked).Some? {
        assert FirstMatch(c.options, c.valueField, picked, Find(c.options, c.valueField, picked).value);
      }
    case _ =>
  }

  lemma {:induction false} RunKeepsViewCurrent(c: Component, actions: seq<Action>)
    requires c.Valid() && c.subscribed && c.ViewCurrent()
    ensures Run(c, actions).subscribed && Run(c, actions).ViewCurrent()
    decreases |actions|
  {
    if actions != [] {
      ApplyKeepsViewCurrent(c, actions[0]);
      RunKeepsViewCurrent(Apply(c, actions[0]), actions[1..]);
    }
  }

  /**
   A session that sets the disabled flag and then restores it has the
   round-trip effect of `DisabledRoundTrip`.
   */
  lemma DisableEnableKeepsValue(c: Component, b: bool)
    requires c.Valid()
    ensures var r := Run(c, [Disable(b), Disable(c.disabled)]);
            && r.disabled == c.disabled && r.value == c.value
            && r.options == c.options && r.events == c.events
            && (!c.subscribed ==> r == c)
            && (c.subscribed ==> r.ViewCurrent())
  {
    var c1 := Apply(c, Disable(b));
    var c2 := Apply(c1, Disable(c.disabled));
    DisabledRoundTrip(c, b);
    assert [Disable(b), Disable(c.disabled)][1..] == [Disable(c.disabled)];
    assert Run(c1, [Disable(c.disabled)]) == c2;
  }
}
