/**
 The reusable autocomplete control `ReusableAutocompleteComponent` as a state
 record and step functions. The inner `FormControl`, the `selectionChange`
 emitter and the host callbacks `onChange` / `onTouched` become fields of the
 record; emitted events and host calls are kept as append-only logs.
 */
module Autocomplete {
  import opened Wrappers
  import opened Values
  import opened Filtering

  /** A `selectionChange` emission: the picked record, or `undefined` on clear. */
  datatype Event = Selected(record: OptionRecord) | Deselected

  /** A call into the host's registered callbacks. */
  datatype HostCall = OnChange(arg: Value) | OnTouched

  datatype Component = Component(
    options: seq<OptionRecord>,
    displayField: string,
    valueField: string,
    required: bool,
    /** The value of the inner `myControl`. */
    value: Value,
    disabled: bool,
    /** `ngOnInit` has run: `valueChanges` is piped into the view and forwarded to the host. */
    subscribed: bool,
    /** The last list `filteredOptions` emitted (nothing before `ngOnInit`). */
    view: seq<OptionRecord>,
    events: seq<Event>,
    calls: seq<HostCall>)
  {
    /** Every option carries the display attribute the filter reads. */
    predicate Valid()
    {
      HasField(options, displayField)
    }

    /** Once subscribed, the view is the filter of the options by the current value. */
    predicate ViewCurrent()
      requires Valid()
    {
      subscribed ==> view == Filter(options, displayField, value)
    }
  }

  /** The inputs of a fresh component; `myControl` starts as `''`. */
  function Create(options: seq<OptionRecord>, displayField: string, valueField: string, required: bool): (c: Component)
    ensures c.options == options && c.displayField == displayField
    ensures c.valueField == valueField && c.required == required
    ensures c.value == Str("") && !c.disabled && !c.subscribed
    ensures c.view == [] && c.events == [] && c.calls == []
  {
    Component(options, displayField, valueField, required, Str(""), false, false, [], [], [])
  }

  /** The attribute defaults of the component's inputs. */
  const DefaultDisplayField: string := "label"
  const DefaultValueField: string := "id"

  /** A component whose host binds only `options`: the other inputs keep their initialisers. */
  function CreateWithDefaults(options: seq<OptionRecord>): (c: Component)
    ensures c.options == options && c.displayField == "label" && c.valueField == "id"
    ensures !c.required && c.value == Str("") && !c.disabled && !c.subscribed
    ensures c.events == [] && c.calls == []
  {
    Create(options, DefaultDisplayField, DefaultValueField, false)
  }

  /** A fresh component has no error whatever the host holds, because `required` defaults to false. */
  lemma DefaultsNeverFail(options: seq<OptionRecord>, v: Value)
    ensures Validate(CreateWithDefaults(options).required, v) == None
  {
  }

  /**
   `ngOnInit`: the view starts from `startWith('')`, so it shows every option
   whatever the control holds; from now on value changes reach the host.
   */
  function Init(c: Component): (r: Component)
    requires c.Valid() && !c.subscribed
    ensures r.Valid() && r.subscribed
    ensures r.view == c.options
    ensures r == c.(subscribed := true, view := r.view)
  {
    EmptyQueryKeepsAll(c.options, c.displayField, Str(""));
    c.(subscribed := true, view := Filter(c.options, c.displayField, Str("")))
  }

  /**
   Starting a control that holds a blank string or a non-string value leaves
   the view current; a fresh component is one such.
   */
  lemma InitCurrent(c: Component)
    requires c.Valid() && !c.subscribed && (!c.value.Str? || c.value.s == "")
    ensures Init(c).ViewCurrent()
  {
    EmptyQueryKeepsAll(c.options, c.displayField, c.value);
  }

  /**
   `myControl.setValue(v)` with its `valueChanges` subscribers: the view is
   refiltered by `v` and the host hears `onChange(v)` then `onTouched()`.
   */
  function SetValue(c: Component, v: Value): (r: Component)
    requires c.Valid()
    ensures r.Valid() && r.value == v && r.ViewCurrent()
    ensures r.options == c.options && r.displayField == c.displayField
    ensures r.valueField == c.valueField && r.required == c.required
    ensures r.disabled == c.disabled && r.subscribed == c.subscribed
    ensures r.events == c.events
    ensures !c.subscribed ==> r.view == c.view && r.calls == c.calls
    ensures c.subscribed ==> r.calls == c.calls + [OnChange(v), OnTouched]
  {
    if c.subscribed then
      c.(value := v, view := Filter(c.options, c.displayField, v), calls := c.calls + [OnChange(v), OnTouched])
    else
      c.(value := v)
  }

  /** A keystroke in the input: the text becomes the control value. */
  function Type(c: Component, text: string): (r: Component)
    requires c.Valid()
    ensures r.Valid() && r.value == Str(text) && r.ViewCurrent()
    ensures r.options == c.options && r.displayField == c.displayField && r.valueField == c.valueField
    ensures r.required == c.required && r.disabled == c.disabled && r.subscribed == c.subscribed
    ensures r.subscribed ==> forall o :: o in r.view <==> o in c.options && Matches(o, c.displayField, Str(text))
    ensures r.events == c.events
    ensures !c.subscribed ==> r.calls == c.calls
    ensures c.subscribed ==> r.calls == c.calls + [OnChange(Str(text)), OnTouched]
  {
    var r := SetValue(c, Str(text));
    assert r.subscribed ==> forall o :: o in r.view <==> o in c.options && Matches(o, c.displayField, Str(text)) by {
      forall o ensures r.subscribed ==> (o in r.view <==> o in c.options && Matches(o, c.displayField, Str(text))) {
        FilterMembership(c.options, c.displayField, Str(text), o);
      }
    }
    r
  }

  /** Option `i` is the first whose attribute `field` is `=== v`. */
  ghost predicate FirstMatch(xs: seq<OptionRecord>, field: string, v: Value, i: int)
  {
    && 0 <= i < |xs|
    && Get(xs[i], field) == v
    && forall j :: 0 <= j < i ==> Get(xs[j], field) != v
  }

  /** `options.find(option => option[field] === v)`, as a position. */
  function Find(xs: seq<OptionRecord>, field: string, v: Value): (r: Option<nat>)
    ensures r.Some? ==> FirstMatch(xs, field, v, r.value)
    ensures r.None? <==> forall j :: 0 <= j < |xs| ==> Get(xs[j], field) != v
  {
    if xs == [] then None
    else if Get(xs[0], field) == v then Some(0)
    else
      match Find(xs[1..], field, v)
      case None =>
        assert forall j :: 1 <= j < |xs| ==> Get(xs[j], field) == Get(xs[1..][j - 1], field);
        None
      case Some(i) =>
        assert forall j :: 1 <= j < i + 1 ==> Get(xs[j], field) == Get(xs[1..][j - 1], field);
        Some(i + 1)
  }

  /** The first match is unique. */
  lemma FirstMatchUnique(xs: seq<OptionRecord>, field: string, v: Value, i: int, k: int)
    requires FirstMatch(xs, field, v, i) && FirstMatch(xs, field, v, k)
    ensures i == k
  {
  }

  /**
   `onOptionSelected`: on a hit the control takes the record's value
   attribute, `selectionChange` emits the record and the host's `onChange`
   receives the record last; on a miss nothing happens.
   */
  function Pick(c: Component, picked: Value): (r: Component)
    requires c.Valid()
    ensures r.Valid() && r.options == c.options && r.displayField == c.displayField
    ensures r.valueField == c.valueField && r.required == c.required
    ensures r.disabled == c.disabled && r.subscribed == c.subscribed
    ensures (forall j :: 0 <= j < |c.options| ==> Get(c.options[j], c.valueField) != picked) ==> r == c
    ensures forall i :: FirstMatch(c.options, c.valueField, picked, i) ==>
              && r.value == picked
              && r.events == c.events + [Selected(c.options[i])]
              && |r.calls| > 0 && r.calls[|r.calls| - 1] == OnChange(Rec(c.options[i]))
              && r.ViewCurrent()
  {
    match Find(c.options, c.valueField, picked)
    case None => c
    case Some(i) =>
      var record := c.options[i];
      var r := SetValue(c, Get(record, c.valueField));
      assert forall k :: FirstMatch(c.options, c.valueField, picked, k) ==> k == i by {
        forall k | FirstMatch(c.options, c.valueField, picked, k) ensures k == i {
          FirstMatchUnique(c.options, c.valueField, picked, i, k);
        }
      }
      r.(events := r.events + [Selected(record)], calls := r.calls + [OnChange(Rec(record))])
  }

  /**
   `clearValue`: the control goes back to `''`, `selectionChange` emits
   `undefined` and the host's `onChange` receives `null` last.
   */
  function Clear(c: Component): (r: Component)
    requires c.Valid()
    ensures r.Valid() && r.value == Str("") && r.ViewCurrent()
    ensures r.options == c.options && r.disabled == c.disabled && r.subscribed == c.subscribed
    ensures r.displayField == c.displayField && r.valueField == c.valueField && r.required == c.required
    ensures r.events == c.events + [Deselected]
    ensures |r.calls| > |c.calls| && r.calls[..|c.calls|] == c.calls
    ensures r.calls[|r.calls| - 1] == OnChange(Null)
    ensures r.subscribed ==> r.view == c.options
  {
    var r := SetValue(c, Str(""));
    EmptyQueryKeepsAll(c.options, c.displayField, Str(""));
    r.(events := r.events + [Deselected], calls := r.calls + [OnChange(Null)])
  }

  /**
   `writeValue`: the host's value goes into the control through `setValue`,
   so once subscribed it is forwarded back to the host's `onChange`.
   */
  function WriteValue(c: Component, v: Value): (r: Component)
    requires c.Valid()
    ensures r.Valid() && r.value == v && r.ViewCurrent()
    ensures r.options == c.options && r.disabled == c.disabled && r.required == c.required
    ensures r.displayField == c.displayField && r.valueField == c.valueField && r.subscribed == c.subscribed
    ensures r.events == c.events
    ensures |r.calls| >= |c.calls| && r.calls[..|c.calls|] == c.calls
    ensures forall k :: |c.calls| <= k < |r.calls| ==> r.calls[k] in {OnChange(v), OnTouched}
    ensures !c.subscribed ==> r == c.(value := v)
    ensures c.subscribed ==> r.calls == c.calls + [OnChange(v), OnTouched]
  {
    SetValue(c, v)
  }

  /** Once subscribed, a value the host writes is echoed back: the host then holds it. */
  lemma WriteValueEchoes(c: Component, v: Value, initial: Value)
    requires c.Valid() && c.subscribed
    ensures HostValue(WriteValue(c, v).calls, initial) == v
  {
  }

  /**
   `setDisabledState`: `disable()` / `enable()` flip the flag and, like
   `setValue`, re-emit the unchanged value on `valueChanges`, so once
   subscribed the view is refiltered and the host hears `onChange(value)`
   then `onTouched()`.
   */
  function SetDisabledState(c: Component, isDisabled: bool): (r: Component)
    requires c.Valid()
    ensures r.Valid() && r.disabled == isDisabled && r.ViewCurrent()
    ensures r.value == c.value && r.options == c.options && r.events == c.events
    ensures r.displayField == c.displayField && r.valueField == c.valueField
    ensures r.required == c.required && r.subscribed == c.subscribed
    ensures !c.subscribed ==> r == c.(disabled := isDisabled)
    ensures c.subscribed ==> r.calls == c.calls + [OnChange(c.value), OnTouched]
  {
    SetValue(c, c.value).(disabled := isDisabled)
  }

  /**
   Disabling and restoring the flag gives back the value, the options and the
   events; once subscribed the host has been told the control's value twice
   and the view is current.
   */
  lemma DisabledRoundTrip(c: Component, b: bool)
    requires c.Valid()
    ensures var r := SetDisabledState(SetDisabledState(c, b), c.disabled);
            && r.disabled == c.disabled && r.value == c.value
            && r.options == c.options && r.events == c.events
            && (!c.subscribed ==> r == c)
            && (c.subscribed ==> r.ViewCurrent())
            && (c.subscribed ==> r.calls == c.calls + [OnChange(c.value), OnTouched, OnChange(c.value), OnTouched])
  {
  }

  /** Once subscribed, toggling the flag leaves the host holding the control's own value. */
  lemma DisableReportsControlValue(c: Component, b: bool, initial: Value)
    requires c.Valid() && c.subscribed
    ensures HostValue(SetDisabledState(c, b).calls, initial) == c.value
  {
  }

  /** The error object `{required: true}`. */
  const RequiredError: map<string, bool> := map["required" := true]

  /** The value counts as empty for `required`: `null`, `undefined` or `''`. */
  predicate Blank(v: Value)
  {
    v == Null || v == Undefined || v == Str("")
  }

  /**
   What `validate(control)` returns when handed a control holding `v`: the
   required error when `required` is set and `v` is blank, otherwise no error.
   */
  function Validate(required: bool, v: Value): (r: Option<map<string, bool>>)
    ensures r.Some? ==> r.value == RequiredError
    ensures r.Some? <==> required && (v.Null? || v.Undefined? || v == Str(""))
  {
    if required && Blank(v) then Some(RequiredError) else None
  }

  /** Without `required` the control never reports an error. */
  lemma NotRequiredNeverFails(v: Value)
    ensures Validate(false, v) == None
  {
  }

  /** Call `k` is the last `onChange` among `calls`. */
  ghost predicate LastChangeAt(calls: seq<HostCall>, k: int)
  {
    && 0 <= k < |calls| && calls[k].OnChange?
    && forall j :: k < j < |calls| ==> !calls[j].OnChange?
  }

  /**
   The value the host control holds after the calls so far, starting from
   `initial`: the argument of the last `onChange`, or `initial` if there was
   none.
   */
  function HostValue(calls: seq<HostCall>, initial: Value): (v: Value)
    ensures (forall k :: 0 <= k < |calls| ==> !calls[k].OnChange?) ==> v == initial
    ensures forall k :: LastChangeAt(calls, k) ==> v == calls[k].arg
  {
    if calls == [] then initial
    else if calls[|calls| - 1].OnChange? then calls[|calls| - 1].arg
    else
      assert forall k :: 0 <= k < |calls| - 1 ==> calls[..|calls| - 1][k] == calls[k];
      HostValue(calls[..|calls| - 1], initial)
  }

  /** After a successful pick the host holds a record, so `validate` handed the host control reports no error. */
  lemma PickSatisfiesRequired(c: Component, picked: Value, i: int, initial: Value)
    requires c.Valid() && FirstMatch(c.options, c.valueField, picked, i)
    ensures HostValue(Pick(c, picked).calls, initial) == Rec(c.options[i])
    ensures Validate(c.required, HostValue(Pick(c, picked).calls, initial)) == None
  {
  }

  /** After a clear the host holds `null`, so `validate` handed the host control reports the error exactly when `required` is set. */
  lemma ClearViolatesRequired(c: Component, initial: Value)
    requires c.Valid()
    ensures HostValue(Clear(c).calls, initial) == Null
    ensures Validate(c.required, HostValue(Clear(c).calls, initial)).Some? <==> c.required
  {
  }
}
