# Reusable autocomplete control, modelled in Dafny

This project models `ReusableAutocompleteComponent`, the reusable Angular
Material autocomplete of the repository. The control takes a list of option
records and two attribute names: `displayField` is shown to the user and
`valueField` is the canonical value. It filters the list as the user types.
On a pick it emits the matching record through `selectionChange` and reports
it to the host form. It also acts as a form control: `writeValue`,
`setDisabledState`, and a `validate` method that reports a `required` error
for a control handed to it.

Layout:

- `wrappers.dfy` (`Wrappers`): `Option`.
- `values.dfy` (`Values`): option records (`map<string, string>`) and the
  `any`-typed values (`Null | Undefined | Str | Rec`), with `option[key]`
  giving `Undefined` for a missing attribute, as JavaScript does.
- `text.dfy` (`Text`): ASCII `toLowerCase` and `includes`, the latter proved
  equal to "occurs at some position".
- `filtering.dfy` (`Filtering`): `_filter` and its properties.
- `autocomplete.dfy` (`Autocomplete`): the component state record and one
  step function per operation. The record holds the inputs, the inner
  `myControl` value, the disabled flag and the last filtered list shown. It
  also keeps an append-only log of `selectionChange` events and one of calls
  into the host's `onChange` / `onTouched`.
- `sessions.dfy` (`Sessions`): arbitrary sequences of operations and the
  invariants they keep.
- `scenario.dfy` (`Scenario`): the demo form's country control with its
  five countries, worked through.

Modelling decisions:

- `myControl.setValue` is modelled together with its `valueChanges`
  subscribers (`SetValue`). Once `ngOnInit` has run, every `setValue`
  refilters the shown list by the new value. It also calls the host's
  `onChange(value)` and then `onTouched()`. Before `ngOnInit` it only stores
  the value.
- Three behaviours of the code are easy to miss; the model keeps each of
  them:
  - `writeValue` goes through `setValue` (line 109), so once `ngOnInit` has
    run it calls the host's `onChange(v)` through the subscription at lines
    76-79. Angular's `ControlValueAccessor` contract expects `writeValue` not
    to report back to the host; this control does.
  - On a pick the host's `onChange` receives the full option record (line
    98), not the record's `valueField` attribute that the inner control
    stores (line 96).
  - `onOptionSelected`, `clearValue` and `writeValue` never read the disabled
    state (lines 91-110). Only the disabled input element keeps the user
    from typing or picking, and that element is not modelled.
- `setDisabledState` calls `disable()` or `enable()` (lines 122, 124). Both
  re-emit the unchanged value on `valueChanges`, as Angular's `FormControl`
  does, so once subscribed the view is refiltered and the host hears
  `onChange(value)` then `onTouched()`, as for `setValue`.
- `startWith('')` makes the first shown list the whole option list, whatever
  value the control already holds (`Init`).
- `validate` reads the value of the control it is handed, not `myControl`'s.
  The component's `providers` (lines 44-50) register it only as
  `NG_VALUE_ACCESSOR`, not as `NG_VALIDATORS`, so Angular's forms never call
  `validate` on their own. `Validate` models what the method returns when a
  caller does hand it the host control. `HostValue` takes the host control's
  value to be the argument of the last `onChange` call the control made.

## Model

| member | source | states |
|---|---|---|
| Values.Get | src/reusable-autocomplete/reusable-autocomplete.component.ts:93 | reading an attribute gives its string when present and `undefined` when absent |
| Text.Includes | src/reusable-autocomplete/reusable-autocomplete.component.ts:87 | `includes` holds exactly when the needle occurs at some position of the text |
| Text.LowerChar | src/reusable-autocomplete/reusable-autocomplete.component.ts:86 | an ASCII capital becomes the letter 32 code points above it; every other character is kept |
| Text.Lower | src/reusable-autocomplete/reusable-autocomplete.component.ts:83 | `toLowerCase` keeps the length and lower-cases each character in place |
| Filtering.Query | src/reusable-autocomplete/reusable-autocomplete.component.ts:83 | a string query filters by its lower-case form; any other value filters by the empty string |
| Filtering.QueryEmpty | src/reusable-autocomplete/reusable-autocomplete.component.ts:83 | the filter text is empty exactly for a non-string value or `''` |
| Filtering.Matches | src/reusable-autocomplete/reusable-autocomplete.component.ts:84-88 | an option passes exactly when it has the display attribute and the query text occurs at some position of its lower-cased value |
| Filtering.Filter | src/reusable-autocomplete/reusable-autocomplete.component.ts:82-89 | the result is no longer than the options, and each kept option is one of the options and matches the query |
| Filtering.FilterIsSubsequence | src/reusable-autocomplete/reusable-autocomplete.component.ts:84-88 | the result is an order-preserving subsequence of the options |
| Filtering.FilterCount | src/reusable-autocomplete/reusable-autocomplete.component.ts:84-88 | each matching option is kept as many times as it occurs, and each other option is dropped |
| Filtering.FilterMembership | src/reusable-autocomplete/reusable-autocomplete.component.ts:84-88 | an option is shown exactly when it is in the list and its lower-cased display attribute includes the lower-cased query |
| Filtering.FilterAllMatching | src/reusable-autocomplete/reusable-autocomplete.component.ts:84-88 | a list whose every option matches is returned unchanged |
| Filtering.EmptyQueryKeepsAll | src/reusable-autocomplete/reusable-autocomplete.component.ts:83-88 | a null, undefined or record query, or `''`, returns the whole option list |
| Filtering.FilterIdempotent | src/reusable-autocomplete/reusable-autocomplete.component.ts:84-88 | filtering a filtered list again with the same query changes nothing |
| Autocomplete.Create | src/reusable-autocomplete/reusable-autocomplete.component.ts:55-68 | a fresh control holds `''`, is enabled and not subscribed, and has empty logs |
| Autocomplete.CreateWithDefaults | src/reusable-autocomplete/reusable-autocomplete.component.ts:55-58 | with only `options` bound, the display attribute is `label`, the value attribute `id` and `required` is false |
| Autocomplete.DefaultsNeverFail | src/reusable-autocomplete/reusable-autocomplete.component.ts:58 | a control left with the default `required = false` never reports an error |
| Autocomplete.Init | src/reusable-autocomplete/reusable-autocomplete.component.ts:70-80 | after `ngOnInit` the shown list is the whole option list and value changes now reach the host; nothing else changes |
| Autocomplete.InitCurrent | src/reusable-autocomplete/reusable-autocomplete.component.ts:70-74 | starting a control that holds `''` or a non-string value leaves the shown list equal to the options filtered by that value |
| Autocomplete.SetValue | src/reusable-autocomplete/reusable-autocomplete.component.ts:76-79 | `setValue` stores the value and leaves the events alone; once subscribed it refilters the view and logs `onChange(v)` then `onTouched()` |
| Autocomplete.Type | src/reusable-autocomplete/reusable-autocomplete.component.ts:71-74 | after a keystroke the control holds the text with inputs, flag and subscription unchanged; once subscribed the shown options are exactly those whose display attribute includes the text, and the host hears `onChange(text)` then `onTouched()` |
| Autocomplete.Find | src/reusable-autocomplete/reusable-autocomplete.component.ts:92-94 | `find` returns the first option whose value attribute is `===` the picked value, and nothing exactly when no option has it |
| Autocomplete.Pick | src/reusable-autocomplete/reusable-autocomplete.component.ts:91-100 | on a hit the control takes the picked value, the first matching record is emitted and is the last `onChange` argument; on a miss the state is unchanged |
| Autocomplete.Clear | src/reusable-autocomplete/reusable-autocomplete.component.ts:102-106 | from any state the control holds `''` with its inputs unchanged, `undefined` is emitted and the last `onChange` argument is `null`; once `ngOnInit` has run the whole list is shown |
| Autocomplete.WriteValue | src/reusable-autocomplete/reusable-autocomplete.component.ts:108-110 | the control holds the written value; before `ngOnInit` nothing else changes; after it the inputs, flag and events are unchanged and exactly `onChange(v)`, `onTouched()` are appended |
| Autocomplete.WriteValueEchoes | src/reusable-autocomplete/reusable-autocomplete.component.ts:108-110 | once subscribed, a value the host writes is reported back, so the host then holds it |
| Autocomplete.SetDisabledState | src/reusable-autocomplete/reusable-autocomplete.component.ts:120-126 | the disabled flag becomes the argument; value, options and events are unchanged; once subscribed the view is current and the host hears `onChange(value)` then `onTouched()` |
| Autocomplete.DisabledRoundTrip | src/reusable-autocomplete/reusable-autocomplete.component.ts:120-126 | setting the flag and restoring it gives back the flag, value, options and events; before `ngOnInit` the whole component, after it a current view and two `onChange(value)`/`onTouched()` pairs |
| Autocomplete.DisableReportsControlValue | src/reusable-autocomplete/reusable-autocomplete.component.ts:120-126 | once subscribed, toggling the flag leaves the host holding the control's own value |
| Autocomplete.Validate | src/reusable-autocomplete/reusable-autocomplete.component.ts:128-138 | `{required: true}` exactly when `required` is set and the value is null, undefined or `''`; otherwise no error |
| Autocomplete.NotRequiredNeverFails | src/reusable-autocomplete/reusable-autocomplete.component.ts:130-137 | without `required` no value is ever an error |
| Autocomplete.HostValue | src/reusable-autocomplete/reusable-autocomplete.component.ts:129 | the host control's value is the argument of the last `onChange` call, or its starting value when there was none |
| Autocomplete.PickSatisfiesRequired | src/reusable-autocomplete/reusable-autocomplete.component.ts:95-98 | after a successful pick the host holds the record, and `validate` handed the host control reports no error |
| Autocomplete.ClearViolatesRequired | src/reusable-autocomplete/reusable-autocomplete.component.ts:102-106 | after a clear the host holds `null`, and `validate` handed the host control reports the error exactly when `required` is set |
| Sessions.RunExtends | src/reusable-autocomplete/reusable-autocomplete.component.ts:91-110 | over any sequence of operations the inputs are unchanged, both logs are only appended to, and every emitted record is one of the options |
| Sessions.RunKeepsViewCurrent | src/reusable-autocomplete/reusable-autocomplete.component.ts:71-79 | from a subscribed state whose view is current, every sequence of actions keeps the shown list equal to the options filtered by the current value |
| Sessions.DisableEnableKeepsValue | src/reusable-autocomplete/reusable-autocomplete.component.ts:120-126 | a session that sets the flag and then restores it gives back the flag, value, options and events, and leaves a current view once subscribed |
| Scenario.TypingFrShowsFrance | src/reusable-autocomplete/reusable-autocomplete.component.ts:82-89 | with the demo's five countries and display attribute `name`, typing `fr` shows only France |
| Scenario.PickFrance | src/reusable-autocomplete/reusable-autocomplete.component.ts:91-100 | picking France after typing `fr` stores `France`, emits the France record and satisfies `required` |

## Left out

- The application shell `src/main.ts` (page template, sample lists, `onSubmit`). It is glue over Angular's `FormGroup`, `Validators.required` and `markAllAsTouched`; only its country data appears, in `Scenario`.
- RxJS plumbing (`Observable`, `pipe`, `startWith`, `subscribe`): the filtered stream is the last list it emitted, recomputed by the pure `Filter` on each value change.
- Angular machinery: the `NG_VALUE_ACCESSOR` provider and `EventEmitter`. `registerOnChange` / `registerOnTouched` are the host-call log; calls made before registration go to the no-op defaults but are logged all the same.
- The template and stylesheet. They are not part of this model; a keystroke is modelled as `Type`, which sets the control value to the typed text.
- The presentational inputs `isLoading` and `placeholder`, which carry no logic.
- Unicode case mapping: `toLowerCase` is modelled on ASCII letters only.
- Options without the display attribute, which make the source throw. Every option must carry it (`Component.Valid`).
- Attribute values that are not strings (numbers, nested objects): option records map names to strings.
- Changing `options`, `displayField` or `valueField` after creation: the inputs are fixed for a component's lifetime, so a stale shown list or a stale selection is not modelled.
- Registering `validate` with Angular's forms: the component is not provided as `NG_VALIDATORS`, so no framework call to `validate` is modelled; `Validate` is the method's result for a given value.
- The relative order of `selectionChange` emissions and host calls: the two logs are kept apart, so the model cannot state that during `selectionChange` the host already holds the record's `valueField` string and receives the record only afterwards (lines 96-98).
- HostValue: tracks only what the control reports through `onChange`, not values the host writes into its own form control.
