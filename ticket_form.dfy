/** The ticket form's custom fields: the widget chosen for each custom field,
    the options of a `select` field parsed from its option string, the removal
    of completed milestones from a milestone selector, the cached list of
    custom-field widgets, and the milestone field added to the main form. */
module TicketForm {
  import opened Wrappers
  import opened Text

  datatype Milestone = Milestone(name: string, complete: bool)

  /** A tracker's custom field: `type` may be missing. */
  datatype CustomField = CustomField(name: string, labelText: string, fieldType: Option<string>,
                                     options: string, milestones: seq<Milestone>)

  /** An `ew.Option` of a select field: label, HTML value and Python value are the
      same text. */
  datatype SelectOption = SelectOption(labelText: string, selected: bool)

  datatype MilestoneOption = MilestoneOption(labelText: string, pyValue: string, complete: bool)

  /** The widgets `make` can build; rendering is not modelled. */
  datatype Widget =
    | SingleSelect(labelText: string, name: string, options: seq<SelectOption>)
    | MilestoneSelect(labelText: string, name: string, milestones: seq<MilestoneOption>)
    | Checkbox(labelText: string, name: string)
    | NumberInput(labelText: string, name: string)
    | UserCombo(labelText: string, name: string)
    | TextInput(labelText: string, name: string)

  // ------------------------------------------------------------- _select

  /** One token of the option string: a leading `*` marks the option selected
      and is dropped. */
  function ParseOption(token: string): (o: SelectOption)
    ensures o.selected <==> StartsWith(token, "*")
    ensures o.selected ==> "*" + o.labelText == token
    ensures !o.selected ==> o.labelText == token
  {
    if StartsWith(token, "*") then
      assert token == token[..1] + token[1..];
      SelectOption(token[1..], true)
    else SelectOption(token, false)
  }

  function ParseOptions(tokens: seq<string>): (opts: seq<SelectOption>)
    ensures |opts| == |tokens|
    ensures forall i :: 0 <= i < |tokens| ==> opts[i] == ParseOption(tokens[i])
  {
    if tokens == [] then [] else [ParseOption(tokens[0])] + ParseOptions(tokens[1..])
  }

  /** `TicketCustomField._select`: one option per whitespace-separated token, in order. */
  function SelectWidget(field: CustomField): (w: Widget)
    ensures w.SingleSelect? && w.labelText == field.labelText && w.name == field.name
    ensures |w.options| == |Split(field.options)|
    ensures forall i :: 0 <= i < |w.options| ==> (w.options[i].selected <==> StartsWith(Split(field.options)[i], "*"))
    ensures forall i :: 0 <= i < |w.options| ==> w.options[i] == ParseOption(Split(field.options)[i])
    ensures forall i :: 0 <= i < |w.options| ==>
              if w.options[i].selected then "*" + w.options[i].labelText == Split(field.options)[i]
              else w.options[i].labelText == Split(field.options)[i]
  {
    SingleSelect(field.labelText, field.name, ParseOptions(Split(field.options)))
  }

  /** The token an option is written as. */
  function OptionToken(o: SelectOption): string {
    if o.selected then "*" + o.labelText else o.labelText
  }

  function OptionTokens(opts: seq<SelectOption>): (tokens: seq<string>)
    ensures |tokens| == |opts|
    ensures forall i :: 0 <= i < |opts| ==> tokens[i] == OptionToken(opts[i])
  {
    if opts == [] then [] else [OptionToken(opts[0])] + OptionTokens(opts[1..])
  }

  /** An option that can be written in an option string: no whitespace, and an
      unselected one neither empty nor starting with `*`. */
  predicate Writable(o: SelectOption) {
    NoSpace(o.labelText) && (!o.selected ==> o.labelText != [] && o.labelText[0] != '*')
  }

  lemma ParseOptionToken(o: SelectOption)
    requires Writable(o)
    ensures OptionToken(o) != [] && NoSpace(OptionToken(o))
    ensures ParseOption(OptionToken(o)) == o
  {
    var t := OptionToken(o);
    if o.selected {
      assert t[..1] == "*";
      assert t[1..] == o.labelText;
      assert forall i :: 1 <= i < |t| ==> t[i] == o.labelText[i - 1];
    }
  }

  /** Writing options as a space-separated string and parsing it gives them back. */
  lemma {:induction false} SelectRoundTrip(opts: seq<SelectOption>)
    requires forall i :: 0 <= i < |opts| ==> Writable(opts[i])
    ensures ParseOptions(Split(JoinSpace(OptionTokens(opts)))) == opts
  {
    var tokens := OptionTokens(opts);
    forall i | 0 <= i < |tokens|
      ensures tokens[i] != [] && NoSpace(tokens[i]) && ParseOption(tokens[i]) == opts[i]
    {
      ParseOptionToken(opts[i]);
    }
    SplitJoinSpace(tokens);
  }

  // ---------------------------------------------------------------- make

  /** `TicketCustomField._milestone`: one option per milestone, valued by its name. */
  function MilestoneOptions(ms: seq<Milestone>): (opts: seq<MilestoneOption>)
    ensures |opts| == |ms|
    ensures forall i :: 0 <= i < |ms| ==> opts[i] == MilestoneOption(ms[i].name, ms[i].name, ms[i].complete)
  {
    if ms == [] then [] else [MilestoneOption(ms[0].name, ms[0].name, ms[0].complete)] + MilestoneOptions(ms[1..])
  }

  /** `TicketCustomField.make`: the `SELECTOR` factory for the field's type, and
      `_default`, a text field, for a missing or unknown type. */
  function Make(field: CustomField): (w: Widget)
    ensures w.labelText == field.labelText && w.name == field.name
    ensures w.SingleSelect? <==> field.fieldType == Some("select")
    ensures w.MilestoneSelect? <==> field.fieldType == Some("milestone")
    ensures w.Checkbox? <==> field.fieldType == Some("boolean")
    ensures w.NumberInput? <==> field.fieldType == Some("number")
    ensures w.UserCombo? <==> field.fieldType == Some("user")
    ensures field.fieldType == Some("select") ==> w == SelectWidget(field)
    ensures field.fieldType == Some("milestone") ==> w.milestones == MilestoneOptions(field.milestones)
  {
    match field.fieldType
    case Some("select") => SelectWidget(field)
    case Some("milestone") => MilestoneSelect(field.labelText, field.name, MilestoneOptions(field.milestones))
    case Some("boolean") => Checkbox(field.labelText, field.name)
    case Some("number") => NumberInput(field.labelText, field.name)
    case Some("user") => UserCombo(field.labelText, field.name)
    case _ => TextInput(field.labelText, field.name)
  }

  /** Every type outside the five known ones falls back to a text field. */
  lemma MakeDefault(field: CustomField)
    requires field.fieldType.None? || field.fieldType.value !in ["select", "milestone", "boolean", "number", "user"]
    ensures Make(field) == TextInput(field.labelText, field.name)
  {
  }

  // ------------------------------------------------------ MilestoneField

  /** The milestones `display` keeps for the current value: the incomplete ones
      and the one currently chosen. */
  predicate Shown(m: MilestoneOption, value: string) {
    !m.complete || m.pyValue == value
  }

  function ShownOf(options: seq<MilestoneOption>, value: string): (r: seq<MilestoneOption>)
    ensures |r| <= |options|
    ensures forall m :: m in r ==> m in options && Shown(m, value)
  {
    if options == [] then []
    else (if Shown(options[0], value) then [options[0]] else []) + ShownOf(options[1..], value)
  }

  lemma {:induction false} ShownOfAppend(a: seq<MilestoneOption>, b: seq<MilestoneOption>, value: string)
    ensures ShownOf(a + b, value) == ShownOf(a, value) + ShownOf(b, value)
  {
    if a == [] {
      assert a + b == b;
    } else {
      assert (a + b)[1..] == a[1..] + b;
      ShownOfAppend(a[1..], b, value);
    }
  }

  /** Every shown option of the original list is kept. */
  lemma {:induction false} ShownOfKeeps(options: seq<MilestoneOption>, value: string, m: MilestoneOption)
    requires m in options && Shown(m, value)
    ensures m in ShownOf(options, value)
  {
    if options[0] != m {
      ShownOfKeeps(options[1..], value, m);
    }
  }

  /** Filtering twice with the same value is filtering once. */
  lemma {:induction false} ShownOfIdempotent(options: seq<MilestoneOption>, value: string)
    ensures ShownOf(ShownOf(options, value), value) == ShownOf(options, value)
  {
    if options != [] {
      var head := if Shown(options[0], value) then [options[0]] else [];
      ShownOfAppend(head, ShownOf(options[1..], value), value);
      ShownOfIdempotent(options[1..], value);
      if head != [] {
        assert ShownOf(head, value) == head + ShownOf([], value);
      }
    }
  }

  /** The first position of `x`: `list.index(x)`. */
  function IndexOf(s: seq<MilestoneOption>, x: MilestoneOption): (k: nat)
    requires x in s
    ensures k < |s| && s[k] == x && x !in s[..k]
  {
    if s[0] == x then 0
    else
      var k := IndexOf(s[1..], x) + 1;
      assert s[..k] == [s[0]] + s[1..][..k - 1];
      k
  }

  predicate Distinct(s: seq<MilestoneOption>) {
    forall i, j :: 0 <= i < j < |s| ==> s[i] != s[j]
  }

  /** `_milestone` builds distinct options exactly from distinct milestones, so
      milestones with distinct names always give distinct options. */
  lemma MilestoneOptionsDistinct(ms: seq<Milestone>)
    ensures Distinct(MilestoneOptions(ms)) <==> forall i, j :: 0 <= i < j < |ms| ==> ms[i] != ms[j]
  {
    var opts := MilestoneOptions(ms);
    assert forall i, j :: 0 <= i < j < |ms| ==> (opts[i] == opts[j] <==> ms[i] == ms[j]);
  }

  /** A selector whose options are distinct objects, as `_milestone` builds them. */
  class MilestoneField {
    var options: seq<MilestoneOption>

    constructor (options: seq<MilestoneOption>)
      requires Distinct(options)
      ensures this.options == options
    {
      this.options := options;
    }

    /** `MilestoneField.display` before rendering: walking the options from the
        last, every completed option other than the current value is deleted in
        place, by its index in the current list. */
    method Display(value: string)
      requires Distinct(options)
      modifies this
      ensures options == ShownOf(old(options), value)
      ensures Distinct(options)
    {
      var original := options;
      var k := |original|;
      assert original[k..] == [];
      assert original[..k] == original;
      while k > 0
        invariant 0 <= k <= |original|
        invariant options == original[..k] + ShownOf(original[k..], value)
      {
        k := k - 1;
        var m := original[k];
        DisplayStep(original, k, value, options);
        if !Shown(m, value) {
          var j := IndexOf(options, m);
          options := options[..j] + options[j + 1..];
        }
      }
      assert original[..0] == [] && original[0..] == original;
      ShownOfDistinct(original, value);
    }
  }

  /** One turn of the loop in `Display`, at position `k` from the end. */
  lemma DisplayStep(original: seq<MilestoneOption>, k: nat, value: string, options: seq<MilestoneOption>)
    requires Distinct(original) && k < |original|
    requires options == original[..k + 1] + ShownOf(original[k + 1..], value)
    ensures original[k] in options
    ensures Shown(original[k], value) ==> options == original[..k] + ShownOf(original[k..], value)
    ensures !Shown(original[k], value) ==>
              IndexOf(options, original[k]) == k &&
              options[..k] + options[k + 1..] == original[..k] + ShownOf(original[k..], value)
  {
    assert original[k..][1..] == original[k + 1..];
    assert original[..k + 1] == original[..k] + [original[k]];
    assert options[..k + 1] == original[..k + 1];
    assert options[k + 1..] == ShownOf(original[k + 1..], value);
    IndexInPrefix(original, k, options);
  }

  /** With `original[k]` absent from the prefix, its first position after the
      prefix is `k`. */
  lemma IndexInPrefix(original: seq<MilestoneOption>, k: nat, options: seq<MilestoneOption>)
    requires Distinct(original) && k < |original| && k < |options|
    requires options[..k + 1] == original[..k + 1]
    ensures original[k] in options && IndexOf(options, original[k]) == k
  {
    assert original[k] !in original[..k];
    assert options[k] == original[k];
    assert options[..k] == original[..k];
    var j := IndexOf(options, original[k]);
    assert forall i :: 0 <= i < j ==> options[..j][i] == options[i];
    assert forall i :: 0 <= i < k ==> options[..k][i] == options[i];
  }

  /** Removing options keeps distinct options distinct. */
  lemma {:induction false} ShownOfDistinct(options: seq<MilestoneOption>, value: string)
    requires Distinct(options)
    ensures Distinct(ShownOf(options, value))
  {
    if options != [] {
      var rest := ShownOf(options[1..], value);
      ShownOfDistinct(options[1..], value);
      assert options[0] !in options[1..];
      if Shown(options[0], value) {
        var r := [options[0]] + rest;
        assert forall j :: 0 < j < |r| ==> r[j] == rest[j - 1] && r[j] in options[1..];
      } else {
        assert [] + rest == rest;
      }
    }
  }

  // ---------------------------------------------------- TicketCustomFields

  const MilestoneName := "_milestone"

  /** The custom-field widgets, one per custom field other than `_milestone`, in order. */
  function CustomWidgets(fields: seq<CustomField>): (ws: seq<Widget>)
    ensures |ws| <= |fields|
    ensures forall w :: w in ws ==> w.name != MilestoneName
  {
    if fields == [] then []
    else if fields[0].name != MilestoneName then [Make(fields[0])] + CustomWidgets(fields[1..])
    else CustomWidgets(fields[1..])
  }

  /** Only `_milestone` fields are left out. */
  lemma {:induction false} CustomWidgetsComplete(fields: seq<CustomField>, f: CustomField)
    requires f in fields && f.name != MilestoneName
    ensures Make(f) in CustomWidgets(fields)
  {
    if fields[0] != f {
      CustomWidgetsComplete(fields[1..], f);
    }
  }

  /** `TicketCustomFields`: the widget list is built on first access to
      `fields` and kept. */
  class TicketCustomFields {
    var cache: Option<seq<Widget>>

    constructor ()
      ensures cache.None?
    {
      cache := None;
    }

    /** The `fields` property over the tracker's current custom fields. */
    method Fields(customFields: seq<CustomField>) returns (ws: seq<Widget>)
      modifies this
      ensures old(cache).Some? ==> ws == old(cache).value && cache == old(cache)
      ensures old(cache).None? ==> ws == CustomWidgets(customFields) && cache == Some(ws)
    {
      if cache.None? {
        var built: seq<Widget> := [];
        for i := 0 to |customFields|
          invariant CustomWidgets(customFields) == built + CustomWidgets(customFields[i..])
        {
          assert customFields[i..][1..] == customFields[i + 1..];
          if customFields[i].name != MilestoneName {
            assert built + ([Make(customFields[i])] + CustomWidgets(customFields[i + 1..])) ==
                   (built + [Make(customFields[i])]) + CustomWidgets(customFields[i + 1..]);
            built := built + [Make(customFields[i])];
          }
        }
        assert customFields[|customFields|..] == [];
        assert built + [] == built;
        cache := Some(built);
      }
      ws := cache.value;
    }
  }

  /** Two reads of `fields` give the same list, whatever the custom fields are
      at the second read. */
  method FieldsTwice(t: TicketCustomFields, first: seq<CustomField>, second: seq<CustomField>)
      returns (a: seq<Widget>, b: seq<Widget>)
    modifies t
    ensures a == b
    ensures old(t.cache).None? ==> a == CustomWidgets(first)
  {
    a := t.Fields(first);
    b := t.Fields(second);
  }

  // ---------------------------------------------------- GenericTicketForm

  /** The position of the first `_milestone` field. */
  function FirstMilestone(fields: seq<CustomField>): (k: Option<nat>)
    ensures k.Some? ==> k.value < |fields| && fields[k.value].name == MilestoneName &&
                        forall i :: 0 <= i < k.value ==> fields[i].name != MilestoneName
    ensures k.None? ==> forall i :: 0 <= i < |fields| ==> fields[i].name != MilestoneName
  {
    if fields == [] then None
    else if fields[0].name == MilestoneName then Some(0)
    else match FirstMilestone(fields[1..])
      case None => None
      case Some(k) => Some(k + 1)
  }

  /** The milestone selection of `GenericTicketForm.fields`: the standard
      widgets, then the widget of the first `_milestone` custom field if any. */
  method FormFields(standard: seq<Widget>, customFields: seq<CustomField>) returns (fields: seq<Widget>)
    ensures FirstMilestone(customFields).None? ==> fields == standard
    ensures FirstMilestone(customFields).Some? ==>
              fields == standard + [Make(customFields[FirstMilestone(customFields).value])]
  {
    fields := standard;
    var i := 0;
    while i < |customFields|
      invariant 0 <= i <= |customFields|
      invariant fields == standard
      invariant forall j :: 0 <= j < i ==> customFields[j].name != MilestoneName
    {
      if customFields[i].name == MilestoneName {
        FirstMilestoneAt(customFields, i);
        fields := fields + [Make(customFields[i])];
        return;
      }
      i := i + 1;
    }
    NoMilestone(customFields);
  }

  lemma {:induction false} FirstMilestoneAt(fields: seq<CustomField>, i: nat)
    requires i < |fields| && fields[i].name == MilestoneName
    requires forall j :: 0 <= j < i ==> fields[j].name != MilestoneName
    ensures FirstMilestone(fields) == Some(i)
  {
    if i > 0 {
      FirstMilestoneAt(fields[1..], i - 1);
    }
  }

  lemma {:induction false} NoMilestone(fields: seq<CustomField>)
    requires forall j :: 0 <= j < |fields| ==> fields[j].name != MilestoneName
    ensures FirstMilestone(fields).None?
  {
    if fields != [] {
      NoMilestone(fields[1..]);
    }
  }
}
