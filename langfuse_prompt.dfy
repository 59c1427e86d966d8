/**
 * The dynamic form of the Langfuse prompt component: when the prompt key
 * changes, the component reads the prompt's message templates, extracts their
 * placeholders and replaces the `param_` fields of the host's build config with
 * one text field per placeholder.
 *
 * The remote prompt lookup is not modelled: its result enters as `templates`,
 * the template strings of the prompt's messages in order.
 */
module LangfusePrompt {
  import opened Wrappers
  import opened Placeholders

  /** The input field whose change regenerates the parameter fields. */
  const PromptKeyField: string := "langfuse_prompt_key"

  /** Prefix of every generated parameter field. */
  const ParamPrefix: string := "param_"

  /** A form-field descriptor, reduced to the three attributes the component sets. */
  datatype FieldDescriptor = FieldDescriptor(name: string, displayName: string, info: string)

  /** The build config: field name to descriptor. */
  type Fields = map<string, FieldDescriptor>

  /** How a call to `UpdateBuildConfig` ended. */
  datatype Outcome =
    | Ignored                 // another field changed, or the key is empty
    | UpToDate                // every placeholder already had its field
    | Regenerated             // the parameter fields were rebuilt
    | MissingPromptKeyField   // the config has no prompt-key entry (a KeyError)

  predicate IsParamKey(key: string)
  {
    |ParamPrefix| <= |key| && key[..|ParamPrefix|] == ParamPrefix
  }

  /** The field name of the parameter for placeholder `name`. */
  function ParamKey(name: string): (key: string)
    ensures IsParamKey(key) && key[|ParamPrefix|..] == name
  {
    ParamPrefix + name
  }

  /** Every parameter field name is the parameter key of its suffix. */
  lemma ParamKeyInverse(key: string)
    requires IsParamKey(key)
    ensures ParamKey(key[|ParamPrefix|..]) == key
  {
    assert key == key[..|ParamPrefix|] + key[|ParamPrefix|..];
  }

  /** `key` is the parameter field of one of `names`. */
  predicate IsParamFor(key: string, names: seq<string>)
  {
    IsParamKey(key) && key[|ParamPrefix|..] in names
  }

  /** The descriptor of the text field generated for placeholder `name`. */
  function ParamDescriptor(name: string): (d: FieldDescriptor)
    ensures IsParamKey(d.name) && d.name[|ParamPrefix|..] == name && d.displayName == name
    ensures d.info == "Fill in the value for {" + name + "}"
  {
    FieldDescriptor(ParamKey(name), name, "Fill in the value for {" + name + "}")
  }

  /** Python truthiness of the new field value: neither None nor empty. */
  function IsTruthy(value: Option<string>): (truthy: bool)
    ensures truthy <==> value != None && value != Some("")
  {
    match value
    case None => false
    case Some(s) => |s| > 0
  }

  /** The placeholders of all templates, template by template, in order. */
  function AllFields(templates: seq<string>): (names: seq<string>)
    ensures forall k :: 0 <= k < |names| ==> '}' !in names[k] && '\n' !in names[k]
    decreases |templates|
  {
    if templates == [] then []
    else AllFields(templates[..|templates| - 1]) + Extract(templates[|templates| - 1])
  }

  /** The text shown in the prompt key's info: each template preceded by a
      newline. Scanning it finds exactly the collected placeholders, because a
      match never crosses the newline between two templates. */
  function FullTemplate(templates: seq<string>): (full: string)
    ensures Extract(full) == AllFields(templates)
    decreases |templates|
  {
    if templates == [] then ""
    else
      var init, last := templates[..|templates| - 1], templates[|templates| - 1];
      ExtractAcrossNewline(FullTemplate(init), last);
      FullTemplate(init) + "\n" + last
  }

  /** Every placeholder already has its parameter field. */
  function AllPresent(fields: Fields, names: seq<string>): (present: bool)
    ensures present <==> forall n :: n in names ==> ParamKey(n) in fields
  {
    forall k :: 0 <= k < |names| ==> ParamKey(names[k]) in fields
  }

  /** `fields` without its parameter fields. */
  function WithoutParams(fields: Fields): (kept: Fields)
    ensures forall k :: k in kept <==> k in fields && !IsParamKey(k)
    ensures forall k :: k in kept ==> kept[k] == fields[k]
  {
    map k | k in fields && !IsParamKey(k) :: fields[k]
  }

  /** `fields` with a parameter field added for each of `names`, in order. */
  function WithParams(fields: Fields, names: seq<string>): (extended: Fields)
    ensures fields.Keys <= extended.Keys
    ensures forall k :: k in fields && !IsParamKey(k) ==> extended[k] == fields[k]
    ensures forall n :: n in names ==> ParamKey(n) in extended && extended[ParamKey(n)] == ParamDescriptor(n)
    decreases |names|
  {
    if names == [] then fields
    else
      var name := names[|names| - 1];
      WithParams(fields, names[..|names| - 1])[ParamKey(name) := ParamDescriptor(name)]
  }

  /** The config after the non-early path: the prompt key's info set to
      `fullTemplate`, old parameter fields dropped, new ones added. */
  function Regenerate(fields: Fields, names: seq<string>, fullTemplate: string): (regenerated: Fields)
    requires PromptKeyField in fields
    ensures PromptKeyField in regenerated && regenerated[PromptKeyField] == fields[PromptKeyField].(info := fullTemplate)
    ensures forall k :: k in fields && !IsParamKey(k) ==> k in regenerated
    ensures forall n :: n in names ==> ParamKey(n) in regenerated && regenerated[ParamKey(n)] == ParamDescriptor(n)
  {
    PromptKeyIsNoParam();
    var keyed := fields[PromptKeyField := fields[PromptKeyField].(info := fullTemplate)];
    WithParams(WithoutParams(keyed), names)
  }

  /** What `UpdateBuildConfig` does to a config, as a function of its arguments. */
  function Update(fields: Fields, fieldValue: Option<string>, fieldName: Option<string>, templates: seq<string>)
    : (r: (Outcome, Fields))
    ensures r.0 == Ignored <==> fieldName != Some(PromptKeyField) || !IsTruthy(fieldValue)
    ensures r.0 == UpToDate <==>
      fieldName == Some(PromptKeyField) && IsTruthy(fieldValue) && AllPresent(fields, AllFields(templates))
    ensures r.0 == Regenerated <==>
      && fieldName == Some(PromptKeyField) && IsTruthy(fieldValue)
      && !AllPresent(fields, AllFields(templates)) && PromptKeyField in fields
    ensures r.0 != Regenerated ==> r.1 == fields
  {
    if fieldName != Some(PromptKeyField) || !IsTruthy(fieldValue) then (Ignored, fields)
    else
      var names := AllFields(templates);
      if AllPresent(fields, names) then (UpToDate, fields)
      else if PromptKeyField !in fields then (MissingPromptKeyField, fields)
      else (Regenerated, Regenerate(fields, names, FullTemplate(templates)))
  }

  /** The host's build config, which the component updates in place. */
  class BuildConfig {
    var fields: Fields

    constructor (fields: Fields)
      ensures this.fields == fields
    {
      this.fields := fields;
    }
  }

  /** Collects the placeholders of every template and the full template text. */
  method ScanTemplates(templates: seq<string>) returns (customFields: seq<string>, fullTemplate: string)
    ensures customFields == AllFields(templates)
    ensures fullTemplate == FullTemplate(templates)
    ensures Extract(fullTemplate) == customFields
  {
    customFields, fullTemplate := [], "";
    for i := 0 to |templates|
      invariant customFields == AllFields(templates[..i])
      invariant fullTemplate == FullTemplate(templates[..i])
    {
      assert templates[..i + 1][..i] == templates[..i];
      customFields := customFields + Extract(templates[i]);
      fullTemplate := fullTemplate + "\n" + templates[i];
    }
    assert templates[..|templates|] == templates;
  }

  /** The component's `update_build_config` hook: regenerates the parameter
      fields of `config` when the prompt key is set to a non-empty value. */
  method UpdateBuildConfig(config: BuildConfig, fieldValue: Option<string>, fieldName: Option<string>, templates: seq<string>)
    returns (outcome: Outcome)
    modifies config
    ensures (outcome, config.fields) == Update(old(config.fields), fieldValue, fieldName, templates)
  {
    if fieldName != Some(PromptKeyField) || !IsTruthy(fieldValue) {
      return Ignored;
    }
    var customFields, fullTemplate := ScanTemplates(templates);
    if AllPresent(config.fields, customFields) {
      return UpToDate;
    }
    if PromptKeyField !in config.fields {
      return MissingPromptKeyField;
    }
    config.fields := config.fields[PromptKeyField := config.fields[PromptKeyField].(info := fullTemplate)];

    // drop the old parameter fields, visiting a snapshot of the keys
    var snapshot := config.fields;
    var pending := snapshot.Keys;
    while pending != {}
      invariant pending <= snapshot.Keys
      invariant config.fields == map k | k in snapshot && (k in pending || !IsParamKey(k)) :: snapshot[k]
      decreases pending
    {
      var key :| key in pending;
      if IsParamKey(key) {
        config.fields := config.fields - {key};
      }
      pending := pending - {key};
    }

    // add one field per placeholder
    for i := 0 to |customFields|
      invariant config.fields == WithParams(WithoutParams(snapshot), customFields[..i])
    {
      assert customFields[..i + 1][..i] == customFields[..i];
      config.fields := config.fields[ParamKey(customFields[i]) := ParamDescriptor(customFields[i])];
    }
    assert customFields[..|customFields|] == customFields;
    return Regenerated;
  }

  // ----- the templates -----

  /** A name is collected exactly when some template contains it. */
  lemma {:induction false} AllFieldsCollects(templates: seq<string>)
    ensures forall f :: f in AllFields(templates) <==> exists i :: 0 <= i < |templates| && f in Extract(templates[i])
    decreases |templates|
  {
    if templates != [] {
      var init := templates[..|templates| - 1];
      AllFieldsCollects(init);
      assert forall i :: 0 <= i < |init| ==> init[i] == templates[i];
    }
  }

  // ----- the parameter fields -----

  lemma {:induction false} WithParamsFields(fields: Fields, names: seq<string>)
    ensures forall k :: k in WithParams(fields, names) <==> k in fields || IsParamFor(k, names)
    ensures forall k :: IsParamFor(k, names) ==> WithParams(fields, names)[k] == ParamDescriptor(k[|ParamPrefix|..])
    ensures forall k :: k in fields && !IsParamFor(k, names) ==> WithParams(fields, names)[k] == fields[k]
    decreases |names|
  {
    if names != [] {
      var init, name := names[..|names| - 1], names[|names| - 1];
      WithParamsFields(fields, init);
      assert names == init + [name];
      forall k | IsParamKey(k)
        ensures k == ParamKey(k[|ParamPrefix|..])
      {
        ParamKeyInverse(k);
      }
    }
  }

  /** After regeneration the parameter fields are exactly those of the
      collected names, each with its generated descriptor. */
  lemma RegeneratedParamFields(fields: Fields, fieldValue: Option<string>, fieldName: Option<string>, templates: seq<string>)
    requires Update(fields, fieldValue, fieldName, templates).0 == Regenerated
    ensures forall k :: IsParamKey(k) ==>
      (k in Update(fields, fieldValue, fieldName, templates).1 <==> k[|ParamPrefix|..] in AllFields(templates))
    ensures forall f :: f in AllFields(templates) ==>
      Update(fields, fieldValue, fieldName, templates).1[ParamKey(f)] == ParamDescriptor(f)
  {
    var names := AllFields(templates);
    var keyed := fields[PromptKeyField := fields[PromptKeyField].(info := FullTemplate(templates))];
    WithParamsFields(WithoutParams(keyed), names);
  }

  /** Regeneration keeps every other field, changing only the prompt key's
      info, which becomes the full template text. */
  lemma RegeneratedKeepsOtherFields(fields: Fields, fieldValue: Option<string>, fieldName: Option<string>, templates: seq<string>)
    requires Update(fields, fieldValue, fieldName, templates).0 == Regenerated
    ensures forall k :: !IsParamKey(k) ==> (k in Update(fields, fieldValue, fieldName, templates).1 <==> k in fields)
    ensures forall k :: k in fields && !IsParamKey(k) && k != PromptKeyField ==>
      Update(fields, fieldValue, fieldName, templates).1[k] == fields[k]
    ensures PromptKeyField in fields
    ensures PromptKeyField in Update(fields, fieldValue, fieldName, templates).1 &&
      Update(fields, fieldValue, fieldName, templates).1[PromptKeyField]
      == fields[PromptKeyField].(info := FullTemplate(templates))
  {
    var names := AllFields(templates);
    var keyed := fields[PromptKeyField := fields[PromptKeyField].(info := FullTemplate(templates))];
    WithParamsFields(WithoutParams(keyed), names);
    PromptKeyIsNoParam();
  }

  lemma PromptKeyIsNoParam()
    ensures !IsParamKey(PromptKeyField)
  {
    assert PromptKeyField[..|ParamPrefix|][0] != ParamPrefix[0];
  }

  // ----- when nothing changes -----

  /** Another field, or an empty key, leaves the config as it is, whatever the templates. */
  lemma IgnoredLeavesConfig(fields: Fields, fieldValue: Option<string>, fieldName: Option<string>, templates: seq<string>)
    requires fieldName != Some(PromptKeyField) || fieldValue == None || fieldValue == Some("")
    ensures Update(fields, fieldValue, fieldName, templates) == (Ignored, fields)
  {
  }

  /** When each placeholder already has its field the config stays as it is,
      stale parameter fields and the prompt key's info included. */
  lemma UpToDateLeavesConfig(fields: Fields, fieldValue: Option<string>, fieldName: Option<string>, templates: seq<string>)
    requires fieldName == Some(PromptKeyField) && IsTruthy(fieldValue)
    requires forall f :: f in AllFields(templates) ==> ParamKey(f) in fields
    ensures Update(fields, fieldValue, fieldName, templates) == (UpToDate, fields)
  {
  }

  /** Templates without placeholders never change the config (`all([])` holds). */
  lemma NoPlaceholdersLeavesConfig(fields: Fields, fieldValue: Option<string>, fieldName: Option<string>, templates: seq<string>)
    requires forall i :: 0 <= i < |templates| ==> Extract(templates[i]) == []
    ensures Update(fields, fieldValue, fieldName, templates).1 == fields
  {
    NoFieldsCollected(templates);
  }

  lemma {:induction false} NoFieldsCollected(templates: seq<string>)
    requires forall i :: 0 <= i < |templates| ==> Extract(templates[i]) == []
    ensures AllFields(templates) == []
    decreases |templates|
  {
    if templates != [] {
      NoFieldsCollected(templates[..|templates| - 1]);
    }
  }

  /** A second identical call takes the early return and changes nothing. */
  lemma UpdateIdempotent(fields: Fields, fieldValue: Option<string>, fieldName: Option<string>, templates: seq<string>)
    ensures var (outcome, fields') := Update(fields, fieldValue, fieldName, templates);
      Update(fields', fieldValue, fieldName, templates) == (if outcome == Regenerated then UpToDate else outcome, fields')
  {
    var (outcome, fields') := Update(fields, fieldValue, fieldName, templates);
    if outcome == Regenerated {
      RegeneratedParamFields(fields, fieldValue, fieldName, templates);
      var names := AllFields(templates);
      forall k | 0 <= k < |names|
        ensures ParamKey(names[k]) in fields'
      {
        assert names[k] in names;
      }
    }
  }

  // ----- examples -----

  /** A template that now has only `{a}`, over a config with fields for `a`
      and `b`: the early return keeps the stale `param_b`. */
  lemma StaleParamSurvives()
    ensures var fields := map[PromptKeyField := FieldDescriptor(PromptKeyField, "Langfuse Prompt Key", ""),
                              ParamKey("a") := ParamDescriptor("a"),
                              ParamKey("b") := ParamDescriptor("b")];
      var (outcome, fields') := Update(fields, Some("greeting"), Some(PromptKeyField), ["{a}"]);
      outcome == UpToDate && ParamKey("b") in fields' && "b" !in AllFields(["{a}"])
  {
    ExampleBraces();
  }

  /** After a key change to a prompt with placeholders `a` and `b`, the
      parameter fields are exactly those of `a` and `b`. */
  lemma KeyChangeExample()
    ensures var fields := map[PromptKeyField := FieldDescriptor(PromptKeyField, "Langfuse Prompt Key", ""),
                              ParamKey("old") := ParamDescriptor("old")];
      var (outcome, fields') := Update(fields, Some("greeting"), Some(PromptKeyField), ["{a}", "{b}"]);
      outcome == Regenerated &&
      (forall k :: IsParamKey(k) ==> (k in fields' <==> k == ParamKey("a") || k == ParamKey("b")))
  {
    var fields := map[PromptKeyField := FieldDescriptor(PromptKeyField, "Langfuse Prompt Key", ""),
                      ParamKey("old") := ParamDescriptor("old")];
    ExampleFields();
    ExampleNeedsFields(fields);
    RegeneratedParamFields(fields, Some("greeting"), Some(PromptKeyField), ["{a}", "{b}"]);
    ParamKeysOfAB();
  }

  lemma ExampleNeedsFields(fields: Fields)
    requires fields.Keys == {PromptKeyField, ParamKey("old")}
    ensures !AllPresent(fields, ["a", "b"])
  {
    assert |ParamKey("a")| != |ParamKey("old")| && |ParamKey("a")| != |PromptKeyField|;
    assert ParamKey(["a", "b"][0]) !in fields;
  }

  lemma ParamKeysOfAB()
    ensures forall k :: IsParamKey(k) ==> (k[|ParamPrefix|..] in ["a", "b"] <==> k == ParamKey("a") || k == ParamKey("b"))
  {
    forall k | IsParamKey(k)
      ensures k[|ParamPrefix|..] in ["a", "b"] <==> k == ParamKey("a") || k == ParamKey("b")
    {
      ParamKeyInverse(k);
    }
  }

  lemma ExampleFields()
    ensures AllFields(["{a}", "{b}"]) == ["a", "b"]
  {
    var templates := ["{a}", "{b}"];
    ExampleBraces();
    assert templates[..1] == ["{a}"];
    assert AllFields(templates[..1]) == AllFields([]) + Extract("{a}");
  }

  lemma ExampleBraces()
    ensures Extract("{a}") == ["a"] && Extract("{b}") == ["b"]
  {
    var a, b := "{a}", "{b}";
    assert a[1..] == "a" + "}" + "" && b[1..] == "b" + "}" + "";
    CloseAfterName("a", "");
    CloseAfterName("b", "");
    assert a[1..2] == "a" && a[3..] == "" && b[1..2] == "b" && b[3..] == "";
  }
}
