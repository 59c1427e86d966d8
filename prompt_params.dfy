/**
 * Parameter collection in the component's `build_prompt`: for each input
 * variable `p` of the fetched template, the value of the component attribute
 * `param_p`, or the literal placeholder text `{p}` when there is no such
 * attribute; None values are dropped and values that carry a `text` are
 * replaced by that text.
 */
module PromptParams {
  import opened LangfusePrompt

  /** A component attribute value, as far as parameter collection tells them apart. */
  datatype Value =
    | NoneValue               // Python None
    | Text(s: string)         // a plain string
    | WithText(text: string)  // an object with a `text` attribute, such as a message

  /** The first comprehension: one entry per input variable, holding
      `getattr(component, "param_" + p, "{p}")` over the component's attributes. */
  function ParamsDict(inputVariables: seq<string>, attributes: map<string, Value>): (params: map<string, Value>)
    ensures forall p :: p in params <==> p in inputVariables
    ensures forall p :: p in params && ParamKey(p) in attributes ==> params[p] == attributes[ParamKey(p)]
    ensures forall p :: p in params && ParamKey(p) !in attributes ==> params[p] == Text("{" + p + "}")
  {
    map p | p in inputVariables :: if ParamKey(p) in attributes then attributes[ParamKey(p)] else Text("{" + p + "}")
  }

  /** The second comprehension: None dropped, `text` unwrapped. */
  function OriginalParams(params: map<string, Value>): (values: map<string, Value>)
    ensures forall p :: p in values <==> p in params && params[p] != NoneValue
    ensures forall p :: p in values ==> values[p].Text?
    ensures forall p :: p in values && params[p].WithText? ==> values[p] == Text(params[p].text)
    ensures forall p :: p in values && params[p].Text? ==> values[p] == params[p]
  {
    map p | p in params && params[p] != NoneValue :: if params[p].WithText? then Text(params[p].text) else params[p]
  }

  /** The values passed to the template: every input variable except those
      whose attribute is None, each a plain string; a missing attribute stands
      for the placeholder itself. */
  function CollectParams(inputVariables: seq<string>, attributes: map<string, Value>): (values: map<string, Value>)
    ensures forall p :: p in values <==>
      p in inputVariables && !(ParamKey(p) in attributes && attributes[ParamKey(p)] == NoneValue)
    ensures forall p :: p in values ==> values[p].Text?
    ensures forall p :: p in values && ParamKey(p) !in attributes ==> values[p] == Text("{" + p + "}")
    ensures forall p :: p in values && ParamKey(p) in attributes ==>
      values[p] == match attributes[ParamKey(p)]
                   case WithText(t) => Text(t)
                   case other => other
  {
    OriginalParams(ParamsDict(inputVariables, attributes))
  }
}
