/**
 * The records the tool works with: the two kinds of resource a `uses:`
 * reference can name, and the metadata of an action (`action.yml`) that the
 * README generator reads.
 */
module Models {
  import opened Wrappers

  /**
   * A reusable workflow or an action, located by organisation, repository and
   * a path inside the repository. Both kinds carry exactly these three fields.
   */
  datatype Resource =
    | Workflow(org: string, repo: string, subpath: string)
    | Action(org: string, repo: string, subpath: string)

  /** One entry of an action's `inputs`. `required` may be absent (`null`) as well as true or false. */
  datatype ActionInput = ActionInput(
    description: Option<string>,
    required: Option<bool>,
    default: Option<string>,
    example: Option<string>)

  /** One entry of an action's `outputs`. */
  datatype ActionOutput = ActionOutput(description: Option<string>, value: Option<string>)

  /**
   * The metadata of an action. `inputs` and `outputs` are insertion-ordered
   * dictionaries, kept as sequences of (key, value) pairs in file order.
   */
  datatype GitHubAction = GitHubAction(
    name: string,
    description: string,
    inputs: seq<(string, ActionInput)>,
    outputs: seq<(string, ActionOutput)>)

  const MissingExampleMessage := "Required input without default must provide an example."

  /** The truth value Python gives `input.required`: absent counts as false. */
  predicate IsRequired(input: ActionInput) {
    input.required == Some(true)
  }

  /** The rule every input must satisfy: a required input names a default or an example. */
  predicate HasDefaultOrExampleIfRequired(input: ActionInput) {
    IsRequired(input) ==> input.default.Some? || input.example.Some?
  }

  /** The model validator run after the fields are set: the input itself, or the validation error. */
  function CheckRequiredHasDefaultOrExample(input: ActionInput): (r: Result<ActionInput, string>)
    ensures r.Ok? <==> HasDefaultOrExampleIfRequired(input)
    ensures r.Ok? ==> r.value == input
    ensures r.Err? ==> r.error == MissingExampleMessage
  {
    if IsRequired(input) && input.default.None? && input.example.None? then
      Err(MissingExampleMessage)
    else
      Ok(input)
  }

  /** Constructing an `ActionInput`: fields not given take their declared defaults, then the validator runs. */
  function NewActionInput(
    description: Option<string> := None,
    required: Option<bool> := Some(false),
    default: Option<string> := None,
    example: Option<string> := None): (r: Result<ActionInput, string>)
  {
    CheckRequiredHasDefaultOrExample(ActionInput(description, required, default, example))
  }

  /** Constructing a `GitHubAction`: `inputs` and `outputs` default to empty. */
  function NewGitHubAction(
    name: string,
    description: string,
    inputs: seq<(string, ActionInput)> := [],
    outputs: seq<(string, ActionOutput)> := []): (r: GitHubAction)
  {
    GitHubAction(name, description, inputs, outputs)
  }

  /** A required input with neither a default nor an example is rejected, whatever its description. */
  lemma RequiredWithoutDefaultOrExampleRejected(description: Option<string>)
    ensures NewActionInput(description := description, required := Some(true)) == Err(MissingExampleMessage)
  {
  }

  /** A required input is accepted as soon as it has a default or an example: either one suffices. */
  lemma RequiredWithDefaultOrExampleAccepted(description: Option<string>, default: Option<string>, example: Option<string>)
    requires default.Some? || example.Some?
    ensures NewActionInput(description, Some(true), default, example) == Ok(ActionInput(description, Some(true), default, example))
  {
  }

  /** An input that is not required (false or absent) is accepted whatever its default and example. */
  lemma NotRequiredAccepted(description: Option<string>, required: Option<bool>, default: Option<string>, example: Option<string>)
    requires required != Some(true)
    ensures NewActionInput(description, required, default, example) == Ok(ActionInput(description, required, default, example))
  {
  }

  /** The declared defaults: not required, no description, default or example; no inputs or outputs. */
  lemma FieldDefaults(name: string, description: string)
    ensures NewActionInput() == Ok(ActionInput(None, Some(false), None, None))
    ensures NewGitHubAction(name, description).inputs == []
    ensures NewGitHubAction(name, description).outputs == []
  {
  }
}
