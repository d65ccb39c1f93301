/**
 * The prompt sent to the model: the fixed system prompt, which describes the task and
 * shows the six-section answer layout, followed by the user's three fields on labelled
 * lines.
 */
module Prompt {
  import opened Wrappers
  import opened Text
  import opened Scanner
  import opened Sections
  import opened Template

  // The texts below are `SYSTEM_PROMPT` character for character. Each line of the prompt
  // is written as short pieces joined with `+` (about four to a source line) only because
  // the verifier handles short string literals much faster than long ones.

  /** The instructions that precede the answer layout in `SYSTEM_PROMPT`. */
  const Preamble: string :=
    "\n"
    + "You are an AI assistant for a " + "symptom checker application. " + "Your role is to provide a " + "structured analysis of "
    + "user-described symptoms, " + "taking into account their age " + "and gender for a more " + "accurate assessment.\n\n"
    + "IMPORTANT: You are not a " + "medical professional. Your " + "suggestions are for " + "informational and educational "
    + "purposes only and should not " + "be considered a substitute " + "for professional medical " + "advice, diagnosis, or "
    + "treatment.\n\n"
    + "When a user provides their " + "symptoms, age, and gender, " + "you MUST structure your " + "response using the following "
    + "headings and format EXACTLY. " + "Do not add any other text " + "before the first heading or " + "after the last one.\n\n"

  /** The placeholder text under each heading of the layout in `SYSTEM_PROMPT`. */
  function TemplateBody(f: Field): string
  {
    match f
    case GivenSymptoms =>
      "- [Summarize the user's " + "symptoms here in a bulleted " + "list.]\n\n"
    case PossibleCauses =>
      "- **[Condition 1]:** " + "[Description of the " + "condition, considering the " + "user's age and gender.]\n"
      + "- **[Condition 2]:** " + "[Description of the " + "condition, considering the " + "user's age and gender.]\n"
      + "- **[Condition 3]:** " + "[Description of the " + "condition, considering the " + "user's age and gender.]\n\n"
    case Cure =>
      "- **Disclaimer: Do not take " + "any medication without " + "consulting a doctor. The " + "suggestions below are for "
      + "informational purposes and " + "are not prescriptions.**\n"
      + "- **For [Condition 1]:** " + "[Suggest potential no-risk " + "medication or treatment and " + "include important cautions.]\n"
      + "- **For [Condition 2]:** " + "[Suggest potential no-risk " + "medication or treatment and " + "include important cautions.]\n\n"
    case PrecautionsOrPreventions =>
      "- [Precaution or prevention " + "tip 1]\n"
      + "- [Precaution or prevention " + "tip 2]\n"
      + "- [Precaution or prevention " + "tip 3]\n\n"
    case ExpertAdvice =>
      "- **Disclaimer:** This " + "information is for " + "educational purposes only. " + "Always consult a doctor for "
      + "any health concerns.\n"
      + "- [Next step 1, which must " + "always be to consult a " + "healthcare professional.]\n"
      + "- [Next step 2]\n\n"
    case EmergencyLevel =>
      "- " + "**[Low/Medium/High/Critical]:** " + "[Provide a one-sentence " + "justification for the "
      + "assigned level, taking age " + "and gender into account.]\n"
  }

  /** One section per field, in the given order: the field's phrase as heading, its placeholder as text. */
  function Layout(fields: seq<Field>): (secs: seq<Section>)
    ensures |secs| == |fields|
    decreases |fields|
  {
    if fields == [] then [] else [Section(Phrase(fields[0]), TemplateBody(fields[0]))] + Layout(fields[1..])
  }

  /** The answer layout of `SYSTEM_PROMPT`: the six headings in chain order, each with its placeholder. */
  const TemplateSections: seq<Section> := Layout(Chain)

  /** `SYSTEM_PROMPT`: the instructions, then the answer layout. */
  const SystemPrompt: string := Preamble + Render(TemplateSections)

  /**
   * Each heading of a layout selects the field it was made from, and no other: a model
   * that copies the layout fills every entry of the parsed answer.
   */
  lemma LayoutSelects(fields: seq<Field>)
    ensures forall i, g :: 0 <= i < |fields| ==> (Selects(Layout(fields)[i], g) <==> g == fields[i])
  {
    forall i | 0 <= i < |fields|
      ensures forall g :: Selects(Layout(fields)[i], g) <==> g == fields[i]
    {
      LayoutAt(fields, i);
      PhraseHeadingSelects(fields[i], TemplateBody(fields[i]));
    }
  }

  /** The layout of `SYSTEM_PROMPT` has one section per field, whose heading selects that field. */
  lemma TemplateHeadingsSelect()
    ensures |TemplateSections| == |Chain|
    ensures forall i, g :: 0 <= i < |TemplateSections| ==> (Selects(TemplateSections[i], g) <==> g == Chain[i])
  {
    LayoutSelects(Chain);
  }

  /** The `i`-th section of a layout is the `i`-th field's phrase and placeholder. */
  lemma {:induction false} LayoutAt(fields: seq<Field>, i: int)
    requires 0 <= i < |fields|
    ensures Layout(fields)[i] == Section(Phrase(fields[i]), TemplateBody(fields[i]))
    decreases |fields|
  {
    if i > 0 {
      LayoutAt(fields[1..], i - 1);
    }
  }

  /** The text sent to the model: the system prompt, then the user's age, gender and symptoms on labelled lines. */
  function BuildPrompt(age: string, gender: string, symptoms: string): string
  {
    Compose(SystemPrompt, age, gender, symptoms)
  }

  /** Any instructions followed by the user's three fields on labelled lines. */
  function Compose(system: string, age: string, gender: string, symptoms: string): string
  {
    system + "\n\nUser's Age: " + age + "\nUser's Gender: " + gender + "\nUser's Symptoms: " + symptoms
  }

  /**
   * The prompt determines the user's fields: whatever the instructions, two prompts are
   * equal exactly when their fields are, as long as the age and the gender are single lines.
   */
  lemma ComposeInjective(system: string, age: string, gender: string, symptoms: string,
                        age': string, gender': string, symptoms': string)
    requires '\n' !in age && '\n' !in gender && '\n' !in age' && '\n' !in gender'
    ensures Compose(system, age, gender, symptoms) == Compose(system, age', gender', symptoms')
            <==> age == age' && gender == gender' && symptoms == symptoms'
  {
    if Compose(system, age, gender, symptoms) == Compose(system, age', gender', symptoms') {
      FieldsDetermined(system, age, gender, symptoms, age', gender', symptoms');
    }
  }

  /** The prompt opens with the instructions and closes with the symptoms exactly as given. */
  lemma ComposeFrame(system: string, age: string, gender: string, symptoms: string)
    ensures |system| + |symptoms| <= |Compose(system, age, gender, symptoms)|
    ensures Compose(system, age, gender, symptoms)[..|system|] == system
    ensures Compose(system, age, gender, symptoms)[|Compose(system, age, gender, symptoms)| - |symptoms|..] == symptoms
  {
  }

  lemma FieldsDetermined(system: string, age: string, gender: string, symptoms: string,
                         age': string, gender': string, symptoms': string)
    requires '\n' !in age && '\n' !in gender && '\n' !in age' && '\n' !in gender'
    requires Compose(system, age, gender, symptoms) == Compose(system, age', gender', symptoms')
    ensures age == age' && gender == gender' && symptoms == symptoms'
  {
    var p := system + "\n\nUser's Age: ";
    var gl, sl := "User's Gender: ", "User's Symptoms: ";
    Regroup(p, age, gender, symptoms);
    Regroup(p, age', gender', symptoms');
    CancelPrefix(p, age + "\n" + (gl + (gender + "\n" + (sl + symptoms))),
                    age' + "\n" + (gl + (gender' + "\n" + (sl + symptoms'))));
    SplitAtNewline(age, gl + (gender + "\n" + (sl + symptoms)), age', gl + (gender' + "\n" + (sl + symptoms')));
    CancelPrefix(gl, gender + "\n" + (sl + symptoms), gender' + "\n" + (sl + symptoms'));
    SplitAtNewline(gender, sl + symptoms, gender', sl + symptoms');
    CancelPrefix(sl, symptoms, symptoms');
  }

  /** The prompt's tail regrouped line by line. */
  lemma Regroup(p: string, age: string, gender: string, symptoms: string)
    ensures p + age + "\nUser's Gender: " + gender + "\nUser's Symptoms: " + symptoms
         == p + (age + "\n" + ("User's Gender: " + (gender + "\n" + ("User's Symptoms: " + symptoms))))
  {
    assert "\nUser's Gender: " == "\n" + "User's Gender: ";
    assert "\nUser's Symptoms: " == "\n" + "User's Symptoms: ";
  }

  /** Equal texts with the same prefix have equal remainders. */
  lemma CancelPrefix(p: string, x: string, y: string)
    requires p + x == p + y
    ensures x == y
  {
    assert x == (p + x)[|p|..];
    assert y == (p + y)[|p|..];
  }

  /** A line break after a single line splits the text back into that line and the rest. */
  lemma SplitAtNewline(x: string, y: string, x': string, y': string)
    requires '\n' !in x && '\n' !in x'
    requires x + "\n" + y == x' + "\n" + y'
    ensures x == x' && y == y'
  {
    FirstNewline(x, y);
    FirstNewline(x', y');
    var s := x + "\n" + y;
    assert x == s[..|x|] && y == s[|x| + 1..];
    var s' := x' + "\n" + y';
    assert x' == s'[..|x'|] && y' == s'[|x'| + 1..];
  }

  /** The first newline of a line followed by a newline is the one after the line. */
  lemma FirstNewline(x: string, y: string)
    requires '\n' !in x
    ensures NewlineFrom(x + "\n" + y, 0) == Some(|x|)
  {
    var s := x + "\n" + y;
    assert s[|x|] == '\n';
    assert forall k :: 0 <= k < |x| ==> s[k] == x[k];
  }
}
