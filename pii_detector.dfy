/** The PII detector: builds the two-part prompt for the language model and turns
    its JSON reply into a list of findings, answering with no findings whenever the
    text is too short or anything about the call goes wrong. The model behind the
    API is a parameter. */
module PiiDetector {
  import opened Wrappers
  import opened Text

  /** One entry of the reply's "pii" array; a key the entry lacks is `None`. */
  datatype Finding = Finding(piiType: Option<string>, value: Option<string>)

  /** What calling the model and parsing its reply amounts to. */
  datatype Reply =
    | Raised                            // the API call, reading the reply or `json.loads` raised
    | NotAnObject                       // the reply parsed to JSON that has no `get`
    | Object(pii: Option<seq<Finding>>) // a JSON object; `None` when it has no "pii" key

  /** The system and user messages sent to the model. */
  datatype Prompt = Prompt(system: string, user: string)

  type Classifier = Prompt -> Reply

  /** Texts whose stripped length is below this are not sent to the model. */
  const MinPiiLength: nat := 5

  /** The fixed parts of the system message around the language code. */
  const SystemLead: string :=
    "You are a privacy protection assistant specialized in identifying personally identifiable information (PII) in documents.\n...\nThe text is in "
  const SystemTrail: string :=
    " language.\n\nRespond with a JSON object containing an array of PII instances found in the text.\n..."

  /** The fixed start of the user message, followed by the page text. */
  const UserLead: string := "Please identify all PII in the following text:\n\n"

  /** `_create_pii_detection_prompt`: the language sits between the two fixed parts of
      the system message, and the text follows the fixed start of the user message. */
  function CreatePrompt(text: string, language: string): (p: Prompt)
    ensures |p.user| == |UserLead| + |text| && p.user[..|UserLead|] == UserLead && p.user[|UserLead|..] == text
    ensures |p.system| == |SystemLead| + |language| + |SystemTrail|
    ensures p.system[..|SystemLead|] == SystemLead && p.system[|p.system| - |SystemTrail|..] == SystemTrail
    ensures p.system[|SystemLead|..|p.system| - |SystemTrail|] == language
  {
    var system := SystemLead + language + SystemTrail;
    assert system[|SystemLead|..|system| - |SystemTrail|] == language;
    Prompt(system, UserLead + text)
  }

  /** The prompt determines both the text and the language it was built from. */
  lemma CreatePromptInjective(t1: string, l1: string, t2: string, l2: string)
    requires CreatePrompt(t1, l1) == CreatePrompt(t2, l2)
    ensures t1 == t2 && l1 == l2
  {
    var p := CreatePrompt(t1, l1);
    assert t1 == p.user[|UserLead|..] == t2;
    assert l1 == p.system[|SystemLead|..|p.system| - |SystemTrail|] == l2;
  }

  /** `detect_pii`: the "pii" entry of the model's reply, when the stripped text has
      at least five characters and the reply is an object holding that entry; no
      findings otherwise. */
  function DetectPii(text: string, language: string, classify: Classifier): (found: seq<Finding>)
    ensures found == [] ||
      (|Strip(text)| >= MinPiiLength && classify(CreatePrompt(text, language)) == Object(Some(found)))
  {
    if text == [] || |Strip(text)| < MinPiiLength then []
    else match classify(CreatePrompt(text, language))
      case Raised => []
      case NotAnObject => []
      case Object(pii) => if pii.Some? then pii.value else []
  }

  /** Both directions of `detect_pii`'s result: the model's list exactly when the text
      is long enough and the reply is an object with a "pii" entry; otherwise none,
      whether the call raised, the reply was not an object, or the entry is absent. */
  lemma DetectPiiCases(text: string, language: string, classify: Classifier)
    ensures var reply := classify(CreatePrompt(text, language));
      (|Strip(text)| >= MinPiiLength && reply.Object? && reply.pii.Some? ==>
        DetectPii(text, language, classify) == reply.pii.value)
      && (|Strip(text)| < MinPiiLength || !reply.Object? || reply.pii.None? ==>
        DetectPii(text, language, classify) == [])
  {
    if |Strip(text)| >= MinPiiLength {
      assert text != [];
    }
  }

  /** A short text is never sent to the model: every classifier yields no findings. */
  lemma ShortTextNotSent(text: string, language: string, c1: Classifier, c2: Classifier)
    requires |text| < MinPiiLength
    ensures DetectPii(text, language, c1) == DetectPii(text, language, c2) == []
  {
  }

  /** A text holding only white space yields no findings, whatever its length. */
  lemma BlankTextNotSent(text: string, language: string, classify: Classifier)
    requires IsBlank(text)
    ensures DetectPii(text, language, classify) == []
  {
    StripEmptyIffBlank(text);
  }
}
