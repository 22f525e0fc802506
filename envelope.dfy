/** The envelope decision made on the agent's answer (app.py:116-124): an
    agent that uses Titan may answer with a JSON object carrying an
    `instruction` and a `result`, in which case the answer text is the
    `result` and the inline citation style is decided from the instruction. */
module Envelope {
  import opened Common

  /** The literal the code looks for in the instruction. */
  const TitanMarker: string := "%[X]%"

  /** What `json.loads(output_text, strict=False)` produced: `None` when it
      raised `JSONDecodeError`, otherwise the object's string members. */
  type ParsedJson = Option<map<string, string>>

  datatype Unwrapped = Unwrapped(text: string, titanCitationStyle: bool)

  predicate HasEnvelope(parsed: ParsedJson) {
    parsed.Some? && "instruction" in parsed.value && "result" in parsed.value
  }

  /** The answer text and whether Titan citation style is on. */
  function Unwrap(outputText: string, parsed: ParsedJson): (u: Unwrapped)
    ensures HasEnvelope(parsed) ==>
      && u.text == parsed.value["result"]
      && (u.titanCitationStyle <==> exists i :: OccursAt(parsed.value["instruction"], TitanMarker, i))
    ensures !HasEnvelope(parsed) ==> u.text == outputText && !u.titanCitationStyle
  {
    if HasEnvelope(parsed) then
      var instruction := parsed.value["instruction"];
      ContainsIff(instruction, TitanMarker);
      Unwrapped(parsed.value["result"], Contains(instruction, TitanMarker))
    else
      Unwrapped(outputText, false)
  }
}
