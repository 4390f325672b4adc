/** The text cleanup done by the Python generator service (`generate` in
    app.py) on the language model's raw output before it is returned as
    `[{'generated_text': one_liner}]`. The model itself is not part of this
    model: its output is the parameter `raw`. */
module GeneratorCleanup {
  import opened Text

  /** The fixed instruction in front of every prompt. */
  const Instruction: string := "In one catchy sentence, describe this weather: "

  /** The prompt the service sends to the model for a weather description:
      the instruction followed by the description, so never empty. */
  function CreativePrompt(text: string): (r: string)
    ensures IsPrefix(Instruction, r) && r[|Instruction|..] == text
    ensures |r| > |text|
  {
    Instruction + text
  }

  /** Newlines become spaces, carriage returns are deleted and the result is
      stripped: a single line with no whitespace at either end. */
  function SingleLine(s: string): (r: string)
    ensures '\n' !in r && '\r' !in r
    ensures Stripped(r, PySpace)
  {
    var t := DeleteChar(ReplaceChar(s, '\n', ' '), '\r');
    Strip(t, PySpace)
  }

  /** The steps after the prompt removal: one line, then the first sentence.
      The result has no line break; if the line has no '.', the result is
      the stripped line itself, otherwise it is the prefix of the line that
      ends at the line's first '.'. */
  function Flatten(s: string): (r: string)
    ensures '\n' !in r && '\r' !in r
    ensures '.' !in SingleLine(s) ==> r == SingleLine(s) && Stripped(r, PySpace)
    ensures '.' in SingleLine(s) ==>
              (|r| >= 1 && r[|r| - 1] == '.' && '.' !in r[..|r| - 1]
               && IsPrefix(r, SingleLine(s)))
  {
    FirstSentence(SingleLine(s))
  }

  /** The whole cleanup: every occurrence of the prompt is removed from the
      raw output, the rest is stripped and then flattened. */
  function OneLiner(raw: string, prompt: string): (r: string)
    ensures '\n' !in r && '\r' !in r
  {
    Flatten(Strip(RemoveAll(raw, prompt), PySpace))
  }

  /** A cleaned result is a fixed point of the newline, strip and
      first-sentence steps. */
  lemma FlattenIdempotent(s: string)
    ensures Flatten(Flatten(s)) == Flatten(s)
  {
    var line := SingleLine(s);
    var r := Flatten(s);
    FlattenStripped(s);
    SingleLineFixed(r);
    FirstSentenceIdempotent(line);
  }

  /** The flattened text has no whitespace at either end. */
  lemma FlattenStripped(s: string)
    ensures Stripped(Flatten(s), PySpace)
  {
    assert !PySpace('.');
    FirstSentenceStripped(SingleLine(s), PySpace);
  }

  /** A stripped text without line breaks is already a single line. */
  lemma SingleLineFixed(s: string)
    requires '\n' !in s && '\r' !in s && Stripped(s, PySpace)
    ensures SingleLine(s) == s
  {
    ReplaceCharAbsent(s, '\n', ' ');
    DeleteCharAbsent(s, '\r');
    StripStripped(s, PySpace);
  }

  /** The same for the whole cleanup: cleaning its result again, with the
      prompt no longer in it, changes nothing. */
  lemma OneLinerIdempotent(raw: string, prompt: string)
    requires !Contains(OneLiner(raw, prompt), prompt)
    ensures OneLiner(OneLiner(raw, prompt), prompt) == OneLiner(raw, prompt)
  {
    var g := Strip(RemoveAll(raw, prompt), PySpace);
    var r := Flatten(g);
    RemoveAllAbsent(r, prompt);
    FlattenStripped(g);
    StripStripped(r, PySpace);
    FlattenIdempotent(g);
  }

  /** The model echoes the prompt and continues it; when the continuation
      does not repeat the prompt, the result depends on the continuation
      alone. */
  lemma OneLinerOfEcho(description: string, continuation: string)
    requires !Contains(continuation, CreativePrompt(description))
    ensures OneLiner(CreativePrompt(description) + continuation, CreativePrompt(description))
            == Flatten(Strip(continuation, PySpace))
  {
    RemoveEchoedPrompt(CreativePrompt(description), continuation);
  }

  /** A sample run: the echoed prompt is dropped and only the first sentence
      of the continuation is kept. */
  lemma SampleOneLiner()
    ensures OneLiner(CreativePrompt("rain") + " Wet. Sun", CreativePrompt("rain")) == "Wet."
  {
    var cont := " Wet. Sun";
    var p := CreativePrompt("rain");
    NotContainsShorter(cont, p);
    OneLinerOfEcho("rain", cont);
    assert OneLiner(p + cont, p) == Flatten(Strip(cont, PySpace));
    SampleStrip();
    assert OneLiner(p + cont, p) == Flatten("Wet. Sun");
    SampleSingleLine();
    SampleFirstSentence();
  }

  lemma SampleStrip()
    ensures Strip(" Wet. Sun", PySpace) == "Wet. Sun"
  {
    var cont := " Wet. Sun";
    assert PySpace(cont[0]) && !PySpace(cont[1..][0]);
    assert TrimStart(cont, PySpace) == cont[1..];
    assert cont[1..] == "Wet. Sun";
  }

  lemma SampleSingleLine()
    ensures SingleLine("Wet. Sun") == "Wet. Sun"
  {
    var line := "Wet. Sun";
    assert !PySpace(line[0]) && !PySpace(line[|line| - 1]);
    assert Stripped(line, PySpace);
    assert forall i :: 0 <= i < |line| ==> line[i] != '\n' && line[i] != '\r';
    SingleLineFixed(line);
  }

  lemma SampleFirstSentence()
    ensures FirstSentence("Wet. Sun") == "Wet."
  {
    var line := "Wet. Sun";
    assert line[3] == '.';
    assert '.' !in line[..3];
    var h := Split(line, '.')[0];
    assert |h| == 3;
    assert h == line[..3];
  }
}
