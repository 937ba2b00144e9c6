/**
  The second copy of the transaction parser, src/lib/replicate.ts. It differs from
  src/ai/parser.ts only in how the model output becomes text: a string is used as is,
  anything else goes through `JSON.stringify`. Extraction and normalisation are shared.
 */
module Replicate {
  import opened Options
  import opened Json
  import opened Parser

  /** The outcome of `replicate.run`: a thrown error, or the model output. */
  datatype RunResult = RunFailed | Ran(output: JsonValue)

  /** `typeof output === 'string' ? output : JSON.stringify(output)` */
  function ResponseText(output: JsonValue, host: Host): (r: string)
    ensures output.JString? ==> r == output.s
    ensures !output.JString? ==> r == host.stringify(output)
  {
    if output.JString? then output.s else host.stringify(output)
  }

  /** `parseTransaction` of src/lib/replicate.ts from the model's output onwards. */
  function ParseTransaction(run: RunResult, host: Host): (r: Option<ParsedTransaction>)
    ensures run.RunFailed? ==> r.None?
    ensures run.Ran? ==> r == ParseText(ResponseText(run.output, host), host)
  {
    match run
    case RunFailed => None
    case Ran(output) => ParseText(ResponseText(output, host), host)
  }

  /** End to end: a string output whose first object follows text without '{' parses
      to the normalisation of that object, whatever text comes after it. */
  lemma ParseTransactionOfObject(p: string, o: string, q: string, m: map<string, JsonValue>, host: Host)
    requires forall k :: 0 <= k < |p| ==> p[k] != '{'
    requires ObjectMatch(o, 0, |o|)
    requires host.parseObject(o) == Some(m)
    ensures ParseTransaction(Ran(JString(p + o + q)), host) == Normalize(m, host)
  {
    ExtractAfterPrefix(p, o, q);
  }

  /** End to end: a string output with no '{' at all never parses. */
  lemma ParseTransactionWithoutBrace(text: string, host: Host)
    requires forall k :: 0 <= k < |text| ==> text[k] != '{'
    ensures ParseTransaction(Ran(JString(text)), host).None?
  {
    Parser.ParseTransactionWithoutBrace(text, host);
  }

  /** On a plain-text output both parsers give the same result. */
  lemma ParsersAgreeOnText(s: string, host: Host)
    ensures ParseTransaction(Ran(JString(s)), host) == Parser.ParseTransaction(Received(Some(JString(s))), host)
  {
  }
}
