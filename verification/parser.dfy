/**
  The post-processing of the language model's reply in src/ai/parser.ts: find the first
  `/\{[^}]+\}/` match in the output text, parse it, require truthy `amount`, `item` and
  `category`, and normalise the fields. The HTTP call itself is not modelled: its outcome
  is the `Reply` input.
 */
module Parser {
  import opened Options
  import opened Text
  import opened Json

  /** The `store` key of a parsed transaction: absent, null, or a string. */
  datatype StoreField = Missing | Null | Given(name: string)

  /** What `parseTransaction` returns when it does not return null. */
  datatype ParsedTransaction = ParsedTransaction(amount: Number, item: string, category: string, store: StoreField)

  /** What the inference endpoint gave back: a thrown error (transport failure, a non-ok
      status, a body that is not JSON), or the `output` property of the response body. */
  datatype Reply = Failed | Received(output: Option<JsonValue>)

  // ---------------------------------------------------------------------------
  // Extraction: the first match of /\{[^}]+\}/
  // ---------------------------------------------------------------------------

  /** `/\{[^}]+\}/` matches `s[i..e]`: an opening brace, at least one character other
      than a closing brace, then a closing brace. */
  ghost predicate ObjectMatch(s: string, i: int, e: int)
  {
    && 0 <= i && i + 3 <= e <= |s|
    && s[i] == '{' && s[e - 1] == '}'
    && forall k :: i < k < e - 1 ==> s[k] != '}'
  }

  /** For a given start there is at most one match: the one ending at the first '}'. */
  lemma MatchEndForced(s: string, i: int, e: int, e': int)
    requires ObjectMatch(s, i, e) && ObjectMatch(s, i, e')
    ensures e == e'
  {
    assert s[e - 1] == '}' && s[e' - 1] == '}';
  }

  /** The first index at or after `k` that holds '}', or `|s|`. */
  function NextClose(s: string, k: nat): (j: nat)
    requires k <= |s|
    ensures k <= j <= |s|
    ensures j < |s| ==> s[j] == '}'
    ensures forall m :: k <= m < j ==> s[m] != '}'
    decreases |s| - k
  {
    if k == |s| || s[k] == '}' then k else NextClose(s, k + 1)
  }

  /** The leftmost match that starts at or after `i`, as (start, end). */
  function MatchFrom(s: string, i: nat): (r: Option<(nat, nat)>)
    requires i <= |s|
    ensures r.Some? ==> i <= r.value.0 && ObjectMatch(s, r.value.0, r.value.1)
    ensures r.Some? ==> forall a, e :: i <= a < r.value.0 ==> !ObjectMatch(s, a, e)
    ensures r.None? ==> forall a, e :: i <= a ==> !ObjectMatch(s, a, e)
    decreases |s| - i
  {
    if i == |s| then
      None
    else
      var j := NextClose(s, i + 1);
      if s[i] == '{' && i + 2 <= j < |s| then
        Some((i, j + 1))
      else
        assert forall e :: !ObjectMatch(s, i, e);
        MatchFrom(s, i + 1)
  }

  /** `text.match(/\{[^}]+\}/)?.[0]`: the leftmost match; it holds exactly one '}',
      its last character, so an object nested inside it is cut short. */
  function ExtractObject(s: string): (r: Option<string>)
    ensures r.None? <==> forall i, e :: !ObjectMatch(s, i, e)
    ensures r.Some? ==> exists i, e :: && ObjectMatch(s, i, e) && r.value == s[i..e]
                                       && forall a, e' :: 0 <= a < i ==> !ObjectMatch(s, a, e')
    ensures r.Some? ==> && |r.value| >= 3 && r.value[0] == '{' && r.value[|r.value| - 1] == '}'
                        && forall k :: 0 <= k < |r.value| - 1 ==> r.value[k] != '}'
  {
    match MatchFrom(s, 0)
    case None => None
    case Some((i, e)) =>
      assert forall k :: 0 <= k < e - i - 1 ==> s[i..e][k] == s[i + k];
      Some(s[i..e])
  }

  /** A match at `a` is the one found from `i` when no '{' lies between them. */
  lemma {:induction false} MatchFromAt(s: string, i: nat, a: nat, e: nat)
    requires i <= a && ObjectMatch(s, a, e)
    requires forall b :: i <= b < a ==> s[b] != '{'
    ensures MatchFrom(s, i) == Some((a, e))
    decreases a - i
  {
    if i == a {
      var j := NextClose(s, i + 1);
      assert s[e - 1] == '}';
      assert j == e - 1;
    } else {
      MatchFromAt(s, i + 1, a, e);
    }
  }

  /** Text before the object that holds no '{' does not disturb the extraction, and
      nothing after the object is looked at. */
  lemma ExtractAfterPrefix(p: string, o: string, q: string)
    requires forall k :: 0 <= k < |p| ==> p[k] != '{'
    requires ObjectMatch(o, 0, |o|)
    ensures ExtractObject(p + o + q) == Some(o)
  {
    var s := p + o + q;
    assert ObjectMatch(s, |p|, |p| + |o|) by {
      assert forall k :: 0 <= k < |o| ==> s[|p| + k] == o[k];
    }
    assert forall k :: 0 <= k < |p| ==> s[k] == p[k];
    MatchFromAt(s, 0, |p|, |p| + |o|);
    assert s[|p|..|p| + |o|] == o;
  }

  // ---------------------------------------------------------------------------
  // Field check and normalisation
  // ---------------------------------------------------------------------------

  /** `o.store?.trim() || null`; None when `.trim` is not a function (a TypeError,
      which `parseTransaction` catches). */
  function StoreOf(v: Option<JsonValue>): (r: Option<StoreField>)
    ensures r.None? <==> v.Some? && !v.value.JNull? && !v.value.JString?
    ensures v.None? || v == Some(JNull) ==> r == Some(Null)
    ensures v.Some? && v.value.JString? ==>
              r == Some(if Trim(v.value.s) == "" then Null else Given(Trim(v.value.s)))
    ensures r.Some? ==> !r.value.Missing?
    ensures r.Some? && r.value.Given? ==> r.value.name != "" && Trim(r.value.name) == r.value.name
  {
    match v
    case None => Some(Null)
    case Some(JNull) => Some(Null)
    case Some(JString(s)) =>
      var t := Trim(s);
      TrimIdempotent(s);
      Some(if t == "" then Null else Given(t))
    case Some(_) => None
  }

  /** The required fields: `amount`, `item` and `category` all truthy. */
  predicate HasRequiredFields(o: map<string, JsonValue>)
  {
    Truthy(Field(o, "amount")) && Truthy(Field(o, "item")) && Truthy(Field(o, "category"))
  }

  /** The field check and normalisation applied to the parsed object. */
  function Normalize(o: map<string, JsonValue>, host: Host): (r: Option<ParsedTransaction>)
    ensures r.Some? <==> && HasRequiredFields(o)
                         && o["item"].JString? && o["category"].JString?
                         && StoreOf(Field(o, "store")).Some?
    ensures r.Some? ==> && r.value.amount == ToNumber(o["amount"], host)
                        && r.value.item == Trim(o["item"].s)
                        && r.value.category == Lower(Trim(o["category"].s))
                        && r.value.store == StoreOf(Field(o, "store")).value
  {
    if !HasRequiredFields(o) then
      None
    else if !o["item"].JString? || !o["category"].JString? then
      None
    else
      match StoreOf(Field(o, "store"))
      case None => None
      case Some(store) =>
        Some(ParsedTransaction(ToNumber(o["amount"], host), Trim(o["item"].s), Lower(Trim(o["category"].s)), store))
  }

  /** Extraction, `JSON.parse` and normalisation of the output text. */
  function ParseText(text: string, host: Host): (r: Option<ParsedTransaction>)
    ensures r.Some? ==> exists i, e :: ObjectMatch(text, i, e)
    ensures ExtractObject(text).None? ==> r.None?
    ensures ExtractObject(text).Some? && host.parseObject(ExtractObject(text).value).None? ==> r.None?
    ensures ExtractObject(text).Some? && host.parseObject(ExtractObject(text).value).Some? ==>
              r == Normalize(host.parseObject(ExtractObject(text).value).value, host)
  {
    match ExtractObject(text)
    case None => None
    case Some(m) =>
      match host.parseObject(m)
      case None => None
      case Some(o) => Normalize(o, host)
  }

  /** `output.join("")`: null elements contribute nothing, strings themselves,
      anything else its `String(...)` text. */
  function Join(items: seq<JsonValue>, host: Host): string
  {
    if |items| == 0 then ""
    else
      var head := match items[0]
        case JNull => ""
        case JString(s) => s
        case _ => host.toText(items[0]);
      head + Join(items[1..], host)
  }

  /** `Array.isArray(output) ? output.join("") : output || ""`; None when the result
      has no `.match` method (a TypeError). */
  function OutputText(output: Option<JsonValue>, host: Host): (r: Option<string>)
    ensures output.Some? && output.value.JArray? ==> r == Some(Join(output.value.items, host))
    ensures output.Some? && output.value.JString? ==> r == Some(output.value.s)
    ensures !Truthy(output) ==> r == Some("")
    ensures r.None? <==> Truthy(output) && !output.value.JString? && !output.value.JArray?
  {
    match output
    case None => Some("")
    case Some(v) =>
      if v.JArray? then Some(Join(v.items, host))
      else if !Truthy(output) then Some("")
      else if v.JString? then Some(v.s)
      else None
  }

  /** `parseTransaction` of src/ai/parser.ts, from the endpoint's reply onwards; it never
      throws: every failure is a null result. */
  function ParseTransaction(reply: Reply, host: Host): (r: Option<ParsedTransaction>)
    ensures reply.Failed? ==> r.None?
    ensures reply.Received? && OutputText(reply.output, host).None? ==> r.None?
    ensures reply.Received? && OutputText(reply.output, host).Some? ==>
              r == ParseText(OutputText(reply.output, host).value, host)
  {
    match reply
    case Failed => None
    case Received(output) =>
      match OutputText(output, host)
      case None => None
      case Some(text) => ParseText(text, host)
  }

  /** End to end: a string output whose first object follows text without '{' parses
      to the normalisation of that object, whatever text comes after it. */
  lemma ParseTransactionOfObject(p: string, o: string, q: string, m: map<string, JsonValue>, host: Host)
    requires forall k :: 0 <= k < |p| ==> p[k] != '{'
    requires ObjectMatch(o, 0, |o|)
    requires host.parseObject(o) == Some(m)
    ensures ParseTransaction(Received(Some(JString(p + o + q))), host) == Normalize(m, host)
  {
    ExtractAfterPrefix(p, o, q);
  }

  /** End to end: an output text with no '{' at all never parses. */
  lemma ParseTransactionWithoutBrace(text: string, host: Host)
    requires forall k :: 0 <= k < |text| ==> text[k] != '{'
    ensures ParseTransaction(Received(Some(JString(text))), host).None?
  {
    forall i, e ensures !ObjectMatch(text, i, e) {
      if 0 <= i < |text| {
        assert text[i] != '{';
      }
    }
  }

  /** A successful parse has a trimmed item, a trimmed lower-case category and never an
      absent store; a blank or missing store comes back as null. */
  lemma ParsedFieldsAreNormal(o: map<string, JsonValue>, host: Host)
    requires Normalize(o, host).Some?
    ensures var p := Normalize(o, host).value;
            && Trim(p.item) == p.item
            && Trim(p.category) == p.category && Lower(p.category) == p.category
            && !p.store.Missing?
            && (p.store.Null? <==> !Truthy(Field(o, "store")) || Trim(o["store"].s) == "")
  {
    var p := Normalize(o, host).value;
    var c := o["category"].s;
    TrimIdempotent(o["item"].s);
    TrimIdempotent(c);
    TrimLowerCommute(Trim(c));
    LowerIdempotent(Trim(c));
  }

  lemma LowerIdempotent(s: string)
    ensures Lower(Lower(s)) == Lower(s)
  {
    var l := Lower(s);
    assert forall k :: 0 <= k < |s| ==> LowerChar(l[k]) == l[k];
  }

  /** Only falsy amounts are refused: 0 is, a negative amount is not. */
  lemma AmountCheckIsTruthiness(o: map<string, JsonValue>, host: Host, x: real)
    requires "amount" in o && o["amount"] == JNumber(x)
    requires Truthy(Field(o, "item")) && Truthy(Field(o, "category"))
    requires o["item"].JString? && o["category"].JString?
    requires !("store" in o)
    ensures Normalize(o, host).Some? <==> x != 0.0
    ensures x < 0.0 ==> Normalize(o, host).value.amount == Finite(x)
  {
  }
}
