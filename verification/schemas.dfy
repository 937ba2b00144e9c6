/**
  The input validators of src/finance/schemas.ts (repeated verbatim in
  src/features/finance/schemas.ts) and `parseCommand`. A zod object schema accepts only
  a JSON object, keeps the keys it names and drops the rest; `.optional()` accepts an
  absent key but not null; `.trim()` replaces the string by its trimmed form.
 */
module Schemas {
  import opened Options
  import opened Text
  import opened Json

  // ---------------------------------------------------------------------------
  // MessageSchema
  // ---------------------------------------------------------------------------

  datatype Message = Message(from: string, text: Option<string>)

  /** `z.string().min(1)` on a property. */
  function NonEmptyString(v: Option<JsonValue>): (r: Option<string>)
    ensures r.Some? <==> v.Some? && v.value.JString? && |v.value.s| > 0
    ensures r.Some? ==> r.value == v.value.s
  {
    match v
    case Some(JString(s)) => if |s| > 0 then Some(s) else None
    case _ => None
  }

  /** `z.string().trim().optional()` on a property: the outer None is a rejection, the
      inner one an absent property. */
  function OptionalTrimmed(v: Option<JsonValue>): (r: Option<Option<string>>)
    ensures r.Some? <==> v.None? || v.value.JString?
    ensures r.Some? ==> (r.value.Some? <==> v.Some?)
    ensures r.Some? && r.value.Some? ==> r.value.value == Trim(v.value.s)
  {
    match v
    case None => Some(None)
    case Some(JString(s)) => Some(Some(Trim(s)))
    case _ => None
  }

  /** `MessageSchema.safeParse`. */
  function ValidateMessage(v: JsonValue): (r: Option<Message>)
    ensures r.Some? <==> && v.JObject?
                         && NonEmptyString(Field(v.fields, "from")).Some?
                         && OptionalTrimmed(Field(v.fields, "text")).Some?
    ensures r.Some? ==> && r.value.from == v.fields["from"].s
                        && (r.value.text.Some? <==> "text" in v.fields)
                        && (r.value.text.Some? ==> r.value.text.value == Trim(v.fields["text"].s))
  {
    if !v.JObject? then None
    else
      match (NonEmptyString(Field(v.fields, "from")), OptionalTrimmed(Field(v.fields, "text")))
      case (Some(from), Some(text)) => Some(Message(from, text))
      case (None, _) => None
      case (_, None) => None
  }

  /** What `MessageSchema` can produce: a non-empty sender and a trimmed text. */
  predicate WellFormedMessage(m: Message)
  {
    |m.from| > 0 && (m.text.Some? ==> Trim(m.text.value) == m.text.value)
  }

  /** The message as a JSON object. */
  function EncodeMessage(m: Message): JsonValue
  {
    var fields := map["from" := JString(m.from)];
    JObject(if m.text.Some? then fields["text" := JString(m.text.value)] else fields)
  }

  /** Validation produces only well-formed messages, and gives every well-formed message
      back unchanged from its encoding. */
  lemma MessageRoundTrip(v: JsonValue, m: Message)
    ensures ValidateMessage(v) == Some(m) ==> WellFormedMessage(m)
    ensures WellFormedMessage(m) ==> ValidateMessage(EncodeMessage(m)) == Some(m)
  {
    if ValidateMessage(v) == Some(m) && m.text.Some? {
      TrimIdempotent(v.fields["text"].s);
    }
    if WellFormedMessage(m) {
      var e := EncodeMessage(m);
      assert Field(e.fields, "from") == Some(JString(m.from));
    }
  }

  // ---------------------------------------------------------------------------
  // WebhookBodySchema
  // ---------------------------------------------------------------------------

  /** One element of `messages`; `body` is the trimmed `text.body`. */
  datatype WebhookMessage = WebhookMessage(from: string, body: Option<string>)

  datatype WebhookBody = WebhookBody(messages: Option<seq<WebhookMessage>>)

  /** `z.object({ body: z.string().trim() }).optional()` on a property. */
  function OptionalBody(v: Option<JsonValue>): (r: Option<Option<string>>)
    ensures r.Some? <==> v.None? || (v.value.JObject? && "body" in v.value.fields && v.value.fields["body"].JString?)
    ensures r.Some? ==> (r.value.Some? <==> v.Some?)
    ensures r.Some? && r.value.Some? ==> r.value.value == Trim(v.value.fields["body"].s)
  {
    match v
    case None => Some(None)
    case Some(JObject(fields)) =>
      (match Field(fields, "body")
       case Some(JString(s)) => Some(Some(Trim(s)))
       case _ => None)
    case Some(_) => None
  }

  /** The element schema of `messages`. */
  function ValidateWebhookMessage(v: JsonValue): (r: Option<WebhookMessage>)
    ensures r.Some? <==> && v.JObject?
                         && NonEmptyString(Field(v.fields, "from")).Some?
                         && OptionalBody(Field(v.fields, "text")).Some?
    ensures r.Some? ==> && r.value.from == v.fields["from"].s
                        && r.value.body == OptionalBody(Field(v.fields, "text")).value
  {
    if !v.JObject? then None
    else
      match (NonEmptyString(Field(v.fields, "from")), OptionalBody(Field(v.fields, "text")))
      case (Some(from), Some(body)) => Some(WebhookMessage(from, body))
      case (None, _) => None
      case (_, None) => None
  }

  /** `z.array(element)`: all elements must pass, and each is replaced by its result. */
  function ValidateAll(items: seq<JsonValue>): (r: Option<seq<WebhookMessage>>)
    ensures r.Some? <==> forall i :: 0 <= i < |items| ==> ValidateWebhookMessage(items[i]).Some?
    ensures r.Some? ==> && |r.value| == |items|
                        && forall i :: 0 <= i < |items| ==> r.value[i] == ValidateWebhookMessage(items[i]).value
  {
    if |items| == 0 then
      Some([])
    else
      match (ValidateWebhookMessage(items[0]), ValidateAll(items[1..]))
      case (Some(m), Some(rest)) =>
        assert forall i :: 1 <= i < |items| ==> items[i] == items[1..][i - 1];
        Some([m] + rest)
      case (None, _) => None
      case (_, None) =>
        assert forall i :: 0 <= i < |items[1..]| ==> items[1..][i] == items[i + 1];
        None
  }

  /** `WebhookBodySchema.safeParse`: `messages` may be absent; when present it must be a
      non-empty array of valid elements. */
  function ValidateWebhookBody(v: JsonValue): (r: Option<WebhookBody>)
    ensures r.Some? ==> v.JObject?
    ensures v.JObject? && "messages" !in v.fields ==> r == Some(WebhookBody(None))
    ensures v.JObject? && "messages" in v.fields ==>
              (r.Some? <==> && v.fields["messages"].JArray?
                            && |v.fields["messages"].items| >= 1
                            && ValidateAll(v.fields["messages"].items).Some?)
    ensures r.Some? && r.value.messages.Some? ==>
              && |r.value.messages.value| >= 1
              && r.value.messages == ValidateAll(v.fields["messages"].items)
  {
    if !v.JObject? then None
    else
      match Field(v.fields, "messages")
      case None => Some(WebhookBody(None))
      case Some(JArray(items)) =>
        if |items| < 1 then None
        else
          (match ValidateAll(items)
           case Some(ms) => Some(WebhookBody(Some(ms)))
           case None => None)
      case Some(_) => None
  }

  /** What `WebhookBodySchema` can produce. */
  predicate WellFormedBody(b: WebhookBody)
  {
    b.messages.Some? ==> && |b.messages.value| >= 1
                         && forall i :: 0 <= i < |b.messages.value| ==>
                              && |b.messages.value[i].from| > 0
                              && (b.messages.value[i].body.Some? ==>
                                    Trim(b.messages.value[i].body.value) == b.messages.value[i].body.value)
  }

  function EncodeWebhookMessage(m: WebhookMessage): JsonValue
  {
    var fields := map["from" := JString(m.from)];
    JObject(if m.body.Some? then fields["text" := JObject(map["body" := JString(m.body.value)])] else fields)
  }

  function EncodeWebhookBody(b: WebhookBody): JsonValue
  {
    if b.messages.None? then JObject(map[])
    else JObject(map["messages" := JArray(seq(|b.messages.value|, i requires 0 <= i < |b.messages.value| =>
                                                EncodeWebhookMessage(b.messages.value[i])))])
  }

  lemma WebhookMessageRoundTrip(m: WebhookMessage)
    requires |m.from| > 0 && (m.body.Some? ==> Trim(m.body.value) == m.body.value)
    ensures ValidateWebhookMessage(EncodeWebhookMessage(m)) == Some(m)
  {
    var e := EncodeWebhookMessage(m);
    assert Field(e.fields, "from") == Some(JString(m.from));
    if m.body.Some? {
      var t := e.fields["text"];
      assert Field(t.fields, "body") == Some(JString(m.body.value));
    }
  }

  /** Validation produces only well-formed bodies, and gives every well-formed body back
      unchanged from its encoding. */
  lemma WebhookRoundTrip(v: JsonValue, b: WebhookBody)
    ensures ValidateWebhookBody(v) == Some(b) ==> WellFormedBody(b)
    ensures WellFormedBody(b) ==> ValidateWebhookBody(EncodeWebhookBody(b)) == Some(b)
  {
    if ValidateWebhookBody(v) == Some(b) && b.messages.Some? {
      var items := v.fields["messages"].items;
      forall i | 0 <= i < |b.messages.value|
        ensures |b.messages.value[i].from| > 0
        ensures b.messages.value[i].body.Some? ==> Trim(b.messages.value[i].body.value) == b.messages.value[i].body.value
      {
        var m := ValidateWebhookMessage(items[i]);
        if b.messages.value[i].body.Some? {
          TrimIdempotent(items[i].fields["text"].fields["body"].s);
        }
      }
    }
    if WellFormedBody(b) && b.messages.Some? {
      var ms := b.messages.value;
      var e := EncodeWebhookBody(b);
      var items := e.fields["messages"].items;
      forall i | 0 <= i < |items|
        ensures ValidateWebhookMessage(items[i]) == Some(ms[i])
      {
        WebhookMessageRoundTrip(ms[i]);
      }
      assert ValidateAll(items).value == ms;
    }
  }

  // ---------------------------------------------------------------------------
  // parseCommand
  // ---------------------------------------------------------------------------

  /** The values of `CommandSchema`. */
  const CommandNames: set<string> := {"summary", "total", "history", "list", "clear", "help"}

  /** `parseCommand`: lower-case, trim, and accept the result only if it is a command. */
  function ParseCommand(text: string): (r: Option<string>)
    ensures r.Some? <==> Trim(Lower(text)) in CommandNames
    ensures r.Some? ==> r.value == Trim(Lower(text))
  {
    var normalized := Trim(Lower(text));
    if normalized in CommandNames then Some(normalized) else None
  }

  /** Every command name is lower case and free of white space. */
  lemma CommandNamesPlain(c: string)
    requires c in CommandNames
    ensures Lower(c) == c
    ensures forall k :: 0 <= k < |c| ==> !IsSpace(c[k])
  {
    assert forall k :: 0 <= k < |c| ==> 'a' <= c[k] <= 'z';
  }

  /** White space around the text and the case of its letters do not matter: any text
      whose lower-case form is a command name, padded with white space, is that command. */
  lemma ParseCommandPadded(a: string, u: string, b: string)
    requires AllSpace(a) && AllSpace(b) && Lower(u) in CommandNames
    ensures ParseCommand(a + u + b) == Some(Lower(u))
  {
    var c := Lower(u);
    CommandNamesPlain(c);
    TrimLowerCommute(a + u + b);
    TrimIgnoresPadding(a, u, b);
    TrimLowerCommute(u);
    TrimPadded("", c, "");
    assert "" + c + "" == c;
  }

  /** Every command parses to itself. */
  lemma ParseCommandOfName(c: string)
    requires c in CommandNames
    ensures ParseCommand(c) == Some(c)
  {
    CommandNamesPlain(c);
    assert "" + c + "" == c;
    TrimPadded("", c, "");
  }

  /** A command name after another word is no command: characters inside the text are
      never removed. */
  lemma ParseCommandAfterWord(w: string, c: string)
    requires |w| > 0 && forall k :: 0 <= k < |w| ==> !IsSpace(w[k])
    requires c in CommandNames
    ensures ParseCommand(w + " " + c) == None
  {
    CommandNamesPlain(c);
    var s := w + " " + c;
    var l := Lower(s);
    assert l[0] == LowerChar(w[0]) && l[|s| - 1] == LowerChar(c[|c| - 1]);
    assert TrimmedAt(l, 0, |l|);
    TrimOfTrimmedAt(l, 0, |l|);
    assert l[0..|l|] == l;
    assert l[|w|] == ' ';
    forall n | n in CommandNames
      ensures l != n
    {
      CommandNamesPlain(n);
      if |n| == |l| {
        assert n[|w|] != ' ';
      }
    }
  }
}
