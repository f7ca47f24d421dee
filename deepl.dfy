/** The DeepL side of the translator: which endpoint the key selects, the
    form fields of one request, and `deepl_translate_batch`, with the HTTP
    service itself left as a parameter (a function from request to reply). */
module DeepL {
  import opened Wrappers
  import opened PyStr

  const FREE_URL: string := "https://api-free.deepl.com/v2/translate"
  const PRO_URL: string := "https://api.deepl.com/v2/translate"

  /** The language every request translates from. */
  const SOURCE_LANG: string := "FR"

  /** A key of DeepL's free plan: it ends with ":fx" or contains "-free". */
  predicate IsFreeKey(key: string)
  {
    EndsWith(key, ":fx") || Contains(key, "-free")
  }

  /** The endpoint chosen at start-up from `DEEPL_API_URL` (`None` when the
      variable is unset) and `DEEPL_API_KEY`: a non-empty explicit URL
      wins; otherwise the free endpoint for a free key and the paid one for
      any other key. */
  function Endpoint(urlOverride: Option<string>, key: string): (url: string)
    ensures urlOverride.Some? && urlOverride.value != [] ==> url == urlOverride.value
    ensures (urlOverride.None? || urlOverride.value == []) ==> url == FREE_URL || url == PRO_URL
  {
    if urlOverride.Some? && urlOverride.value != [] then urlOverride.value
    else if IsFreeKey(key) then FREE_URL
    else PRO_URL
  }

  /** Without an explicit URL, the free endpoint is chosen exactly when the
      key's last three characters are ":fx" or "-free" occurs somewhere in
      it, and the paid endpoint otherwise. */
  lemma {:induction false} EndpointByKey(urlOverride: Option<string>, key: string)
    requires urlOverride.None? || urlOverride.value == []
    ensures Endpoint(urlOverride, key) == FREE_URL <==>
      (|key| >= 3 && key[|key| - 3..] == ":fx") || exists i :: OccursAt(key, "-free", i)
    ensures Endpoint(urlOverride, key) == PRO_URL <==>
      !((|key| >= 3 && key[|key| - 3..] == ":fx") || exists i :: OccursAt(key, "-free", i))
  {
    assert FREE_URL != PRO_URL by {
      assert FREE_URL[11] != PRO_URL[11];
    }
  }

  /** The two kinds of key, and an explicit URL that overrides either. */
  lemma {:induction false} EndpointExamples()
    ensures Endpoint(None, "0f3c:fx") == FREE_URL
    ensures Endpoint(None, "abc-free-1") == FREE_URL
    ensures Endpoint(None, "0f3c") == PRO_URL
    ensures Endpoint(Some([]), "0f3c:fx") == FREE_URL
    ensures Endpoint(Some("http://proxy/v2"), "0f3c:fx") == "http://proxy/v2"
  {
    assert OccursAt("abc-free-1", "-free", 3);
    assert !Contains("0f3c", "-free");
  }

  /** One `(name, value)` pair of an `application/x-www-form-urlencoded`
      body. */
  datatype Field = Field(name: string, value: string)

  /** The four settings every request starts with, in this order. */
  function Settings(authKey: string, sourceLang: string, targetLang: string): (fields: seq<Field>)
    ensures |fields| == 4
  {
    [ Field("auth_key", authKey),
      Field("source_lang", sourceLang),
      Field("target_lang", targetLang),
      Field("preserve_formatting", "1") ]
  }

  /** One `text` field per text, in the order of the texts. */
  function TextFields(texts: seq<string>): (fields: seq<Field>)
    ensures |fields| == |texts|
  {
    seq(|texts|, i requires 0 <= i < |texts| => Field("text", texts[i]))
  }

  /** The request body of one batch: the settings, then the texts. */
  function Payload(authKey: string, sourceLang: string, targetLang: string, texts: seq<string>): (fields: seq<Field>)
    ensures |fields| == 4 + |texts|
    ensures fields[0] == Field("auth_key", authKey) && fields[1] == Field("source_lang", sourceLang)
    ensures fields[2] == Field("target_lang", targetLang) && fields[3] == Field("preserve_formatting", "1")
    ensures forall i :: 0 <= i < |texts| ==> fields[4 + i] == Field("text", texts[i])
  {
    Settings(authKey, sourceLang, targetLang) + TextFields(texts)
  }

  /** The values of the fields called `name`, in order, as a form decoder
      would give them back for a repeated key. */
  function Values(fields: seq<Field>, name: string): (vs: seq<string>)
    ensures |vs| <= |fields|
  {
    if |fields| == 0 then []
    else (if fields[0].name == name then [fields[0].value] else []) + Values(fields[1..], name)
  }

  lemma {:induction false} ValuesConcat(a: seq<Field>, b: seq<Field>, name: string)
    ensures Values(a + b, name) == Values(a, name) + Values(b, name)
  {
    if |a| == 0 {
      assert a + b == b;
    } else {
      var h := if a[0].name == name then [a[0].value] else [];
      assert (a + b)[0] == a[0];
      assert (a + b)[1..] == a[1..] + b;
      assert Values(a + b, name) == h + Values(a[1..] + b, name);
      ValuesConcat(a[1..], b, name);
      assert Values(a, name) == h + Values(a[1..], name);
    }
  }

  lemma {:induction false} ValuesCons(f: Field, rest: seq<Field>, name: string)
    ensures Values([f] + rest, name) == (if f.name == name then [f.value] else []) + Values(rest, name)
  {
    assert ([f] + rest)[1..] == rest;
  }

  lemma {:induction false} TextFieldValues(texts: seq<string>, name: string)
    ensures Values(TextFields(texts), name) == if name == "text" then texts else []
  {
    if |texts| > 0 {
      TextFieldValues(texts[1..], name);
      assert TextFields(texts)[1..] == TextFields(texts[1..]);
      assert [texts[0]] + texts[1..] == texts;
    }
  }

  lemma {:induction false} SettingsValues(authKey: string, sourceLang: string, targetLang: string, name: string)
    ensures Values(Settings(authKey, sourceLang, targetLang), name)
      == (if name == "auth_key" then [authKey] else [])
       + (if name == "source_lang" then [sourceLang] else [])
       + (if name == "target_lang" then [targetLang] else [])
       + (if name == "preserve_formatting" then ["1"] else [])
  {
    var f0, f1, f2, f3 := Field("auth_key", authKey), Field("source_lang", sourceLang),
                          Field("target_lang", targetLang), Field("preserve_formatting", "1");
    assert Settings(authKey, sourceLang, targetLang) == [f0] + ([f1] + ([f2] + ([f3] + [])));
    ValuesCons(f0, [f1] + ([f2] + ([f3] + [])), name);
    ValuesCons(f1, [f2] + ([f3] + []), name);
    ValuesCons(f2, [f3] + [], name);
    ValuesCons(f3, [], name);
    assert "source_lang"[0] != "target_lang"[0];
  }

  /** Decoding a batch's body gives back each setting once and the texts
      in their original order. */
  lemma {:induction false} PayloadRoundTrip(authKey: string, sourceLang: string, targetLang: string, texts: seq<string>)
    ensures Values(Payload(authKey, sourceLang, targetLang, texts), "text") == texts
    ensures Values(Payload(authKey, sourceLang, targetLang, texts), "auth_key") == [authKey]
    ensures Values(Payload(authKey, sourceLang, targetLang, texts), "source_lang") == [sourceLang]
    ensures Values(Payload(authKey, sourceLang, targetLang, texts), "target_lang") == [targetLang]
    ensures Values(Payload(authKey, sourceLang, targetLang, texts), "preserve_formatting") == ["1"]
  {
    PayloadValues(authKey, sourceLang, targetLang, texts, "text");
    PayloadValues(authKey, sourceLang, targetLang, texts, "auth_key");
    PayloadValues(authKey, sourceLang, targetLang, texts, "source_lang");
    PayloadValues(authKey, sourceLang, targetLang, texts, "target_lang");
    PayloadValues(authKey, sourceLang, targetLang, texts, "preserve_formatting");
    assert "source_lang"[0] != "target_lang"[0];
  }

  lemma {:induction false} PayloadValues(authKey: string, sourceLang: string, targetLang: string, texts: seq<string>, name: string)
    ensures Values(Payload(authKey, sourceLang, targetLang, texts), name)
      == (if name == "auth_key" then [authKey] else [])
       + (if name == "source_lang" then [sourceLang] else [])
       + (if name == "target_lang" then [targetLang] else [])
       + (if name == "preserve_formatting" then ["1"] else [])
       + (if name == "text" then texts else [])
  {
    ValuesConcat(Settings(authKey, sourceLang, targetLang), TextFields(texts), name);
    TextFieldValues(texts, name);
    SettingsValues(authKey, sourceLang, targetLang, name);
  }

  /** The key and endpoint the application was started with. */
  datatype Account = Account(authKey: string, url: string)

  /** One POST to the service. */
  datatype Request = Request(url: string, fields: seq<Field>)

  /** What the service answers: the decoded JSON body (`translations`
      may be missing, and so may the `text` of each translation), an HTTP
      error status, or any other failure (connection, timeout, a body that
      is not JSON). */
  datatype Reply =
    | Answer(translations: Option<seq<Option<string>>>)
    | HttpError(status: int, body: string)
    | OtherFailure(reason: string)

  /** Why a batch was not translated; the source reports it and re-raises. */
  datatype Error = ApiError(status: int, body: string) | ConnectionError(reason: string)

  /** The request `deepl_translate_batch` sends for non-empty `texts`. */
  function BatchRequest(account: Account, targetLang: string, texts: seq<string>): (req: Request)
    ensures req.url == account.url
    ensures Values(req.fields, "text") == texts
  {
    PayloadRoundTrip(account.authKey, SOURCE_LANG, targetLang, texts);
    Request(account.url, Payload(account.authKey, SOURCE_LANG, targetLang, texts))
  }

  /** The translations read from an answer: the `text` of each element of
      `translations` (the empty string where it is missing), none when the
      list itself is missing. */
  function Texts(translations: Option<seq<Option<string>>>): (ts: seq<string>)
    ensures translations.None? ==> ts == []
    ensures translations.Some? ==> |ts| == |translations.value|
    ensures translations.Some? ==> forall i :: 0 <= i < |ts| ==>
      ts[i] == (if translations.value[i].Some? then translations.value[i].value else "")
  {
    if translations.None? then []
    else
      var items := translations.value;
      seq(|items|, i requires 0 <= i < |items| => if items[i].Some? then items[i].value else "")
  }

  /** How `deepl_translate_batch` reads the service's reply: an answer
      gives the `text` of each element of `translations` (the empty string
      where it is missing) and no translation at all when the list is
      missing; an HTTP error status becomes the API error carrying the
      status and the body, and any other failure the connection error. */
  function ReadReply(reply: Reply): (r: Result<seq<string>, Error>)
    ensures reply.Answer? && reply.translations.None? ==> r == Success([])
    ensures reply.Answer? && reply.translations.Some? ==>
      var items := reply.translations.value;
      && r.Success? && |r.value| == |items|
      && forall i :: 0 <= i < |items| ==> r.value[i] == (if items[i].Some? then items[i].value else "")
    ensures reply.HttpError? ==> r == Failure(ApiError(reply.status, reply.body))
    ensures reply.OtherFailure? ==> r == Failure(ConnectionError(reply.reason))
  {
    match reply
    case Answer(translations) => Success(Texts(translations))
    case HttpError(status, body) => Failure(ApiError(status, body))
    case OtherFailure(reason) => Failure(ConnectionError(reason))
  }

  /** `deepl_translate_batch(texts, "FR", targetLang)` against the service
      `service`: an empty list of texts is answered with an empty list
      without sending anything; otherwise the one request for the texts is
      sent and its reply is read back, or turned into an error, as
      `ReadReply` says. */
  function TranslateBatch(account: Account, targetLang: string, service: Request -> Reply, texts: seq<string>): (r: Result<seq<string>, Error>)
    ensures texts == [] ==> r == Success([])
  {
    if texts == [] then Success([])
    else ReadReply(service(BatchRequest(account, targetLang, texts)))
  }

  /** What a non-empty batch ends with, for each kind of reply to its one
      request: an answer without `translations` gives no translation, an
      answer with `items` gives `|items|` translations (the `text` of each,
      or the empty string), an HTTP error status gives the API error with
      that status and body, and any other failure the connection error. */
  lemma {:induction false} TranslateBatchReplies(account: Account, targetLang: string, service: Request -> Reply, texts: seq<string>)
    requires texts != []
    ensures var reply := service(BatchRequest(account, targetLang, texts));
      var r := TranslateBatch(account, targetLang, service, texts);
      && (reply == Answer(None) ==> r == Success([]))
      && (reply.Answer? && reply.translations.Some? ==>
            var items := reply.translations.value;
            && r.Success? && |r.value| == |items|
            && forall i :: 0 <= i < |items| ==> r.value[i] == (if items[i].Some? then items[i].value else ""))
      && (reply.HttpError? ==> r == Failure(ApiError(reply.status, reply.body)))
      && (reply.OtherFailure? ==> r == Failure(ConnectionError(reply.reason)))
  {
  }

  /** A service that answers each request with one translation per `text`
      field, `f` of that text, in the order of the fields: DeepL's
      documented behaviour, for a translation function `f`. */
  function Translator(f: string -> string): Request -> Reply
  {
    (req: Request) =>
      var texts := Values(req.fields, "text");
      Answer(Some(seq(|texts|, i requires 0 <= i < |texts| => Some(f(texts[i])))))
  }

  /** A service whose answers carry no `translations` list. */
  function Mute(): Request -> Reply
  {
    (req: Request) => Answer(None)
  }

  /** A service that refuses every request with the HTTP status `status`. */
  function Rejecting(status: int, body: string): Request -> Reply
  {
    (req: Request) => HttpError(status, body)
  }

  /** Whatever the service would answer, an empty batch gives `[]`: the
      service is never consulted. */
  lemma {:induction false} EmptyBatchSendsNothing(account: Account, targetLang: string, s1: Request -> Reply, s2: Request -> Reply)
    ensures TranslateBatch(account, targetLang, s1, []) == TranslateBatch(account, targetLang, s2, []) == Success([])
  {
  }

  /** Against a service that translates each text it receives, the
      batch's translations are those of its texts, one by one, in order. */
  lemma {:induction false} BatchAnswersEach(account: Account, targetLang: string, f: string -> string, texts: seq<string>)
    ensures TranslateBatch(account, targetLang, Translator(f), texts).Success?
    ensures |TranslateBatch(account, targetLang, Translator(f), texts).value| == |texts|
    ensures forall i :: 0 <= i < |texts| ==> TranslateBatch(account, targetLang, Translator(f), texts).value[i] == f(texts[i])
  {
  }
}
