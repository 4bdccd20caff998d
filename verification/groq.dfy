/** The deterministic part of `core/groq_client.py`: the language check on a
    generated reply and the validation `GroqClient.generate` applies to what
    the hosted model returned. The hosted call itself, and the probing of the
    response object for its text, are a function parameter `complete`. */
module Groq {
  import opened Wrappers
  import opened Text
  import Helpers

  /** The state `GroqClient.__init__` leaves behind. */
  datatype Client = Client(available: bool, hasClient: bool)

  /** What `_extract_content_from_response` handed back. */
  datatype Extracted =
    | NoContent         // None
    | TextContent(text: string)
    | NonText           // some other object, which the checks reject

  /** The outcome of one chat-completion request followed by extraction. */
  datatype Reply = Raised | Returned(content: Extracted)

  /** `_is_response_in_lang(text, lang)`: a non-empty string holding an
      Arabic-block character (for "ar") or an ASCII letter (for any other
      language code). */
  predicate IsResponseInLang(content: Extracted, lang: string)
    ensures IsResponseInLang(content, lang) ==> content.TextContent? && content.text != ""
  {
    match content
    case TextContent(t) =>
      if t == "" then false
      else if lang == "ar" then Any(t, IsArabic)
      else Any(t, IsAsciiLetter)
    case _ => false
  }

  /** The language check, stated character-wise. */
  lemma IsResponseInLangSpec(content: Extracted, lang: string)
    ensures !content.TextContent? ==> !IsResponseInLang(content, lang)
    ensures content.TextContent? && lang == "ar" ==>
              (IsResponseInLang(content, lang) <==>
               exists i :: 0 <= i < |content.text| && IsArabic(content.text[i]))
    ensures content.TextContent? && lang != "ar" ==>
              (IsResponseInLang(content, lang) <==>
               exists i :: 0 <= i < |content.text| && IsAsciiLetter(content.text[i]))
  {
    if content.TextContent? {
      AnyIffExists(content.text, IsArabic);
      AnyIffExists(content.text, IsAsciiLetter);
    }
  }

  /** `generate(system_prompt, user_message, lang)`. Without an available
      client it returns `None` and makes no request; an exception during the
      request becomes `None`; an empty or wrong-language reply becomes
      `None`; otherwise the reply, stripped. */
  function Generate(client: Client, systemPrompt: string, userMessage: string, lang: string,
                    complete: (string, string) -> Reply): (r: Option<string>)
    ensures !client.available || !client.hasClient ==> r == None
    ensures r.Some? <==>
              && client.available && client.hasClient
              && complete(systemPrompt, userMessage).Returned?
              && IsResponseInLang(complete(systemPrompt, userMessage).content, lang)
    ensures r.Some? ==> r.value == Strip(complete(systemPrompt, userMessage).content.text)
  {
    if !client.available || !client.hasClient then None
    else
      match complete(systemPrompt, userMessage)
      case Raised => None
      case Returned(content) =>
        if content.NoContent? || content == TextContent("") then None
        else if !IsResponseInLang(content, lang) then None
        else Some(Strip(content.text))
  }

  /** Stripping keeps every non-whitespace character, so a reply that passed
      the language check still passes it after `strip()`, and is not empty. */
  lemma GenerateResultInLang(client: Client, systemPrompt: string, userMessage: string,
                             lang: string, complete: (string, string) -> Reply)
    requires Generate(client, systemPrompt, userMessage, lang, complete).Some?
    ensures var t := Generate(client, systemPrompt, userMessage, lang, complete).value;
            t != "" && IsResponseInLang(TextContent(t), lang)
  {
    var reply := complete(systemPrompt, userMessage);
    InLangSurvivesStrip(reply.content, lang);
  }

  /** A reply that passes the language check still passes it once stripped. */
  lemma InLangSurvivesStrip(content: Extracted, lang: string)
    requires IsResponseInLang(content, lang)
    ensures Strip(content.text) != "" && IsResponseInLang(TextContent(Strip(content.text)), lang)
  {
    if lang == "ar" {
      StripKeepsClass(content.text, IsArabic);
    } else {
      StripKeepsClass(content.text, IsAsciiLetter);
    }
  }

  /** A character of a class that excludes whitespace survives `Strip`. */
  lemma StripKeepsClass(raw: string, p: char -> bool)
    requires forall c :: p(c) ==> !IsSpace(c)
    requires Any(raw, p)
    ensures Strip(raw) != "" && Any(Strip(raw), p)
  {
    var t := Strip(raw);
    var a := |raw| - |TrimStart(raw)|;
    AnyIffExists(raw, p);
    var i :| 0 <= i < |raw| && p(raw[i]);
    assert a <= i < a + |t|;
    assert t[i - a] == raw[i];
    AnyIffExists(t, p);
  }

  /** `validate_language` is the stricter test: whatever it accepts, the
      response check accepts; for languages other than "ar" they agree. */
  lemma ValidateImpliesInLang(text: string, lang: string, isAlpha: char -> bool)
    ensures Helpers.ValidateLanguage(text, lang, isAlpha) ==> IsResponseInLang(TextContent(text), lang)
    ensures lang != "ar" ==>
              (Helpers.ValidateLanguage(text, lang, isAlpha) <==> IsResponseInLang(TextContent(text), lang))
  {
    IsResponseInLangSpec(TextContent(text), lang);
  }
}
