/**
 * The exception base class for errors raised while serving a web view. It holds the
 * language it was raised for and a table of messages by language code, which concrete
 * subclasses declare, and reports the message for the held language.
 */
module WebViewException {
  import opened Results

  /** The language held when none is given. */
  const DefaultLanguage: string := "en"

  /** Why no message came back. `getTranslatedMessage` is declared to return a string; on
      the path where the held language has no entry it ends without a `return`, and PHP
      raises a TypeError for the missing return value. */
  datatype LookupError = NoStringReturned

  class AbstractWebViewException {
    /** Message text by language code; a concrete subclass declares its own table. */
    var errorMessages: map<string, string>
    /** The language the exception was raised for. */
    var lang: string

    /** `__construct($lang = 'en')` on a subclass whose table is `messages`. */
    constructor (messages: map<string, string>, lang: string := DefaultLanguage)
      ensures this.errorMessages == messages
      ensures this.lang == lang
    {
      this.errorMessages := messages;
      this.lang := lang;
    }

    /** `getTranslatedMessage` as written: the held language's entry when there is one,
        and otherwise no string at all, whether or not an English entry exists. */
    function TranslatedMessage(): (r: Result<string, LookupError>)
      reads this
      ensures lang in errorMessages ==> r == Success(errorMessages[lang])
      ensures lang !in errorMessages ==> r == Failure(NoStringReturned)
    {
      if lang in errorMessages then Success(errorMessages[lang])
      else
        // The source reads the English entry here and drops it: nothing is returned.
        Failure(NoStringReturned)
    }

    /** `getTranslatedMessage` as its documentation describes it: the held language's entry,
        else the English one, else nothing. */
    function DocumentedMessage(): (r: Option<string>)
      reads this
      ensures lang in errorMessages ==> r == Some(errorMessages[lang])
      ensures lang !in errorMessages && DefaultLanguage in errorMessages ==>
        r == Some(errorMessages[DefaultLanguage])
      ensures r.None? <==> lang !in errorMessages && DefaultLanguage !in errorMessages
    {
      if lang in errorMessages then Some(errorMessages[lang])
      else if DefaultLanguage in errorMessages then Some(errorMessages[DefaultLanguage])
      else None
    }
  }

  /** The code and its documentation agree exactly when the held language has an entry or
      there is no English entry to fall back to; in particular a missing language with an
      English entry gets no message from the code, where the documentation promises the
      English one. */
  lemma FallbackGap(e: AbstractWebViewException)
    ensures (e.TranslatedMessage().Success? <==> e.DocumentedMessage().Some?) <==>
      (e.lang in e.errorMessages || DefaultLanguage !in e.errorMessages)
    ensures e.lang !in e.errorMessages && DefaultLanguage in e.errorMessages ==>
      e.TranslatedMessage() == Failure(NoStringReturned) &&
      e.DocumentedMessage() == Some(e.errorMessages[DefaultLanguage])
    ensures e.TranslatedMessage().Success? ==>
      e.DocumentedMessage() == Some(e.TranslatedMessage().value)
  {
  }

  /** A concrete instance of the gap: an exception raised for French on a table with only
      an English entry returns no message, though the English text is there. */
  method FrenchWithEnglishOnly() returns (e: AbstractWebViewException)
    ensures e.TranslatedMessage() == Failure(NoStringReturned)
    ensures e.DocumentedMessage() == Some("Not found")
  {
    e := new AbstractWebViewException(map["en" := "Not found"], "fr");
  }

  /** Raising a subclass without naming a language holds English. */
  method EnglishByDefault(messages: map<string, string>) returns (e: AbstractWebViewException)
    ensures e.lang == "en" && e.errorMessages == messages
  {
    e := new AbstractWebViewException(messages);
  }

  /** The message looked up depends on nothing but the held language and the table. */
  lemma LookupDependsOnlyOnLanguageAndTable(a: AbstractWebViewException, b: AbstractWebViewException)
    requires a.lang == b.lang && a.errorMessages == b.errorMessages
    ensures a.TranslatedMessage() == b.TranslatedMessage()
  {
  }
}
