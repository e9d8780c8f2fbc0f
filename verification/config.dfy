/**
 * src/vexy_markliff/config.py: `ConversionConfig`, whose constructor checks
 * both language codes in a loop -- the source code first -- and raises
 * ValueError on the first bad one, then sets its three fields. Loading from
 * YAML is not part of this model.
 */
module Config {
  import opened Wrappers
  import opened TextUtils

  const DefaultSourceLanguage: string := "en"
  const DefaultTargetLanguage: string := "es"
  const DefaultSplitSentences: bool := true

  /** The ValueError message for a rejected code. */
  function InvalidCodeMessage(fieldName: string, code: string): string {
    "Invalid " + fieldName + ": " + code + ". Must be 2-letter lowercase code."
  }

  /** The (code, field name) pairs the constructor's loop walks through. */
  function LanguageChecks(sourceLanguage: string, targetLanguage: string): seq<(string, string)> {
    [(sourceLanguage, "source_language"), (targetLanguage, "target_language")]
  }

  /** The message of the first pair whose code is not two lower-case
      letters, if there is one. */
  function FirstInvalid(checks: seq<(string, string)>): (r: Option<string>)
    ensures r.None? <==> forall i :: 0 <= i < |checks| ==> ValidateLanguageCode(checks[i].0)
  {
    if checks == [] then None
    else if !ValidateLanguageCode(checks[0].0) then Some(InvalidCodeMessage(checks[0].1, checks[0].0))
    else
      assert forall i :: 0 < i < |checks| ==> checks[i] == checks[1..][i - 1];
      FirstInvalid(checks[1..])
  }

  /** The outcome of the constructor's validation of two codes. */
  function ConfigError(sourceLanguage: string, targetLanguage: string): Option<string> {
    FirstInvalid(LanguageChecks(sourceLanguage, targetLanguage))
  }

  /** Construction is rejected exactly when a code is not two lower-case
      letters; the source code is checked first, so with both invalid the
      message names `source_language`. */
  lemma ConfigErrorCases(sourceLanguage: string, targetLanguage: string)
    ensures ConfigError(sourceLanguage, targetLanguage).None? <==>
      ValidateLanguageCode(sourceLanguage) && ValidateLanguageCode(targetLanguage)
    ensures !ValidateLanguageCode(sourceLanguage) ==>
      ConfigError(sourceLanguage, targetLanguage) == Some(InvalidCodeMessage("source_language", sourceLanguage))
    ensures ValidateLanguageCode(sourceLanguage) && !ValidateLanguageCode(targetLanguage) ==>
      ConfigError(sourceLanguage, targetLanguage) == Some(InvalidCodeMessage("target_language", targetLanguage))
  {
    var checks := LanguageChecks(sourceLanguage, targetLanguage);
    var rest := [(targetLanguage, "target_language")];
    assert checks[1..] == rest;
    assert rest[1..] == [];
    if ValidateLanguageCode(sourceLanguage) {
      assert ConfigError(sourceLanguage, targetLanguage) == FirstInvalid(rest);
    }
  }

  /** The loop of `__init__` over the two codes. */
  method ValidateLanguages(sourceLanguage: string, targetLanguage: string) returns (error: Option<string>)
    ensures error == ConfigError(sourceLanguage, targetLanguage)
  {
    var checks := LanguageChecks(sourceLanguage, targetLanguage);
    var i := 0;
    while i < |checks|
      invariant 0 <= i <= |checks|
      invariant FirstInvalid(checks) == FirstInvalid(checks[i..])
    {
      var (code, fieldName) := checks[i];
      if !ValidateLanguageCode(code) {
        return Some(InvalidCodeMessage(fieldName, code));
      }
      assert checks[i..][1..] == checks[i + 1..];
      i := i + 1;
    }
    return None;
  }

  class ConversionConfig {
    var sourceLanguage: string
    var targetLanguage: string
    var splitSentences: bool

    /** Both codes are two lower-case letters. */
    predicate Valid()
      reads this
    {
      ValidateLanguageCode(sourceLanguage) && ValidateLanguageCode(targetLanguage)
    }

    /** The field assignments that end `__init__`, once validation passed. */
    constructor(sourceLanguage: string, targetLanguage: string, splitSentences: bool)
      requires ConfigError(sourceLanguage, targetLanguage).None?
      ensures Valid()
      ensures this.sourceLanguage == sourceLanguage
      ensures this.targetLanguage == targetLanguage
      ensures this.splitSentences == splitSentences
    {
      ConfigErrorCases(sourceLanguage, targetLanguage);
      this.sourceLanguage := sourceLanguage;
      this.targetLanguage := targetLanguage;
      this.splitSentences := splitSentences;
    }
  }

  /** `ConversionConfig(source_language, target_language, split_sentences)`:
      the validation loop, then the object; the ValueError's message on
      rejection. */
  method Create(sourceLanguage: string, targetLanguage: string, splitSentences: bool)
    returns (r: Result<ConversionConfig, string>)
    ensures r.Failure? <==> ConfigError(sourceLanguage, targetLanguage).Some?
    ensures r.Failure? ==> r.error == ConfigError(sourceLanguage, targetLanguage).value
    ensures r.Success? ==>
      && fresh(r.value) && r.value.Valid()
      && r.value.sourceLanguage == sourceLanguage
      && r.value.targetLanguage == targetLanguage
      && r.value.splitSentences == splitSentences
  {
    var error := ValidateLanguages(sourceLanguage, targetLanguage);
    if error.Some? {
      return Failure(error.value);
    }
    var config := new ConversionConfig(sourceLanguage, targetLanguage, splitSentences);
    return Success(config);
  }

  /** `ConversionConfig()` succeeds and holds en, es and sentence splitting. */
  method CreateDefault() returns (config: ConversionConfig)
    ensures fresh(config) && config.Valid()
    ensures config.sourceLanguage == "en" && config.targetLanguage == "es" && config.splitSentences
  {
    ConfigErrorCases(DefaultSourceLanguage, DefaultTargetLanguage);
    config := new ConversionConfig(DefaultSourceLanguage, DefaultTargetLanguage, DefaultSplitSentences);
  }

  /** The cases of the test suite: "fr"/"de" accepted; "english" as source,
      "ESP" as target and "e" as source rejected. */
  lemma ConfigExamples()
    ensures ConfigError("fr", "de").None?
    ensures ConfigError("english", "es") == Some(InvalidCodeMessage("source_language", "english"))
    ensures ConfigError("en", "ESP") == Some(InvalidCodeMessage("target_language", "ESP"))
    ensures ConfigError("e", "es") == Some(InvalidCodeMessage("source_language", "e"))
  {
    ConfigErrorCases("fr", "de");
    ConfigErrorCases("english", "es");
    ConfigErrorCases("en", "ESP");
    ConfigErrorCases("e", "es");
  }
}
