/**
 * backend/core/utils.py: the strict phone-number validator and the upload path of a
 * model instance's file.
 */
module CoreUtils {
  import opened Wrappers
  import opened Strings
  import ClinicValidators

  /** Why `validate_phone_number` rejects a value; each carries the value for the message. */
  datatype PhoneNumberError = NotAllDigits(value: string) | WrongLength(value: string)

  /** The message once `%(value)s` is filled in. */
  function PhoneNumberMessage(e: PhoneNumberError): (m: string)
    ensures e.NotAllDigits? ==> m == e.value + " должен содержать только цифры"
    ensures e.WrongLength? ==> m == e.value + " должен содержать от 10 до 15 цифр"
  {
    match e
    case NotAllDigits(v) => v + " должен содержать только цифры"
    case WrongLength(v) => v + " должен содержать от 10 до 15 цифр"
  }

  /** Python's `str.isdigit`: false for the empty string. */
  predicate IsDigitString(value: string)
  {
    |value| > 0 && AllDigits(value)
  }

  /** `validate_phone_number`: the digit check comes first, then the length check. */
  function ValidatePhoneNumber(value: string): (r: Outcome<PhoneNumberError>)
    ensures r.Pass? <==> IsDigitString(value) && 10 <= |value| <= 15
    ensures r == Fail(NotAllDigits(value)) <==> !IsDigitString(value)
    ensures r == Fail(WrongLength(value)) <==> IsDigitString(value) && !(10 <= |value| <= 15)
  {
    if !IsDigitString(value) then Fail(NotAllDigits(value))
    else if |value| < 10 || |value| > 15 then Fail(WrongLength(value))
    else Pass
  }

  /** The empty value fails the digit check, not the length check. */
  lemma EmptyPhoneNumberNotDigits()
    ensures ValidatePhoneNumber("") == Fail(NotAllDigits(""))
  {
  }

  /** '12ab' is both too short and not digits; the digit error wins. */
  lemma DigitErrorFirst()
    ensures ValidatePhoneNumber("12ab") == Fail(NotAllDigits("12ab"))
  {
    assert !IsDigit("12ab"[2]);
  }

  /**
   * On digit strings this validator and the clinic form's `validate_phone` agree; the
   * clinic one also accepts punctuation, which this one rejects.
   */
  lemma AgreesWithClinicValidatorOnDigits(value: string)
    requires IsDigitString(value)
    ensures ValidatePhoneNumber(value).Pass? <==> ClinicValidators.ValidatePhone(value).Pass?
  {
    ClinicValidators.DigitsOnlyPhone(value);
  }

  lemma FormattedNumberRejected()
    ensures ValidatePhoneNumber("+7 (999) 123-45-67") == Fail(NotAllDigits("+7 (999) 123-45-67"))
    ensures ClinicValidators.ValidatePhone("+7 (999) 123-45-67") == Pass
  {
    assert !IsDigit("+7 (999) 123-45-67"[0]);
    ClinicValidators.FormattedPhonePasses();
  }

  /** `filename.split('.')[-1]`: after the last '.', or the whole name when it has none. */
  function Extension(filename: string): (ext: string)
    ensures '.' !in ext
    ensures '.' !in filename ==> ext == filename
  {
    LastPiece(filename, '.')
  }

  /** The piece after the final dot is the extension, whatever comes before. */
  lemma ExtensionAfterLastDot(base: string, ext: string)
    requires '.' !in ext
    ensures Extension(base + "." + ext) == ext
  {
    LastPieceAfterSeparator(base, '.', ext);
  }

  /** `get_file_path`: 'uploads/<app_label>/<model_name>_<id>.<ext>'. */
  function UploadPath(appLabel: string, modelName: string, id: string, filename: string): (path: string)
    ensures Extension(path) == Extension(filename)
  {
    var ext := Extension(filename);
    ExtensionAfterLastDot("uploads/" + appLabel + "/" + modelName + "_" + id, ext);
    "uploads/" + appLabel + "/" + modelName + "_" + id + "." + ext
  }

  /** The uploaded file's own name is dropped: only its extension reaches the path. */
  lemma UploadPathDropsBaseName(appLabel: string, modelName: string, id: string,
                                base1: string, base2: string, ext: string)
    requires '.' !in ext
    ensures UploadPath(appLabel, modelName, id, base1 + "." + ext) ==
            UploadPath(appLabel, modelName, id, base2 + "." + ext)
    ensures UploadPath(appLabel, modelName, id, base1 + "." + ext) ==
            "uploads/" + appLabel + "/" + modelName + "_" + id + "." + ext
  {
    ExtensionAfterLastDot(base1, ext);
    ExtensionAfterLastDot(base2, ext);
  }

  /** A name without a dot is its own extension. */
  lemma UploadPathWithoutDot(appLabel: string, modelName: string, id: string, filename: string)
    requires '.' !in filename
    ensures UploadPath(appLabel, modelName, id, filename) ==
            "uploads/" + appLabel + "/" + modelName + "_" + id + "." + filename
  {
  }
}
