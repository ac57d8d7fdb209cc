/** Objects as configured in a SecretProviderClass: their names, their validation, and the bytes
    their content stands for. */
module Objects {
  import opened Common
  import opened Fold
  import opened Paths
  import opened Text
  import Base64
  import Hex

  const SECRET := "secret"
  const KEY := "key"
  const CERT := "cert"

  newtype int32 = x: int | -0x8000_0000 <= x < 0x8000_0000

  datatype KeyVaultObject = KeyVaultObject(
    objectName: string,
    objectAlias: string,
    objectVersion: string,
    objectVersionHistory: int32,
    objectType: string,
    objectFormat: string,
    objectEncoding: string,
    filePermission: string)
  {
    predicate IsSyncingSingleVersion() {
      objectVersionHistory <= 1
    }

    function GetFileName(): string {
      if objectAlias != "" then objectAlias else objectName
    }

    function GetObjectUID(): string {
      if IsSyncingSingleVersion() then objectType + "/" + objectName
      else
        var parts := Split(objectAlias);
        objectType + "/" + objectName + "/" + parts[|parts| - 1]
    }

    /** The mode, and the error if there is one. */
    function GetFilePermission(defaultMode: int32): (int32, Option<PermissionError>) {
      if filePermission == "" then (defaultMode, None)
      else match ParseOctal(filePermission)
        case None => (0, Some(NotOctal))
        case Some(m) => (m, None)
    }
  }

  // ----- file permissions

  datatype PermissionError = NotOctal

  /** The value of an octal number, digit by digit. */
  function OctalDigits(s: string): Option<nat> {
    if |s| == 0 then None
    else
      var last := s[|s| - 1];
      if !('0' <= last <= '7') then None
      else if |s| == 1 then Some(last as int - '0' as int)
      else match OctalDigits(s[..|s| - 1])
        case None => None
        case Some(n) => Some(8 * n + (last as int - '0' as int))
  }

  /** `strconv.ParseInt(s, 8, 32)`. */
  function ParseOctal(s: string): Option<int32> {
    if |s| == 0 then None
    else
      var digits := if s[0] == '+' || s[0] == '-' then s[1..] else s;
      match OctalDigits(digits)
      case None => None
      case Some(n) =>
        if s[0] == '-' then if n <= 0x8000_0000 then Some((0 - n) as int32) else None
        else if n < 0x8000_0000 then Some(n as int32) else None
  }

  predicate AllOctal(s: string) {
    forall i :: 0 <= i < |s| ==> '0' <= s[i] <= '7'
  }

  /** A digit times the power of eight of its place. */
  function AtPlace(digit: nat, place: nat): nat {
    if place == 0 then digit else 8 * AtPlace(digit, place - 1)
  }

  /** All digits at their places, added up. */
  function PlaceValue(s: string): nat
    requires AllOctal(s)
  {
    if |s| == 0 then 0 else AtPlace(s[0] as int - '0' as int, |s| - 1) + PlaceValue(s[1..])
  }

  lemma {:induction false} PlaceValueLast(s: string)
    requires AllOctal(s) && |s| > 0
    ensures PlaceValue(s) == 8 * PlaceValue(s[..|s| - 1]) + (s[|s| - 1] as int - '0' as int)
  {
    if |s| > 1 {
      var front, tail := s[..|s| - 1], s[1..];
      PlaceValueLast(tail);
      assert front[1..] == tail[..|tail| - 1];
    }
  }

  /** Digit by digit, one obtains the place value of a text of octal digits and nothing else. */
  lemma {:induction false} OctalDigitsIff(s: string)
    ensures OctalDigits(s) == if |s| > 0 && AllOctal(s) then Some(PlaceValue(s)) else None
  {
    if |s| > 0 && '0' <= s[|s| - 1] <= '7' {
      OctalDigitsIff(s[..|s| - 1]);
      if AllOctal(s) { PlaceValueLast(s); }
    }
  }

  function Unsigned(s: string): string {
    if |s| > 0 && s[0] in "+-" then s[1..] else s
  }

  /** An optional sign and octal digits, with a value of 32 bits. */
  predicate IsPermission(s: string) {
    && |Unsigned(s)| > 0 && AllOctal(Unsigned(s))
    && (PlaceValue(Unsigned(s)) < 0x8000_0000 || (s[0] == '-' && PlaceValue(Unsigned(s)) == 0x8000_0000))
  }

  /** The mode a permission text stands for: the default mode if there is no text, the number it
      spells if it has the form of one, and zero otherwise. */
  ghost predicate IsModeOf(text: string, defaultMode: int32, mode: int32) {
    if text == "" then mode == defaultMode
    else if !IsPermission(text) then mode == 0
    else
      var n := PlaceValue(Unsigned(text));
      if text[0] == '-' then mode as int + n == 0 else mode as int == n
  }

  /** A permission leads to an error if and only if it is not empty and does not have this form;
      the mode is what the text stands for. */
  lemma {:induction false} PermissionErrorIff(kv: KeyVaultObject, defaultMode: int32)
    ensures var (mode, error) := kv.GetFilePermission(defaultMode);
      && (error.Some? <==> kv.filePermission != "" && !IsPermission(kv.filePermission))
      && IsModeOf(kv.filePermission, defaultMode, mode)
  {
    OctalDigitsIff(Unsigned(kv.filePermission));
  }

  function FormatOctal(n: nat): string {
    if n < 8 then [('0' as int + n) as char] else FormatOctal(n / 8) + FormatOctal(n % 8)
  }

  lemma {:induction false} OctalDigitsRoundTrip(n: nat)
    ensures OctalDigits(FormatOctal(n)) == Some(n)
    ensures |FormatOctal(n)| > 0 && FormatOctal(n)[0] !in "+-"
  {
    if n >= 8 {
      OctalDigitsRoundTrip(n / 8);
      var s := FormatOctal(n);
      assert s[..|s| - 1] == FormatOctal(n / 8);
    }
  }

  function Zeros(n: nat): string {
    if n == 0 then "" else "0" + Zeros(n - 1)
  }

  /** A leading zero changes nothing. */
  lemma {:induction false} LeadingZero(s: string)
    requires |s| > 0
    ensures OctalDigits("0" + s) == OctalDigits(s)
  {
    var z := "0" + s;
    assert z[..|z| - 1] == "0" + s[..|s| - 1];
    if |s| > 1 {
      LeadingZero(s[..|s| - 1]);
    } else {
      assert z[..|z| - 1] == "0" && OctalDigits("0") == Some(0);
    }
  }

  lemma {:induction false} LeadingZeros(z: nat, s: string)
    requires |s| > 0
    ensures OctalDigits(Zeros(z) + s) == OctalDigits(s)
  {
    if z == 0 {
      assert Zeros(0) + s == s;
    } else {
      var t := Zeros(z - 1) + s;
      LeadingZeros(z - 1, s);
      Assoc("0", Zeros(z - 1), s);
      assert Zeros(z) + s == "0" + t;
      LeadingZero(t);
    }
  }

  lemma {:induction false} ZerosAreUnsigned(z: nat, s: string)
    requires |s| > 0 && s[0] !in "+-"
    ensures |Zeros(z) + s| > 0 && (Zeros(z) + s)[0] !in "+-"
  {
  }

  /** A mode written in octal, with any number of leading zeros, is the mode of the file. */
  lemma {:induction false} PermissionRoundTrip(kv: KeyVaultObject, mode: int32, zeros: nat, defaultMode: int32)
    requires mode >= 0 && kv.filePermission == Zeros(zeros) + FormatOctal(mode as int)
    ensures kv.GetFilePermission(defaultMode) == (mode, None)
  {
    OctalDigitsRoundTrip(mode as int);
    LeadingZeros(zeros, FormatOctal(mode as int));
    ZerosAreUnsigned(zeros, FormatOctal(mode as int));
  }

  /** No permission is the default mode; the documented spellings, and signs. */
  lemma {:induction false} KnownPermissions(kv: KeyVaultObject, defaultMode: int32)
    ensures kv.filePermission == "" ==> kv.GetFilePermission(defaultMode) == (defaultMode, None)
    ensures kv.filePermission == "0644" ==> kv.GetFilePermission(defaultMode) == (420, None)
    ensures kv.filePermission == "0755" ==> kv.GetFilePermission(defaultMode) == (493, None)
    ensures kv.filePermission == "+7" ==> kv.GetFilePermission(defaultMode) == (7, None)
    ensures kv.filePermission == "-7" ==> kv.GetFilePermission(defaultMode) == (-7, None)
  {
    ThreeDigits('6', '4', '4');
    ThreeDigits('7', '5', '5');
    LeadingZero("644");
    LeadingZero("755");
    assert "0" + "644" == "0644" && "0" + "755" == "0755" && "+7"[1..] == "7" && "-7"[1..] == "7";
    assert OctalDigits("7") == Some(7);
  }

  lemma {:induction false} ThreeDigits(a: char, b: char, c: char)
    requires '0' <= a <= '7' && '0' <= b <= '7' && '0' <= c <= '7'
    ensures OctalDigits([a, b, c])
         == Some(64 * (a as int - '0' as int) + 8 * (b as int - '0' as int) + (c as int - '0' as int))
  {
    assert [a, b, c][..2] == [a, b] && [a, b][..1] == [a];
    assert OctalDigits([a]) == Some(a as int - '0' as int);
    assert OctalDigits([a, b]) == Some(8 * (a as int - '0' as int) + (b as int - '0' as int));
  }

  // ----- validation

  datatype ValidationError =
    | BadFormat
    | FormatNeedsSecret
    | EncodingNeedsSecret
    | BadEncoding
    | BadName(error: FileNameError)

  function ValidateObjectFormat(format: string, objectType: string): Option<ValidationError> {
    if |format| == 0 then None
    else if !EqualFold(format, "pem") && !EqualFold(format, "pfx") then Some(BadFormat)
    else if format == "pfx" && objectType != SECRET then Some(FormatNeedsSecret)
    else None
  }

  function ValidateObjectEncoding(encoding: string, objectType: string): Option<ValidationError> {
    if |encoding| == 0 then None
    else if objectType != SECRET then Some(EncodingNeedsSecret)
    else if !EqualFold(encoding, "hex") && !EqualFold(encoding, "base64") && !EqualFold(encoding, "utf-8") then
      Some(BadEncoding)
    else None
  }

  function Validate(kv: KeyVaultObject): Option<ValidationError> {
    match ValidateObjectFormat(kv.objectFormat, kv.objectType)
    case Some(e) => Some(e)
    case None =>
      match ValidateObjectEncoding(kv.objectEncoding, kv.objectType)
      case Some(e) => Some(e)
      case None =>
        match ValidateFileName(kv.GetFileName())
        case Some(e) => Some(BadName(e))
        case None => None
  }

  /** Validation never looks at the file permission: an accepted object has a permission without
      error if and only if it is empty or has the form of one, and it stays accepted with any other. */
  lemma {:induction false} PermissionIsNotValidated(kv: KeyVaultObject, permission: string, defaultMode: int32)
    requires Validate(kv).None?
    ensures var other := kv.(filePermission := permission);
      && Validate(other).None?
      && (other.GetFilePermission(defaultMode).1.None? <==> permission == "" || IsPermission(permission))
  {
    PermissionErrorIff(kv.(filePermission := permission), defaultMode);
  }

  /** An object with a plain name and no encoding is accepted if its format is. */
  lemma {:induction false} PlainObject(name: string, dot: nat, objectType: string, format: string)
    requires name != "" && name[0] != SEP && forall i :: 0 <= i < |name| && i != dot ==> name[i] != '.'
    ensures Validate(KeyVaultObject(name, "", "", 0, objectType, format, "", "")) ==
      ValidateObjectFormat(format, objectType)
  {
    NoTwoDots(name, dot);
  }

  lemma {:induction false} HasEight(s: string)
    requires |s| > 1 && s[0] !in "+-" && s[1] == '8'
    ensures !IsPermission(s)
  {
  }

  /** A secret with a permission that is no octal number is accepted, and its file has mode zero. */
  lemma {:induction false} BadPermissionIsAccepted(defaultMode: int32)
    ensures var kv := KeyVaultObject("secret1", "", "", 0, SECRET, "", "", "0888");
      Validate(kv).None? && kv.GetFilePermission(defaultMode) == (0, Some(NotOctal))
  {
    var kv := KeyVaultObject("secret1", "", "", 0, SECRET, "", "", "");
    var permission := "0888";
    PlainObject("secret1", 0, SECRET, "");
    HasEight(permission);
    PermissionErrorIff(kv.(filePermission := permission), defaultMode);
  }

  // ----- contents

  datatype ContentError = BadBase64 | BadHex | InvalidEncoding

  function GetContentBytes(content: string, objectType: string, encoding: string): Result<string, ContentError> {
    if !EqualFold(objectType, SECRET) || |encoding| == 0 || EqualFold(encoding, "utf-8") then Ok(content)
    else if EqualFold(encoding, "base64") then
      match Base64.Decode(content) case None => Err(BadBase64) case Some(b) => Ok(b)
    else if EqualFold(encoding, "hex") then
      match Hex.Decode(content) case None => Err(BadHex) case Some(b) => Ok(b)
    else Err(InvalidEncoding)
  }

  /** No text folds to two of the encoding names. */
  lemma {:induction false} EncodingsExclude(e: string)
    ensures EqualFold(e, "base64") ==> !EqualFold(e, "utf-8") && |e| > 0
    ensures EqualFold(e, "hex") ==> !EqualFold(e, "utf-8") && !EqualFold(e, "base64") && |e| > 0
  {
  }

  /** An accepted object never meets the invalid-encoding error, whatever its content; an accepted
      object that is not a secret is passed through byte for byte. */
  lemma {:induction false} AcceptedEncodingIsUsable(kv: KeyVaultObject, content: string)
    requires Validate(kv).None?
    ensures GetContentBytes(content, kv.objectType, kv.objectEncoding) != Err(InvalidEncoding)
    ensures kv.objectType != SECRET ==> GetContentBytes(content, kv.objectType, kv.objectEncoding) == Ok(content)
  {
  }

  /** A secret stored as the base64 text of some bytes yields those bytes, whatever the letter case
      in which the encoding is named. */
  lemma {:induction false} Base64SecretRoundTrip(b: Bytes, encoding: string)
    requires EqualFold(encoding, "base64")
    ensures GetContentBytes(Base64.Encode(b), SECRET, encoding) == Ok(b)
  {
    EncodingsExclude(encoding);
    Base64.RoundTrip(b);
  }

  /** A secret with encoding hex yields some bytes if and only if it is a hexadecimal text of them,
      in any mixture of cases. */
  lemma {:induction false} HexSecretRoundTrip(content: string, b: Bytes, encoding: string)
    requires EqualFold(encoding, "hex")
    ensures GetContentBytes(content, SECRET, encoding) == Ok(b) <==> Hex.LowerAll(content) == Hex.Encode(b)
  {
    EncodingsExclude(encoding);
    Hex.DecodeIffEncoding(content, b);
  }

  /** The format check lets "pfx" through for other types than secrets unless it is written in
      lower case. */
  lemma {:induction false} FormatAcceptedIff(format: string, objectType: string)
    ensures ValidateObjectFormat(format, objectType).None? <==>
      || format == ""
      || EqualFold(format, "pem")
      || (EqualFold(format, "pfx") && (format != "pfx" || objectType == SECRET))
  {
    assert format == "pfx" ==> !EqualFold(format, "pem") by {
      if format == "pfx" { assert format[1] == 'f'; }
    }
  }

  /** Which encodings are accepted: none for any type, and for secrets the three names in any
      mixture of cases. */
  lemma {:induction false} EncodingAcceptedIff(encoding: string, objectType: string)
    ensures ValidateObjectEncoding(encoding, objectType).None? <==>
      || encoding == ""
      || (objectType == "secret"
          && (EqualFold(encoding, "hex") || EqualFold(encoding, "base64") || EqualFold(encoding, "utf-8")))
  {
  }

  /** From the fields alone: which objects are accepted. */
  lemma {:induction false} AcceptedIff(kv: KeyVaultObject)
    ensures Validate(kv).None? <==>
      var name := if kv.objectAlias == "" then kv.objectName else kv.objectAlias;
      && (kv.objectFormat == "" || EqualFold(kv.objectFormat, "pem")
          || (EqualFold(kv.objectFormat, "pfx") && (kv.objectFormat != "pfx" || kv.objectType == "secret")))
      && (kv.objectEncoding == ""
          || (kv.objectType == "secret"
              && (EqualFold(kv.objectEncoding, "hex") || EqualFold(kv.objectEncoding, "base64")
                  || EqualFold(kv.objectEncoding, "utf-8"))))
      && name != "" && name[0] != '/' && forall k :: 0 <= k < |name| - 1 ==> name[k] != '.' || name[k + 1] != '.'
  {
    FormatAcceptedIff(kv.objectFormat, kv.objectType);
    EncodingAcceptedIff(kv.objectEncoding, kv.objectType);
    FileNameAcceptedIff(kv.GetFileName());
    TwoDotsIff(kv.GetFileName());
  }

  lemma {:induction false} TwoDotsIff(name: string)
    ensures Contains(name, "..") <==> exists k :: 0 <= k < |name| - 1 && name[k] == '.' && name[k + 1] == '.'
  {
    if k :| 0 <= k < |name| - 1 && name[k] == '.' && name[k + 1] == '.' {
      assert name[k..k + 2] == "..";
      assert OccursAt(name, "..", k);
    }
    if Contains(name, "..") {
      var k := IndexOf(name, "..").value;
      OccurrenceChars(name, "..", k, 0);
      OccurrenceChars(name, "..", k, 1);
    }
  }

  /** Exactly when a content stands for some bytes, and every error. */
  lemma {:induction false} ContentBytesIff(content: string, objectType: string, encoding: string)
    ensures !EqualFold(objectType, "secret") ==> GetContentBytes(content, objectType, encoding) == Ok(content)
    ensures EqualFold(encoding, "base64") ==>
      GetContentBytes(content, "secret", encoding)
      == (match Base64.Decode(content) case None => Err(BadBase64) case Some(x) => Ok(x))
    ensures EqualFold(encoding, "hex") ==>
      GetContentBytes(content, "secret", encoding)
      == (match Hex.Decode(content) case None => Err(BadHex) case Some(x) => Ok(x))
    ensures encoding == "" || EqualFold(encoding, "utf-8") ==>
      GetContentBytes(content, "secret", encoding) == Ok(content)
    ensures encoding != "" && !EqualFold(encoding, "utf-8") && !EqualFold(encoding, "base64")
            && !EqualFold(encoding, "hex") ==>
      GetContentBytes(content, "secret", encoding) == Err(InvalidEncoding)
  {
    EncodingsExclude(encoding);
  }

  /** A key with format "PFX" is accepted; with "pfx" it is not. */
  lemma {:induction false} UpperCaseFormatIsAccepted()
    ensures Validate(KeyVaultObject("key1", "", "", 0, KEY, "PFX", "", "")).None?
    ensures Validate(KeyVaultObject("key1", "", "", 0, KEY, "pfx", "", "")) == Some(FormatNeedsSecret)
  {
    var upper := "PFX";
    assert FoldChar(upper[0]) == 'p' && FoldChar(upper[1]) == 'f' && FoldChar(upper[2]) == 'x';
    FormatAcceptedIff("PFX", KEY);
    PlainObject("key1", 0, KEY, "PFX");
    PlainObject("key1", 0, KEY, "pfx");
  }
}
