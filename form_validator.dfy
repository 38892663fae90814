/** The permissive validator of the registration form
    (my-app/src/validator.js): no call throws; every failure is
    `{valid: false, error}` with a fixed French message, and `validateForm`
    folds the six field checks into one boolean. */
module FormValidator {
  import opened JsText
  import opened Calendar
  import opened Injection

  /** `{valid: true}` or `{valid: false, error}`. */
  datatype Verdict = Accepted | Rejected(error: string)

  /** The form record handed to `validateForm`; an absent property is `None`. */
  datatype Registration = Registration(
    firstName: Option<string>,
    lastName: Option<string>,
    email: Option<string>,
    birthDate: Option<string>,
    city: Option<string>,
    postalCode: Option<string>)

  const BirthDateRequired: string := "La date de naissance est requise"
  const BirthDateInvalid: string := "Date de naissance invalide"
  const TooYoung: string := "Vous devez avoir au moins 18 ans"
  const PostalCodeRequired: string := "Le code postal est requis"
  const PostalCodeFormat: string := "Le code postal doit contenir 5 chiffres"
  const NameRequired: string := "Ce champ est requis"
  const NameUnsafe: string := "Caracteres non autorisés"
  const NameLettersOnly: string := "Le nom ne doit contenir que des lettres"
  const EmailRequired: string := "L'email est requis"
  const EmailInvalid: string := "L'email n'est pas valide"
  const CityRequired: string := "La ville est requise"
  const CityInvalid: string := "Nom de ville invalide"

  /** `!x || x.trim() === ''` read as a property of the text: absent, or only
      white space. */
  predicate IsMissing(x: Option<string>) {
    x.None? || AllSpace(x.value)
  }

  // ---------------------------------------------------------------------------
  // validateAge

  /** The birth date is present, parses, and its eighteenth anniversary has
      been reached by `today`. */
  predicate IsAdult(birthDate: Option<string>, parse: string -> Option<Date>, today: Date) {
    birthDate.Some? && birthDate.value != "" && parse(birthDate.value).Some?
    && OnOrBefore(Anniversary(parse(birthDate.value).value, 18), today)
  }

  /** `validateAge(birthDate)` on the day `today`, where `parse` stands for
      `new Date(birthDate)` read back as a calendar day (`None` when the time
      is NaN). A birth after today gives a negative age and so the under-18
      message: this variant has no separate future check. */
  function ValidateAge(birthDate: Option<string>, parse: string -> Option<Date>, today: Date): (r: Verdict)
    ensures r == Rejected(BirthDateRequired) <==> birthDate.None? || birthDate.value == ""
    ensures r == Rejected(BirthDateInvalid) <==>
              birthDate.Some? && birthDate.value != "" && parse(birthDate.value).None?
    ensures r == Rejected(TooYoung) <==>
              birthDate.Some? && birthDate.value != "" && parse(birthDate.value).Some?
              && !OnOrBefore(Anniversary(parse(birthDate.value).value, 18), today)
    ensures r.Accepted? <==> IsAdult(birthDate, parse, today)
  {
    if birthDate.None? || birthDate.value == "" then Rejected(BirthDateRequired)
    else
      match parse(birthDate.value)
      case None => Rejected(BirthDateInvalid)
      case Some(date) =>
        AgeAtLeast(date, today, 18);
        if AgeOn(date, today) < 18 then Rejected(TooYoung) else Accepted
  }

  /** A birth after today is rejected as under 18, not as an invalid date. */
  lemma FutureBirthTooYoung(birthDate: string, parse: string -> Option<Date>, today: Date)
    requires birthDate != "" && parse(birthDate).Some?
    requires !OnOrBefore(parse(birthDate).value, today)
    ensures ValidateAge(Some(birthDate), parse, today) == Rejected(TooYoung)
  {
    var d := parse(birthDate).value;
    AgeNegativeIffFuture(d, today);
    AgeAtLeast(d, today, 18);
  }

  /** Born exactly eighteen years before today: accepted. */
  lemma EighteenTodayAccepted(birthDate: string, parse: string -> Option<Date>, today: Date)
    requires birthDate != "" && parse(birthDate) == Some(Anniversary(today, -18))
    ensures ValidateAge(Some(birthDate), parse, today) == Accepted
  {
    EighteenthBirthday(today, Anniversary(today, -18));
  }

  // ---------------------------------------------------------------------------
  // validatePostalCode

  /** `validatePostalCode(postalCode)`. */
  function ValidatePostalCode(postalCode: Option<string>): (r: Verdict)
    ensures r == Rejected(PostalCodeRequired) <==> IsMissing(postalCode)
    ensures r == Rejected(PostalCodeFormat) <==>
              !IsMissing(postalCode) && !IsFiveDigits(postalCode.value)
    ensures r.Accepted? <==> postalCode.Some? && IsFiveDigits(postalCode.value)
  {
    match postalCode
    case None => Rejected(PostalCodeRequired)
    case Some(s) =>
      TrimEmptyIffAllSpace(s);
      assert IsFiveDigits(s) ==> !IsSpace(s[0]);
      if IsBlank(s) then Rejected(PostalCodeRequired)
      else if !IsFiveDigits(s) then Rejected(PostalCodeFormat)
      else Accepted
  }

  // ---------------------------------------------------------------------------
  // validateName and validateCity

  /** The alternatives of the single injection pattern, in source order. */
  const FormPatterns: seq<Signature> := [Tag, ScriptScheme, EventHandler, EncodedLt, EncodedGt]

  /** `[a-zA-ZÀ-ÿ\s'-]` */
  predicate IsFormNameChar(c: char) {
    IsAsciiLetter(c) || (0xC0 <= c as int <= 0xFF) || IsSpace(c) || c == '\'' || c == '-'
  }

  /** `/^[a-zA-ZÀ-ÿ\s'-]+$/` */
  predicate IsFormNameText(s: string) {
    |s| >= 1 && forall i :: 0 <= i < |s| ==> IsFormNameChar(s[i])
  }

  /** A name or city the form accepts: present, not blank, in the class. */
  predicate IsFormName(x: Option<string>) {
    x.Some? && !AllSpace(x.value) && IsFormNameText(x.value)
  }

  /** Every injection signature needs a character outside the name class. */
  lemma UnsafeIsNotFormName(s: string)
    requires MatchesAny(FormPatterns, s)
    ensures !IsFormNameText(s)
  {
    AnySignatureHasMarkupChar(FormPatterns, s);
    var i :| 0 <= i < |s| && IsMarkupChar(s[i]);
    assert !IsFormNameChar(s[i]);
  }

  /** `validateName(name)`. Acceptance does not depend on the injection check:
      it only decides which message a rejected name gets. */
  function ValidateName(name: Option<string>): (r: Verdict)
    ensures r == Rejected(NameRequired) <==> IsMissing(name)
    ensures r == Rejected(NameUnsafe) <==> !IsMissing(name) && MatchesAny(FormPatterns, name.value)
    ensures r == Rejected(NameLettersOnly) <==>
              !IsMissing(name) && !MatchesAny(FormPatterns, name.value) && !IsFormNameText(name.value)
    ensures r.Accepted? <==> IsFormName(name)
  {
    match name
    case None => Rejected(NameRequired)
    case Some(s) =>
      TrimEmptyIffAllSpace(s);
      if IsBlank(s) then Rejected(NameRequired)
      else if MatchesAny(FormPatterns, s) then
        UnsafeIsNotFormName(s);
        Rejected(NameUnsafe)
      else if !IsFormNameText(s) then Rejected(NameLettersOnly)
      else Accepted
  }

  /** `validateCity(city)`: the same class as names, without the injection check. */
  function ValidateCity(city: Option<string>): (r: Verdict)
    ensures r == Rejected(CityRequired) <==> IsMissing(city)
    ensures r == Rejected(CityInvalid) <==> !IsMissing(city) && !IsFormNameText(city.value)
    ensures r.Accepted? <==> IsFormName(city)
  {
    match city
    case None => Rejected(CityRequired)
    case Some(s) =>
      TrimEmptyIffAllSpace(s);
      if IsBlank(s) then Rejected(CityRequired)
      else if !IsFormNameText(s) then Rejected(CityInvalid)
      else Accepted
  }

  /** A city and a name are accepted on exactly the same texts. */
  lemma CityAcceptsAsName(x: Option<string>)
    ensures ValidateCity(x).Accepted? <==> ValidateName(x).Accepted?
  {
  }

  // ---------------------------------------------------------------------------
  // validateEmail

  /** No white space and no '@' in `s[lo..hi]`, which is not empty (`[^\s@]+`). */
  predicate PlainRun(s: string, lo: int, hi: int) {
    0 <= lo < hi <= |s| && forall p :: lo <= p < hi ==> !IsSpace(s[p]) && s[p] != '@'
  }

  /** `/^[^\s@]+@[^\s@]+\.[^\s@]+$/`, with the '@' at `a` and the '.' at `b`. */
  predicate IsFormEmail(s: string) {
    exists a, b :: 0 <= a < b < |s| && s[a] == '@' && s[b] == '.'
      && PlainRun(s, 0, a) && PlainRun(s, a + 1, b) && PlainRun(s, b + 1, |s|)
  }

  /** The pattern says exactly: no white space, a single '@' that is not
      first, and a '.' after it with a character on each side. */
  lemma FormEmailIffAddressShape(s: string)
    ensures IsFormEmail(s) <==> HasAddressShape(s)
  {
    if IsFormEmail(s) {
      var a, b :| 0 <= a < b < |s| && s[a] == '@' && s[b] == '.'
        && PlainRun(s, 0, a) && PlainRun(s, a + 1, b) && PlainRun(s, b + 1, |s|);
      assert forall i :: 0 <= i < |s| && i != a ==> !IsSpace(s[i]) && s[i] != '@';
      assert a + 1 < b < |s| - 1;
    }
    if HasAddressShape(s) {
      var a :| 1 <= a < |s| && s[a] == '@'
        && (forall p :: 0 <= p < |s| && p != a ==> s[p] != '@')
        && (exists j :: a + 1 < j < |s| - 1 && s[j] == '.');
      var b :| a + 1 < b < |s| - 1 && s[b] == '.';
      assert PlainRun(s, 0, a) && PlainRun(s, a + 1, b) && PlainRun(s, b + 1, |s|);
    }
  }

  /** `validateEmail(email)`. */
  function ValidateEmail(email: Option<string>): (r: Verdict)
    ensures r == Rejected(EmailRequired) <==> IsMissing(email)
    ensures r == Rejected(EmailInvalid) <==> !IsMissing(email) && !HasAddressShape(email.value)
    ensures r.Accepted? <==> email.Some? && HasAddressShape(email.value)
  {
    match email
    case None => Rejected(EmailRequired)
    case Some(s) =>
      TrimEmptyIffAllSpace(s);
      FormEmailIffAddressShape(s);
      assert HasAddressShape(s) ==> !IsSpace(s[0]);
      if IsBlank(s) then Rejected(EmailRequired)
      else if !IsFormEmail(s) then Rejected(EmailInvalid)
      else Accepted
  }

  // ---------------------------------------------------------------------------
  // validateForm

  /** `validateForm(data)`: the field checks in the order age, postal code,
      first name, last name, email, city, stopping at the first failure. */
  function ValidateForm(data: Registration, parse: string -> Option<Date>, today: Date): (r: bool)
    ensures r <==>
              IsAdult(data.birthDate, parse, today)
              && data.postalCode.Some? && IsFiveDigits(data.postalCode.value)
              && IsFormName(data.firstName) && IsFormName(data.lastName)
              && data.email.Some? && HasAddressShape(data.email.value)
              && IsFormName(data.city)
  {
    if !ValidateAge(data.birthDate, parse, today).Accepted? then false
    else if !ValidatePostalCode(data.postalCode).Accepted? then false
    else if !ValidateName(data.firstName).Accepted? then false
    else if !ValidateName(data.lastName).Accepted? then false
    else if !ValidateEmail(data.email).Accepted? then false
    else if !ValidateCity(data.city).Accepted? then false
    else true
  }

  /** The empty record `{}` fails, on its absent birth date. */
  lemma EmptyRecordRejected(parse: string -> Option<Date>, today: Date)
    ensures !ValidateForm(Registration(None, None, None, None, None, None), parse, today)
  {
  }

  /** A record whose birth lies after today fails whatever its other fields. */
  lemma FutureBirthFailsForm(data: Registration, parse: string -> Option<Date>, today: Date)
    requires data.birthDate.Some? && data.birthDate.value != ""
    requires parse(data.birthDate.value).Some?
    requires !OnOrBefore(parse(data.birthDate.value).value, today)
    ensures !ValidateForm(data, parse, today)
  {
    FutureBirthTooYoung(data.birthDate.value, parse, today);
  }

  // ---------------------------------------------------------------------------
  // Examples from the source's own tests

  lemma PostalCodeExamples()
    ensures ValidatePostalCode(Some("75001")) == Accepted
    ensures ValidatePostalCode(Some("97400")) == Accepted
    ensures ValidatePostalCode(None) == Rejected(PostalCodeRequired)
    ensures ValidatePostalCode(Some("")) == Rejected(PostalCodeRequired)
  {
    assert IsFiveDigits("75001") && IsFiveDigits("97400");
  }

  lemma PostalCodeFormatExamples()
    ensures ValidatePostalCode(Some("7500")) == Rejected(PostalCodeFormat)
    ensures ValidatePostalCode(Some("7500A")) == Rejected(PostalCodeFormat)
    ensures ValidatePostalCode(Some("75 001")) == Rejected(PostalCodeFormat)
  {
    assert !IsSpace("7500"[0]) && !IsSpace("7500A"[0]) && !IsSpace("75 001"[0]);
    assert !IsDigit("7500A"[4]);
  }

  lemma NameAccepted()
    ensures ValidateName(Some("Jean")) == Accepted
    ensures ValidateName(Some("Hélène")) == Accepted
  {
    assert !IsSpace("Jean"[0]) && !IsSpace("Hélène"[0]);
  }

  lemma NamePunctuationAccepted()
    ensures ValidateName(Some("Jean-Pierre")) == Accepted
    ensures ValidateName(Some("O'Brien")) == Accepted
  {
    assert !IsSpace("Jean-Pierre"[0]) && !IsSpace("O'Brien"[0]);
  }

  lemma NameDigitsRejected()
    ensures ValidateName(Some("Jean123")) == Rejected(NameLettersOnly)
  {
    var s := "Jean123";
    assert forall i :: 0 <= i < |s| ==> !IsMarkupChar(s[i]);
    if MatchesAny(FormPatterns, s) {
      AnySignatureHasMarkupChar(FormPatterns, s);
    }
    assert !IsSpace(s[0]) && !IsFormNameChar(s[4]);
  }

  lemma NameSymbolsRejected()
    ensures ValidateName(Some("Jean@!")) == Rejected(NameLettersOnly)
  {
    var s := "Jean@!";
    assert forall i :: 0 <= i < |s| ==> !IsMarkupChar(s[i]);
    if MatchesAny(FormPatterns, s) {
      AnySignatureHasMarkupChar(FormPatterns, s);
    }
    assert !IsSpace(s[0]) && !IsFormNameChar(s[4]);
  }

  lemma NameScriptTagRejected()
    ensures ValidateName(Some("<script>alert(\"xss\")</script>")) == Rejected(NameUnsafe)
  {
    var s := "<script>alert(\"xss\")</script>";
    assert s[0] == '<' && s[7] == '>' && NoCloseBetween(s, 0, 7);
    assert Matches(FormPatterns[0], s);
    assert !IsSpace(s[0]);
  }

  lemma NameEncodedRejected()
    ensures ValidateName(Some("%3Cscript%3E")) == Rejected(NameUnsafe)
  {
    var s := "%3Cscript%3E";
    assert MatchesAt(s, 0, "%3c");
    assert Matches(FormPatterns[3], s);
    assert !IsSpace(s[0]);
  }

  lemma NameMissingRejected()
    ensures ValidateName(Some("")) == Rejected(NameRequired)
    ensures ValidateName(None) == Rejected(NameRequired)
  {
  }

  lemma EmailAccepted()
    ensures ValidateEmail(Some("jean@gmail.com")) == Accepted
  {
    var s := "jean@gmail.com";
    assert s[4] == '@' && s[10] == '.';
    assert PlainRun(s, 0, 4) && PlainRun(s, 5, 10) && PlainRun(s, 11, |s|);
    assert IsFormEmail(s);
    FormEmailIffAddressShape(s);
  }

  lemma EmailWithDotsAccepted()
    ensures ValidateEmail(Some("jean.dupont@test.fr")) == Accepted
  {
    var s := "jean.dupont@test.fr";
    assert s[11] == '@' && s[16] == '.';
    assert PlainRun(s, 0, 11) && PlainRun(s, 12, 16) && PlainRun(s, 17, |s|);
    assert IsFormEmail(s);
    FormEmailIffAddressShape(s);
  }

  lemma EmailWithoutAtRejected()
    ensures ValidateEmail(Some("jeangmail.com")) == Rejected(EmailInvalid)
  {
    var s := "jeangmail.com";
    forall i | 0 <= i < |s| ensures s[i] != '@' { }
    assert !HasAddressShape(s);
    assert !IsSpace(s[0]);
  }

  lemma EmailWithoutDomainRejected()
    ensures ValidateEmail(Some("jean@")) == Rejected(EmailInvalid)
  {
    assert !HasAddressShape("jean@");
    assert !IsSpace("jean@"[0]);
  }

  lemma EmailMissingRejected()
    ensures ValidateEmail(Some("")) == Rejected(EmailRequired)
    ensures ValidateEmail(None) == Rejected(EmailRequired)
  {
  }

  lemma CityAccepted()
    ensures ValidateCity(Some("Paris")) == Accepted
    ensures ValidateCity(Some("Saint-Étienne")) == Accepted
  {
    assert !IsSpace("Paris"[0]) && !IsSpace("Saint-Étienne"[0]);
  }

  lemma CityRejected()
    ensures ValidateCity(Some("Paris75")) == Rejected(CityInvalid)
    ensures ValidateCity(Some("")) == Rejected(CityRequired)
    ensures ValidateCity(None) == Rejected(CityRequired)
  {
    assert !IsSpace("Paris75"[0]) && !IsFormNameChar("Paris75"[5]);
  }

  /** The age cases with a parser that reads these three dates, on a day in
      2026: the tests build their dates from the clock, and run in 2026 the
      minor's birth date they build is 2016-01-01. */
  lemma AgeExamples(parse: string -> Option<Date>, today: Date)
    requires parse("1998-03-22") == Some(Date(1998, 3, 22))
    requires parse("nimportequoi") == None
    requires parse("2016-01-01") == Some(Date(2016, 1, 1))
    requires today.year == 2026
    ensures ValidateAge(Some("1998-03-22"), parse, today) == Accepted
    ensures ValidateAge(Some("2016-01-01"), parse, today) == Rejected(TooYoung)
    ensures ValidateAge(Some("nimportequoi"), parse, today) == Rejected(BirthDateInvalid)
    ensures ValidateAge(Some(""), parse, today) == Rejected(BirthDateRequired)
    ensures ValidateAge(None, parse, today) == Rejected(BirthDateRequired)
  {
  }

  /** The well-formed record of the tests. */
  function SampleRegistration(): Registration {
    Registration(Some("Jean"), Some("Dupont"), Some("jean@test.com"), Some("1998-03-22"),
                 Some("Paris"), Some("75001"))
  }

  lemma SampleNamesAccepted()
    ensures IsFormName(Some("Jean")) && IsFormName(Some("Dupont")) && IsFormName(Some("Paris"))
  {
    assert !IsSpace("Jean"[0]) && !IsSpace("Dupont"[0]) && !IsSpace("Paris"[0]);
  }

  lemma SampleEmailAccepted()
    ensures HasAddressShape("jean@test.com")
  {
    var s := "jean@test.com";
    assert s[4] == '@' && s[9] == '.';
    assert PlainRun(s, 0, 4) && PlainRun(s, 5, 9) && PlainRun(s, 10, |s|);
    FormEmailIffAddressShape(s);
  }

  lemma SampleRegistrationAccepted(parse: string -> Option<Date>, today: Date)
    requires parse("1998-03-22") == Some(Date(1998, 3, 22))
    requires OnOrBefore(Date(2016, 3, 22), today)
    ensures ValidateForm(SampleRegistration(), parse, today)
  {
    SampleNamesAccepted();
    SampleEmailAccepted();
    assert IsFiveDigits("75001");
  }

  /** Each single bad field of the tests makes the form fail. */
  lemma SampleRegistrationBadField(parse: string -> Option<Date>, today: Date)
    ensures !ValidateForm(SampleRegistration().(postalCode := Some("123")), parse, today)
    ensures !ValidateForm(SampleRegistration().(firstName := Some("123")), parse, today)
    ensures !ValidateForm(SampleRegistration().(city := Some("123")), parse, today)
  {
    assert !IsFiveDigits("123") && !IsFormNameChar("123"[0]);
  }

  lemma SampleRegistrationBadLastName(parse: string -> Option<Date>, today: Date)
    ensures !ValidateForm(SampleRegistration().(lastName := Some("<script>")), parse, today)
  {
    assert !IsFormNameChar("<script>"[0]);
  }

  lemma SampleRegistrationBadEmail(parse: string -> Option<Date>, today: Date)
    ensures !ValidateForm(SampleRegistration().(email := Some("pasunmail")), parse, today)
  {
    var s := "pasunmail";
    forall i | 0 <= i < |s| ensures s[i] != '@' { }
    assert !HasAddressShape(s);
  }

  lemma SampleRegistrationMinor(parse: string -> Option<Date>, today: Date)
    requires parse("2015-01-01") == Some(Date(2015, 1, 1))
    requires OnOrBefore(today, Date(2032, 12, 31))
    ensures !ValidateForm(SampleRegistration().(birthDate := Some("2015-01-01")), parse, today)
  {
  }
}
