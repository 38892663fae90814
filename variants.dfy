/** How the two validators of the repository relate: which inputs one
    accepts and the other refuses, and where they agree. */
module Variants {
  import opened JsText
  import opened Calendar
  import opened Injection
  import S = StrictValidator
  import F = FormValidator

  /** A form field read as an argument of the strict validator: an absent
      property is `undefined`. */
  function AsArg(x: Option<string>): (a: S.Arg<string>)
    ensures a.Given? <==> x.Some?
    ensures a.Given? ==> a.value == x.value
  {
    match x
    case None => S.Missing
    case Some(s) => S.Given(s)
  }

  /** The form's name class lies inside the strict one. */
  lemma FormNameCharIsStrict(c: char)
    requires F.IsFormNameChar(c)
    ensures S.IsNameChar(c)
  {
  }

  /** Every pair of names the form accepts passes `validateIdentity` unchanged. */
  lemma FormNamesPassStrict(firstName: string, lastName: string)
    requires F.IsFormName(Some(firstName)) && F.IsFormName(Some(lastName))
    ensures S.ValidateIdentity(S.Given(firstName), S.Given(lastName))
              == S.Valid(S.Identity(firstName, lastName))
  {
    assert S.IsNameText(firstName) && S.IsNameText(lastName);
  }

  /** The converse fails: the strict class also covers Latin Extended-A, the
      form's stops at U+00FF. */
  lemma ExtendedLatinOnlyStrict()
    ensures S.ValidateIdentity(S.Given("Çağlar"), S.Given("Dupont")).Valid?
    ensures F.ValidateName(Some("Çağlar")) == F.Rejected(F.NameLettersOnly)
  {
    var s := "Çağlar";
    assert !IsSpace(s[0]) && !IsSpace("Dupont"[0]);
    assert S.IsNameText(s);
    assert forall i :: 0 <= i < |s| ==> !IsMarkupChar(s[i]);
    if MatchesAny(F.FormPatterns, s) {
      AnySignatureHasMarkupChar(F.FormPatterns, s);
    }
    assert !F.IsFormNameChar(s[2]);
  }

  /** Names and cities: the form accepts exactly what it would accept as a
      name, so a city the form accepts passes the strict name check too. */
  lemma FormCityPassesStrictName(city: string)
    requires F.ValidateCity(Some(city)).Accepted?
    ensures S.ValidateIdentity(S.Given(city), S.Given(city)).Valid?
  {
    FormNamesPassStrict(city, city);
  }

  /** Every address the strict validator accepts, the form accepts. */
  lemma StrictEmailPassesForm(email: string)
    requires S.ValidateEmail(S.Given(email)).Valid?
    ensures F.ValidateEmail(Some(email)) == F.Accepted
  {
    S.EmailAddressShape(email);
  }

  /** The form takes "user@-example.com". */
  lemma HyphenLabelFormAccepts(email: string)
    requires email == "user@-example.com"
    ensures F.ValidateEmail(Some(email)) == F.Accepted
  {
    assert email[4] == '@' && email[13] == '.';
    assert F.PlainRun(email, 0, 4) && F.PlainRun(email, 5, 13) && F.PlainRun(email, 14, |email|);
    F.FormEmailIffAddressShape(email);
  }

  /** The strict validator refuses it: no label may start with '-'. */
  lemma HyphenLabelStrictRefuses(email: string)
    requires email == "user@-example.com"
    ensures S.ValidateEmail(S.Given(email)).Invalid?
  {
    forall a | 1 <= a < |email| && email[a] == '@'
      ensures !S.IsDomain(email[a + 1..])
    {
      assert a == 4;
      var d := email[a + 1..];
      forall k | 1 <= k < |d| ensures !S.IsLabel(d[..k]) {
        assert d[..k][0] == '-';
      }
    }
    assert !IsSpace(email[0]);
  }

  /** The converse of `StrictEmailPassesForm` fails: the form does not look
      at domain labels, so a label starting with '-' gets through. */
  lemma HyphenLabelOnlyForm()
    ensures F.ValidateEmail(Some("user@-example.com")) == F.Accepted
    ensures S.ValidateEmail(S.Given("user@-example.com")).Invalid?
  {
    HyphenLabelFormAccepts("user@-example.com");
    HyphenLabelStrictRefuses("user@-example.com");
  }

  /** The postal-code checks agree on every form field: the same codes are
      accepted, and the form's "required" message is exactly the strict
      validator's thrown error. */
  lemma PostalCodesAgree(postalCode: Option<string>)
    ensures F.ValidatePostalCode(postalCode).Accepted? <==> S.ValidatePostalCode(AsArg(postalCode)).Valid?
    ensures F.ValidatePostalCode(postalCode) == F.Rejected(F.PostalCodeRequired) <==>
              S.ValidatePostalCode(AsArg(postalCode)).Raise?
  {
  }

  /** The age rules agree on a parsed date: the form accepts exactly when the
      strict validator returns a valid age, and a future birth, which the
      strict validator throws on, gets the form's under-18 message. */
  lemma AgesAgree(birthDate: string, parse: string -> Option<Date>, today: Date)
    requires birthDate != "" && parse(birthDate).Some?
    ensures F.ValidateAge(Some(birthDate), parse, today).Accepted? <==>
              S.ValidateAge(S.Given(parse(birthDate)), today).Valid?
    ensures S.ValidateAge(S.Given(parse(birthDate)), today) == S.Raise(S.FutureDate) ==>
              F.ValidateAge(Some(birthDate), parse, today) == F.Rejected(F.TooYoung)
  {
    var d := parse(birthDate).value;
    if OnOrBefore(d, today) {
      S.AgeAcceptance(d, today);
    } else {
      F.FutureBirthTooYoung(birthDate, parse, today);
    }
  }

  /** A text that does not parse: the form reports it, the strict validator
      throws on the Invalid Date it would be given. */
  lemma UnparsableDate(birthDate: string, parse: string -> Option<Date>, today: Date)
    requires birthDate != "" && parse(birthDate).None?
    ensures F.ValidateAge(Some(birthDate), parse, today) == F.Rejected(F.BirthDateInvalid)
    ensures S.ValidateAge(S.Given(parse(birthDate)), today) == S.Raise(S.InvalidDate)
  {
  }
}
