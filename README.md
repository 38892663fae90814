# Registration validators, modelled in Dafny

The repository validates user registrations (age, French postal code, names,
email, city) in two independent JavaScript variants:

- `validator.js`, the **strict** validator. Structurally bad input (absent,
  of the wrong type, blank) makes a call throw an `Error` whose message is a
  code (`INVALID_DATE`, `FUTURE_DATE`, `INVALID_INPUT`). Well-typed input that
  breaks a rule gets `{valid: false, error: {code, message}}`
  (`AGE_UNDER_18`, `INVALID_FORMAT`, `XSS_DETECTED`, `INVALID_CHARACTERS`).
  Otherwise it gets `{valid: true, ...}` echoing the validated value.
- `my-app/src/validator.js`, the **form** validator. It never throws on absent
  or blank text; every failure is `{valid: false, error}` with a fixed French
  message. `validateForm` chains the six field checks into one boolean.

Every function of both files is pure, so the model is made of datatypes,
functions and lemmas:

- `js_text.dfy` (`JsText`): the parts of JavaScript the validators rely on,
  written over `seq<char>`. It covers the `\s`, `\d` and `\w` classes,
  `trim`, the `i` flag on ASCII patterns, and substring search. It also
  gives the decimal printing of an age and the outline of an address.
- `calendar.dfy` (`Calendar`): calendar days and the whole-years age rule.
  The rule is checked against an independent definition, the number of
  birthday anniversaries reached.
- `injection.dfy` (`Injection`): the nine XSS signatures, each written as a
  predicate. Both variants share them.
- `strict_validator.dfy` (`StrictValidator`): `validator.js`. The result
  type is `Outcome = Raise(code) | Invalid(error, detail) | Valid(value)`.
- `form_validator.dfy` (`FormValidator`): `my-app/src/validator.js`. The
  result type is `Verdict = Accepted | Rejected(message)`.
- `variants.dfy` (`Variants`): where the two variants agree and where they
  differ.

The central derived fact holds for both variants. Every text that matches an
XSS signature contains one of `<`, `:`, `=`, `%`, `&`, `(`, and none of these
is a name character. So the XSS pre-check only decides *which* error a
rejected name gets, never *whether* a name is accepted. The acceptance
clauses of `StrictValidator.ValidateIdentity` and `FormValidator.ValidateName`
state this; they do not mention the signatures.

## Model

| member | source | states |
|---|---|---|
| JsText.MatchesAtIffCaseless | validator.js:138-146 | Under the `i` flag, a pattern literal without capitals matches text at a position exactly when each text character is either the literal's character itself, or, for a lower-case ASCII letter, its own capital (32 code points below). No other character matches. |
| JsText.TrimEmptyIffAllSpace | validator.js:92 | `s.trim() === ''` holds exactly when every character of `s` is JavaScript white space, the empty string included. |
| JsText.DecimalString | validator.js:65 | The age printed in the message is a non-empty string of decimal digits that reads back as the same number, with no leading zero unless the age is 0. So the text is the canonical decimal. |
| Calendar.AgeIsCompletedYears | validator.js:51-57 | The age computed from year, month and day differences is the number of birthday anniversaries reached by today. |
| Calendar.CompletedYearsUnique | validator.js:51-57 | At most one count of whole years fits a birth and a day, so the reference definition determines the age. |
| Calendar.AgeAtLeast | validator.js:51-57 | The age is at least `n` exactly when the `n`-th anniversary is on or before today. |
| Calendar.AgeNegativeIffFuture | validator.js:45-57 | The computed age is negative exactly for a birth after today. |
| Calendar.AgeAntitone | validator.js:51-57 | A later birth never gives a greater age. |
| Calendar.EighteenthBirthday | validator.js:51-59 | Born exactly 18 years before today gives age 18. The age is at least 18 exactly for births on or before that day. |
| Calendar.NextDay | validator.test.js:54-58 | The day after a real day is a real day strictly after it, with no real day in between. That includes the roll-over past the end of a month or a year, as `new Date(y, m, d + 1)` does. |
| Calendar.EighteenYearsBackExists | validator.test.js:15-21 | On every real day except 29 February, the day with the same month and day 18 years earlier is a real day. |
| Calendar.LeapDayHasNoEighteenYearsBack | validator.test.js:15-21 | In a leap year, 29 February is a real day, but the same month and day 18 years earlier is not. |
| Calendar.LeapDayBirthday | validator.test.js:62-73 | A 29 February birth ages on 1 March, not on 28 February, in a later year. |
| Injection.SignatureHasMarkupChar | validator.js:137-147 | A text matching any one signature contains `<`, `:`, `=`, `%`, `&` or `(`. |
| Injection.AnySignatureHasMarkupChar | validator.js:149-159 | A text caught by the scan over a pattern list contains one of those characters. |
| Injection.TagIffOpenThenClose | validator.js:138 | `/<[^>]*>/` matches exactly the texts with a `<` followed somewhere later by a `>`. |
| StrictValidator.ValidateAge | validator.js:32-74 | `INVALID_DATE` is thrown exactly for a missing, non-Date or invalid Date argument, and `FUTURE_DATE` exactly for a real date after today; nothing else is thrown. A valid outcome carries an age of at least 18 that is the number of anniversaries reached. An invalid outcome has code `AGE_UNDER_18`, that age between 0 and 17, and the message naming it. |
| StrictValidator.AgeAcceptance | validator.js:51-73 | A real date on or before today never throws, and it is valid exactly when the 18th anniversary has been reached. |
| StrictValidator.EighteenYearsBoundary | validator.test.js:15-59 | On a real day other than 29 February, the day 18 years back exists. Born on it: valid with age 18. Born on the real day after it (the 1st of the next month at a month's end): `AGE_UNDER_18` with age 17 and its message. |
| StrictValidator.EighteenYearsBoundaryOnLeapDay | validator.test.js:15-21 | On 29 February of a leap year, the day 18 years back does not exist. The date JavaScript builds for it instead, 1 March, gets `AGE_UNDER_18` with age 17. So the source's test of the 18-year boundary would fail on that day (see Findings). |
| StrictValidator.LeapDayBirthsAccepted | validator.test.js:62-73 | 29 February 2000 and 29 February 2004 are accepted on every day from 1 March 2022. |
| StrictValidator.ValidatePostalCode | validator.js:83-112 | `INVALID_INPUT` is thrown exactly for a missing, non-string or white-space-only code. Otherwise the code is valid exactly when it is five ASCII digits, and the valid outcome echoes it. Any other string gets `INVALID_FORMAT` with the five-digit message. |
| StrictValidator.PostalCodeAccepted | validator.test.js:110-125 | 75001 and 01000 are valid and echoed. |
| StrictValidator.PostalCodeRejected | validator.test.js:137-163 | 7500, 750001, 7500A, 75-001 and "75 001" get `INVALID_FORMAT`. |
| StrictValidator.PostalCodeRaises | validator.test.js:165-190 | The empty string, a blank string, an absent code and a non-string each throw `INVALID_INPUT`. |
| StrictValidator.MarkupIsNotName | validator.js:162 | A text with a markup character fails the name class. |
| StrictValidator.ValidateIdentity | validator.js:122-189 | `INVALID_INPUT` is thrown exactly when either name is missing, not a string or blank. Otherwise both names are valid exactly when they are in the name class, whatever the XSS scan does, and the valid outcome echoes both. Each invalid outcome is characterised exactly, both ways. `XSS_DETECTED` is given exactly when either name matches a signature. The first-name message is given exactly when there is no match and the first name is outside the class. The last-name message is given exactly when there is no match, the first name is in the class and the last name is not. |
| StrictValidator.XssRejectsOnlyNonNames | validator.js:136-182 | A pair of names the XSS scan flags would have failed the class check anyway. |
| StrictValidator.XssReportedBeforeCharacters | validator.js:149-159 | A signature in either name is reported as `XSS_DETECTED`, whatever characters either name holds. |
| StrictValidator.FirstNameCheckedFirst | validator.js:164-182 | Without a signature, a bad first name gets the first-name message. The last-name message is given only when the first name is good. |
| StrictValidator.NoMarkupNoXss | validator.js:137-159 | A text without a markup character matches no signature. |
| StrictValidator.IdentityAccepted | validator.test.js:195-200 | Jean Dupont is valid and both names are echoed. |
| StrictValidator.IdentityAcceptedAccents | validator.test.js:222-225 | Bérénice Çağlar is valid. |
| StrictValidator.IdentityBadFirstName | validator.test.js:229-233 | Jean123 Dupont gets `INVALID_CHARACTERS` with the first-name message. |
| StrictValidator.IdentityBadLastName | validator.test.js:240-243 | Jean Dupont123 gets `INVALID_CHARACTERS` with the last-name message. |
| StrictValidator.IdentityScriptTag | validator.test.js:247-251 | A script tag in the first name gets `XSS_DETECTED`. |
| StrictValidator.IdentityEventHandler | validator.test.js:259-263 | `onclick=` in the first name gets `XSS_DETECTED`. |
| StrictValidator.IdentityScriptScheme | validator.test.js:265-269 | `javascript:` in the first name gets `XSS_DETECTED`. |
| StrictValidator.IdentityEncodedInLastName | validator.js:149-159 | `%3Cscript%3E` as the last name gets `XSS_DETECTED` even when the first name has digits. |
| StrictValidator.IdentityRaises | validator.test.js:278-297 | A missing name or an empty name throws `INVALID_INPUT`. |
| StrictValidator.ValidateEmail | validator.js:198-227 | `INVALID_INPUT` is thrown exactly for a missing, non-string or blank address. Otherwise the address is valid exactly when it is a local part, one `@`, and a domain of two or more labels; the valid outcome echoes it. Any other string gets `INVALID_FORMAT` with the invalid-format message. |
| StrictValidator.LabelTailIffSplit | validator.js:211 | `(?:\.label)+` matches exactly a dot followed by dot-separated labels. |
| StrictValidator.DomainIffLabels | validator.js:211 | The domain part of the pattern matches exactly when `split('.')` gives two or more parts, each a label of 1 to 63 letters, digits and hyphens that neither starts nor ends with a hyphen. |
| StrictValidator.EmailAddressShape | validator.js:211 | An accepted address has no white space, a single `@` with something before it, a dot inside the domain, and no angle bracket. |
| StrictValidator.AddressNeedsDot | validator.js:211 | A text without a dot is never an address. |
| StrictValidator.EmailAccepted | validator.test.js:312-316 | user@example.com is valid and echoed. |
| StrictValidator.EmailAcceptedSubdomains | validator.test.js:343-347 | user@example.co.uk is valid and echoed. |
| StrictValidator.EmailWithoutAt | validator.test.js:351-355 | userexample.com gets `INVALID_FORMAT`. |
| StrictValidator.EmailWithoutDomain | validator.test.js:357-360 | `user@` gets `INVALID_FORMAT`. |
| StrictValidator.EmailWithoutTopLevelLabel | validator.test.js:367-370 | user@example gets `INVALID_FORMAT`. |
| StrictValidator.EmailWithSpace | validator.test.js:372-375 | An address with a space gets `INVALID_FORMAT`. |
| StrictValidator.EmailWithTwoAts | validator.test.js:377-380 | An address with two `@` gets `INVALID_FORMAT`. |
| StrictValidator.EmailWithMarkup | validator.test.js:382-385 | An address with `<script>` gets `INVALID_FORMAT`. |
| FormValidator.ValidateAge | my-app/src/validator.js:4-26 | "La date de naissance est requise" is given exactly for an absent or empty value, and "Date de naissance invalide" exactly for text that does not parse. "Vous devez avoir au moins 18 ans" is given exactly when the 18th anniversary of the parsed date is after today. Otherwise the date is accepted. |
| FormValidator.FutureBirthTooYoung | my-app/src/validator.js:14-23 | A birth after today gets the under-18 message. There is no separate future check. |
| FormValidator.EighteenTodayAccepted | my-app/src/validator.test.js:11-18 | Born exactly 18 years before today is accepted. |
| FormValidator.ValidatePostalCode | my-app/src/validator.js:29-40 | "Le code postal est requis" is given exactly for an absent or white-space-only code. "Le code postal doit contenir 5 chiffres" is given for anything else that is not five ASCII digits. The code is accepted exactly when it is five digits. |
| FormValidator.UnsafeIsNotFormName | my-app/src/validator.js:48-58 | A text matching the form's injection pattern fails the form's name class. |
| FormValidator.ValidateName | my-app/src/validator.js:43-61 | "Ce champ est requis" is given exactly for an absent or blank name. "Caracteres non autorisés" is given exactly for a non-blank name matching the injection pattern. "Le nom ne doit contenir que des lettres" is given exactly for the other names outside the class. A name is accepted exactly when it is non-blank and in `[a-zA-ZÀ-ÿ\s'-]+`, independently of the injection pattern. |
| FormValidator.ValidateCity | my-app/src/validator.js:78-89 | "La ville est requise" is given exactly for an absent or blank city, and "Nom de ville invalide" for one outside the name class. Otherwise the city is accepted. |
| FormValidator.CityAcceptsAsName | my-app/src/validator.js:77-89 | A city is accepted exactly when the same text is accepted as a name, although the city check has no injection pre-check. |
| FormValidator.FormEmailIffAddressShape | my-app/src/validator.js:69 | `/^[^\s@]+@[^\s@]+\.[^\s@]+$/` matches exactly the texts with no white space, a single `@` that is not first, and a dot after it with a character on each side. |
| FormValidator.ValidateEmail | my-app/src/validator.js:64-75 | "L'email est requis" is given exactly for an absent or blank address, and "L'email n'est pas valide" exactly for a non-blank one without the address outline. The address is accepted exactly when it has that outline. |
| FormValidator.ValidateForm | my-app/src/validator.js:91-112 | The form is valid exactly when the age, postal code, first name, last name, email and city would each be accepted. |
| FormValidator.EmptyRecordRejected | my-app/src/validator.js:92-94 | A record with every field absent is invalid. |
| FormValidator.FutureBirthFailsForm | my-app/src/validator.js:92-94 | A record whose birth date is after today is invalid, whatever its other fields. |
| FormValidator.AgeExamples | my-app/src/validator.test.js:5-38 | With the tests' dates: 1998-03-22 is accepted in 2026; 2016-01-01 is too young; unparsable text is invalid; empty and absent values are required. |
| FormValidator.PostalCodeExamples | my-app/src/validator.test.js:43-67 | 75001 and 97400 are accepted; empty and absent codes are required. |
| FormValidator.PostalCodeFormatExamples | my-app/src/validator.test.js:52-71 | 7500, 7500A and "75 001" get the five-digit message. |
| FormValidator.NameAccepted | my-app/src/validator.test.js:77-83 | Jean and Hélène are accepted. |
| FormValidator.NamePunctuationAccepted | my-app/src/validator.test.js:85-91 | Jean-Pierre and O'Brien are accepted. |
| FormValidator.NameDigitsRejected | my-app/src/validator.test.js:93-95 | Jean123 gets the letters-only message. |
| FormValidator.NameSymbolsRejected | my-app/src/validator.test.js:114-116 | Jean@! gets the letters-only message. |
| FormValidator.NameScriptTagRejected | my-app/src/validator.test.js:105-108 | A script tag gets the injection message. |
| FormValidator.NameEncodedRejected | my-app/src/validator.test.js:110-112 | `%3Cscript%3E` gets the injection message. |
| FormValidator.NameMissingRejected | my-app/src/validator.test.js:97-103 | Empty and absent names are required. |
| FormValidator.EmailAccepted | my-app/src/validator.test.js:122-124 | jean@gmail.com is accepted. |
| FormValidator.EmailWithDotsAccepted | my-app/src/validator.test.js:126-128 | jean.dupont@test.fr is accepted. |
| FormValidator.EmailWithoutAtRejected | my-app/src/validator.test.js:130-132 | jeangmail.com gets the invalid-address message. |
| FormValidator.EmailWithoutDomainRejected | my-app/src/validator.test.js:134-136 | `jean@` gets the invalid-address message. |
| FormValidator.EmailMissingRejected | my-app/src/validator.test.js:138-144 | Empty and absent addresses are required. |
| FormValidator.CityAccepted | my-app/src/validator.test.js:150-156 | Paris and Saint-Étienne are accepted. |
| FormValidator.CityRejected | my-app/src/validator.test.js:158-168 | Paris75 gets the invalid-city message; empty and absent cities are required. |
| FormValidator.SampleRegistrationAccepted | my-app/src/validator.test.js:174-185 | The tests' record is valid on every day from 22 March 2016. |
| FormValidator.SampleRegistrationMinor | my-app/src/validator.test.js:187-189 | The record with a 2015 birth is invalid on every day up to the end of 2032. |
| FormValidator.SampleRegistrationBadField | my-app/src/validator.test.js:191-209 | The record with postal code, first name or city "123" is invalid. |
| FormValidator.SampleRegistrationBadLastName | my-app/src/validator.test.js:199-201 | The record with last name `<script>` is invalid. |
| FormValidator.SampleRegistrationBadEmail | my-app/src/validator.test.js:203-205 | The record with email "pasunmail" is invalid. |
| Variants.FormNameCharIsStrict | my-app/src/validator.js:55 | Every character of the form's name class is in the strict name class. |
| Variants.FormNamesPassStrict | validator.js:122-189 | Names the form accepts pass `validateIdentity` and are echoed. |
| Variants.ExtendedLatinOnlyStrict | validator.js:162 | Çağlar is a valid strict name but gets the form's letters-only message: the form's class stops at U+00FF. |
| Variants.FormCityPassesStrictName | my-app/src/validator.js:83 | A city the form accepts passes the strict name check. |
| Variants.StrictEmailPassesForm | validator.js:211 | Every address the strict validator accepts, the form accepts. |
| Variants.HyphenLabelOnlyForm | my-app/src/validator.js:69 | user@-example.com is accepted by the form and gets `INVALID_FORMAT` from the strict validator. |
| Variants.PostalCodesAgree | my-app/src/validator.js:29-40 | Both variants accept the same postal codes. The form's "required" message is given exactly where the strict validator throws. |
| Variants.AgesAgree | my-app/src/validator.js:14-25 | On a parsed date, the form accepts exactly when the strict validator returns a valid age. A future date, on which the strict validator throws, gets the form's under-18 message. |
| Variants.UnparsableDate | my-app/src/validator.js:9-12 | Unparsable text gets the form's invalid-date message; the Invalid Date it yields makes the strict validator throw `INVALID_DATE`. |

## Left out

- Date parsing is not modelled. `new Date(string)`, its UTC-versus-local handling and `instanceof Date` are outside the model. The form validator receives the parser as a function `parse` (`None` for a NaN time). The strict validator receives an already-built value: `Given(Some(date))`, `Given(None)` for an Invalid Date, or `WrongType`.
- The clock is not modelled: `new Date()` for today is a parameter `today`.
- StrictValidator.ValidateAge: the future check compares whole days, while the source compares timestamps (validator.js:46). A birth later on the current day is therefore not a future date in the model.
- Strings are sequences of Unicode scalar values, while JavaScript strings are UTF-16 code units. The patterns still give the same answers. Each positive class admits only characters of the Basic Multilingual Plane, and none admits a surrogate. The negated classes `[^>]` (validator.js:138, my-app/src/validator.js:49) and `[^\s@]` (my-app/src/validator.js:69) do admit a character outside that plane. Such a character is two code units, both inside the negated class, and those runs need only be non-empty. Lone surrogates, which a JavaScript string can hold, are not representable as a Dafny `char`, so strings containing one are not modelled.
- StrictValidator: numbers, objects and arrays passed where a string or Date is expected are all `WrongType`. The source treats them alike.
- FormValidator: a non-string truthy field crashes on `.trim` (my-app/src/validator.js:30, 44, 65, 79), and `validateForm(null)` crashes on `data.birthDate` (my-app/src/validator.js:93). Fields are typed `Option<string>`, and the record is never null.
- FormValidator.ValidateAge: among falsy values, only an absent value and the empty string are modelled. Other falsy values cannot be a form field.
- my-app/src/App.js, my-app/src/Home.js and my-app/src/UserContext.js are not part of this model: they hold React state, rendering and localStorage.
- my-app/src/api/userService.js is not part of this model: it makes HTTP calls.

## Findings

| source | as written | input that shows it | evidently intended | confidence | as-written member | corrected member |
|---|---|---|---|---|---|---|
| validator.test.js:15-21 | The test builds the birth date `new Date(y - 18, m, d)` from today's date and expects a valid outcome with age 18. | Today is 29 February 2024. `new Date(2006, 1, 29)` rolls over to 1 March 2006, and validator.js:51-57 gives age 17. | A person exactly 18 today is accepted. That is only well defined on days whose date exists 18 years back. | high, not executed | StrictValidator.EighteenYearsBoundaryOnLeapDay | StrictValidator.EighteenYearsBoundary |
