/** The strict validator (validator.js): structurally bad input (absent, of
    the wrong type, blank) makes a call throw an error carrying a code;
    well-typed input that breaks a rule gets `{valid: false, error}`. */
module StrictValidator {
  import opened JsText
  import opened Calendar
  import opened Injection

  /** The codes of thrown errors and of reported errors. */
  datatype Code =
    | InvalidDate | FutureDate | InvalidInput
    | AgeUnder18 | InvalidFormat | XssDetected | InvalidCharacters

  /** `{code, message}` of an invalid outcome. */
  datatype ValidationError = ValidationError(code: Code, message: string)

  /** A JavaScript argument: absent (`null` or `undefined`), of the wrong type
      (`typeof` is not "string", or not `instanceof Date`), or a value of the
      expected type. */
  datatype Arg<+T> = Missing | WrongType | Given(value: T)

  /** What a call does: throws `new Error(code)`; returns `{valid: false, error}`,
      which for the age check also carries the computed age as `detail`; or
      returns `{valid: true}` with the validated value. An outcome is never
      both valid and in error. */
  datatype Outcome<+T> =
    | Raise(code: Code)
    | Invalid(error: ValidationError, detail: Option<T>)
    | Valid(value: T)

  /** The validated names of `validateIdentity`. */
  datatype Identity = Identity(firstName: string, lastName: string)

  // ---------------------------------------------------------------------------
  // validateAge

  function AgeMessage(age: nat): string {
    "L'utilisateur a " + DecimalString(age) + " ans. L'âge minimum requis est de 18 ans."
  }

  /** A Date argument holding a valid date. A Date object whose time is NaN
      is `Given(None)`. */
  predicate IsRealDate(birthDate: Arg<Option<Date>>) {
    birthDate.Given? && birthDate.value.Some?
  }

  /** `validateAge(birthDate)` on the day `today`. */
  function ValidateAge(birthDate: Arg<Option<Date>>, today: Date): (r: Outcome<int>)
    ensures r.Raise? ==> r.code == InvalidDate || r.code == FutureDate
    ensures r == Raise(InvalidDate) <==> !IsRealDate(birthDate)
    ensures r == Raise(FutureDate) <==>
              IsRealDate(birthDate) && !OnOrBefore(birthDate.value.value, today)
    ensures r.Valid? ==>
              IsRealDate(birthDate) && r.value >= 18
              && CompletedYears(birthDate.value.value, r.value, today)
    ensures r.Invalid? ==>
              IsRealDate(birthDate) && r.error.code == AgeUnder18
              && r.detail.Some? && 0 <= r.detail.value < 18
              && CompletedYears(birthDate.value.value, r.detail.value, today)
              && r.error.message == AgeMessage(r.detail.value)
  {
    match birthDate
    case Missing => Raise(InvalidDate)
    case WrongType => Raise(InvalidDate)
    case Given(None) => Raise(InvalidDate)
    case Given(Some(birth)) =>
      if !OnOrBefore(birth, today) then Raise(FutureDate)
      else
        var age := AgeOn(birth, today);
        AgeIsCompletedYears(birth, today);
        AgeNegativeIffFuture(birth, today);
        if age < 18 then Invalid(ValidationError(AgeUnder18, AgeMessage(age)), Some(age))
        else Valid(age)
  }

  /** A real date on or before today is valid exactly when its eighteenth
      anniversary has been reached, and the valid outcome carries the age. */
  lemma AgeAcceptance(birth: Date, today: Date)
    requires OnOrBefore(birth, today)
    ensures (ValidateAge(Given(Some(birth)), today).Valid?
             <==> OnOrBefore(Anniversary(birth, 18), today))
    ensures !ValidateAge(Given(Some(birth)), today).Raise?
  {
    AgeAtLeast(birth, today, 18);
  }

  /** Born exactly eighteen years ago today: valid, aged 18. Born on the
      next real day: invalid, aged 17. On any day but 29 February, the day
      eighteen years back exists, so it is the birth date
      `new Date(y - 18, m, d)` builds, and `new Date(y - 18, m, d + 1)` is the
      day after it. */
  lemma EighteenYearsBoundary(today: Date)
    requires IsCalendarDay(today) && !(today.month == 2 && today.day == 29)
    ensures IsCalendarDay(Anniversary(today, -18))
    ensures ValidateAge(Given(Some(Anniversary(today, -18))), today) == Valid(18)
    ensures IsCalendarDay(NextDay(Anniversary(today, -18)))
    ensures ValidateAge(Given(Some(NextDay(Anniversary(today, -18)))), today)
              == Invalid(ValidationError(AgeUnder18, AgeMessage(17)), Some(17))
  {
    EighteenYearsBackExists(today);
  }

  /** On 29 February, eighteen years back is a common year, so that day does
      not exist and `new Date(y - 18, 1, 29)` rolls over to 1 March: the
      person it describes is 17, and is refused. */
  lemma EighteenYearsBoundaryOnLeapDay(year: int)
    requires IsLeapYear(year)
    ensures IsCalendarDay(Date(year, 2, 29))
    ensures !IsCalendarDay(Anniversary(Date(year, 2, 29), -18))
    ensures ValidateAge(Given(Some(Date(year - 18, 3, 1))), Date(year, 2, 29))
              == Invalid(ValidationError(AgeUnder18, AgeMessage(17)), Some(17))
  {
    LeapDayHasNoEighteenYearsBack(year);
  }

  /** Someone born on 29 February 2000 or 2004 is accepted on every day from
      1 March 2022, leap year or not. */
  lemma LeapDayBirthsAccepted(today: Date)
    requires OnOrBefore(Date(2022, 3, 1), today)
    ensures ValidateAge(Given(Some(Date(2000, 2, 29))), today).Valid?
    ensures ValidateAge(Given(Some(Date(2004, 2, 29))), today).Valid?
  {
    AgeAcceptance(Date(2000, 2, 29), today);
    AgeAcceptance(Date(2004, 2, 29), today);
  }

  // ---------------------------------------------------------------------------
  // validatePostalCode

  const PostalCodeMessage: string := "Le code postal doit contenir exactement 5 chiffres."

  /** `validatePostalCode(postalCode)`. */
  function ValidatePostalCode(postalCode: Arg<string>): (r: Outcome<string>)
    ensures r.Raise? <==> !postalCode.Given? || AllSpace(postalCode.value)
    ensures r.Raise? ==> r.code == InvalidInput
    ensures r.Invalid? ==> r.error == ValidationError(InvalidFormat, PostalCodeMessage) && r.detail.None?
    ensures r.Valid? <==> postalCode.Given? && IsFiveDigits(postalCode.value)
    ensures r.Valid? ==> r.value == postalCode.value
  {
    match postalCode
    case Missing => Raise(InvalidInput)
    case WrongType => Raise(InvalidInput)
    case Given(s) =>
      TrimEmptyIffAllSpace(s);
      assert IsFiveDigits(s) ==> !IsSpace(s[0]);
      if IsBlank(s) then Raise(InvalidInput)
      else if !IsFiveDigits(s) then
        Invalid(ValidationError(InvalidFormat, PostalCodeMessage), None)
      else Valid(s)
  }

  // ---------------------------------------------------------------------------
  // validateIdentity

  /** The signatures in the order the source tries them. */
  const XssPatterns: seq<Signature> :=
    [Tag, ScriptScheme, EventHandler, EncodedLt, EncodedGt, EntityLt, EntityGt, CssExpression, CssUrl]

  /** `[a-zA-ZÀ-ÿÀ-ɏḀ-ỿ\s'\-]` */
  predicate IsNameChar(c: char) {
    var n := c as int;
    IsAsciiLetter(c) || (0xC0 <= n <= 0xFF) || (0xC0 <= n <= 0x24F) || (0x1E00 <= n <= 0x1EFF)
    || IsSpace(c) || c == '\'' || c == '-'
  }

  /** `/^[...]+$/` over the name class. */
  predicate IsNameText(s: string) {
    |s| >= 1 && forall i :: 0 <= i < |s| ==> IsNameChar(s[i])
  }

  /** The loop over the pattern list: some pattern matches either name. */
  predicate DetectsXss(firstName: string, lastName: string) {
    MatchesAny(XssPatterns, firstName) || MatchesAny(XssPatterns, lastName)
  }

  const XssMessage: string := "Tentative d'injection XSS détectée."
  const FirstNameMessage: string := "Le prénom contient des caractères non autorisés."
  const LastNameMessage: string := "Le nom contient des caractères non autorisés."

  /** No character that a signature needs is a name character. */
  lemma MarkupIsNotName(s: string)
    requires HasMarkupChar(s)
    ensures !IsNameText(s)
  {
    var i :| 0 <= i < |s| && IsMarkupChar(s[i]);
    assert !IsNameChar(s[i]);
  }

  /** `validateIdentity(firstName, lastName)`. */
  function ValidateIdentity(firstName: Arg<string>, lastName: Arg<string>): (r: Outcome<Identity>)
    ensures r.Raise? <==>
              !firstName.Given? || !lastName.Given?
              || AllSpace(firstName.value) || AllSpace(lastName.value)
    ensures r.Raise? ==> r.code == InvalidInput
    ensures r.Invalid? ==>
              r.detail.None?
              && (r.error.code == XssDetected || r.error.code == InvalidCharacters)
    ensures r == Invalid(ValidationError(XssDetected, XssMessage), None) <==>
              firstName.Given? && lastName.Given?
              && !AllSpace(firstName.value) && !AllSpace(lastName.value)
              && DetectsXss(firstName.value, lastName.value)
    ensures r == Invalid(ValidationError(InvalidCharacters, FirstNameMessage), None) <==>
              firstName.Given? && lastName.Given?
              && !AllSpace(firstName.value) && !AllSpace(lastName.value)
              && !DetectsXss(firstName.value, lastName.value) && !IsNameText(firstName.value)
    ensures r == Invalid(ValidationError(InvalidCharacters, LastNameMessage), None) <==>
              firstName.Given? && lastName.Given?
              && !AllSpace(firstName.value) && !AllSpace(lastName.value)
              && !DetectsXss(firstName.value, lastName.value)
              && IsNameText(firstName.value) && !IsNameText(lastName.value)
    ensures r.Valid? <==>
              firstName.Given? && lastName.Given?
              && !AllSpace(firstName.value) && !AllSpace(lastName.value)
              && IsNameText(firstName.value) && IsNameText(lastName.value)
    ensures r.Valid? ==> r.value == Identity(firstName.value, lastName.value)
  {
    if firstName.Missing? || lastName.Missing? then Raise(InvalidInput)
    else if firstName.WrongType? || lastName.WrongType? then Raise(InvalidInput)
    else
      var f, l := firstName.value, lastName.value;
      TrimEmptyIffAllSpace(f);
      TrimEmptyIffAllSpace(l);
      if IsBlank(f) || IsBlank(l) then Raise(InvalidInput)
      else if DetectsXss(f, l) then
        XssRejectsOnlyNonNames(f, l);
        Invalid(ValidationError(XssDetected, XssMessage), None)
      else if !IsNameText(f) then Invalid(ValidationError(InvalidCharacters, FirstNameMessage), None)
      else if !IsNameText(l) then Invalid(ValidationError(InvalidCharacters, LastNameMessage), None)
      else Valid(Identity(f, l))
  }

  /** Whatever the scan detects would have failed the class check anyway: the
      XSS pre-check changes which error is reported, never whether the names
      are accepted. */
  lemma XssRejectsOnlyNonNames(firstName: string, lastName: string)
    requires DetectsXss(firstName, lastName)
    ensures !IsNameText(firstName) || !IsNameText(lastName)
  {
    if MatchesAny(XssPatterns, firstName) {
      AnySignatureHasMarkupChar(XssPatterns, firstName);
      MarkupIsNotName(firstName);
    } else {
      AnySignatureHasMarkupChar(XssPatterns, lastName);
      MarkupIsNotName(lastName);
    }
  }

  /** The scan covers both names before any class check: a signature in
      either name is reported as XSS, even when the other name, or the same
      one, fails the class. */
  lemma XssReportedBeforeCharacters(firstName: string, lastName: string)
    requires !AllSpace(firstName) && !AllSpace(lastName)
    requires DetectsXss(firstName, lastName)
    ensures ValidateIdentity(Given(firstName), Given(lastName))
              == Invalid(ValidationError(XssDetected, XssMessage), None)
  {
    TrimEmptyIffAllSpace(firstName);
    TrimEmptyIffAllSpace(lastName);
  }

  /** Without a signature, the first name's class is checked before the last name's. */
  lemma FirstNameCheckedFirst(firstName: string, lastName: string)
    requires !AllSpace(firstName) && !AllSpace(lastName)
    requires !DetectsXss(firstName, lastName)
    ensures !IsNameText(firstName) ==>
              ValidateIdentity(Given(firstName), Given(lastName))
                == Invalid(ValidationError(InvalidCharacters, FirstNameMessage), None)
    ensures IsNameText(firstName) && !IsNameText(lastName) ==>
              ValidateIdentity(Given(firstName), Given(lastName))
                == Invalid(ValidationError(InvalidCharacters, LastNameMessage), None)
  {
    TrimEmptyIffAllSpace(firstName);
    TrimEmptyIffAllSpace(lastName);
  }

  // ---------------------------------------------------------------------------
  // validateEmail

  /** `[a-zA-Z0-9.!#$%&'*+/=?^_`{|}~-]` */
  predicate IsLocalChar(c: char) {
    IsAlnum(c) || c in ".!#$%&'*+/=?^_`{|}~-"
  }

  predicate IsLocalPart(s: string) {
    |s| >= 1 && forall i :: 0 <= i < |s| ==> IsLocalChar(s[i])
  }

  predicate IsLabelChar(c: char) {
    IsAlnum(c) || c == '-'
  }

  /** `[a-zA-Z0-9](?:[a-zA-Z0-9-]{0,61}[a-zA-Z0-9])?`: 1 to 63 letters, digits
      and hyphens, starting and ending with a letter or digit. */
  predicate IsLabel(l: string) {
    1 <= |l| <= 63 && IsAlnum(l[0]) && IsAlnum(l[|l| - 1])
    && forall i :: 0 <= i < |l| ==> IsLabelChar(l[i])
  }

  /** `(?:\.label)+` */
  predicate IsLabelTail(d: string)
    decreases |d|
  {
    |d| >= 2 && d[0] == '.'
    && exists k :: 2 <= k <= |d| && IsLabel(d[1..k]) && (k == |d| || IsLabelTail(d[k..]))
  }

  /** `label(?:\.label)+` */
  predicate IsDomain(d: string) {
    exists k :: 1 <= k < |d| && IsLabel(d[..k]) && IsLabelTail(d[k..])
  }

  /** The whole email pattern, anchored at both ends. */
  predicate IsEmailAddress(s: string) {
    exists a :: 1 <= a < |s| && s[a] == '@' && IsLocalPart(s[..a]) && IsDomain(s[a + 1..])
  }

  const EmailMessage: string := "Le format de l'email est invalide."

  /** `validateEmail(email)`. */
  function ValidateEmail(email: Arg<string>): (r: Outcome<string>)
    ensures r.Raise? <==> !email.Given? || AllSpace(email.value)
    ensures r.Raise? ==> r.code == InvalidInput
    ensures r.Invalid? ==> r.error == ValidationError(InvalidFormat, EmailMessage) && r.detail.None?
    ensures r.Valid? <==> email.Given? && IsEmailAddress(email.value)
    ensures r.Valid? ==> r.value == email.value
  {
    match email
    case Missing => Raise(InvalidInput)
    case WrongType => Raise(InvalidInput)
    case Given(s) =>
      TrimEmptyIffAllSpace(s);
      EmailAddressShape(s);
      assert IsEmailAddress(s) ==> !IsSpace(s[0]);
      if IsBlank(s) then Raise(InvalidInput)
      else if !IsEmailAddress(s) then
        Invalid(ValidationError(InvalidFormat, EmailMessage), None)
      else Valid(s)
  }

  /** The position of the first '.' of a text that has one. */
  function FirstDot(s: string): (k: nat)
    requires '.' in s
    ensures k < |s| && s[k] == '.' && forall i :: 0 <= i < k ==> s[i] != '.'
  {
    if s[0] == '.' then 0
    else
      assert '.' in s[1..] by { var i :| 0 <= i < |s| && s[i] == '.'; assert s[1..][i - 1] == '.'; }
      1 + FirstDot(s[1..])
  }

  /** `s.split('.')`. */
  function Split(s: string): (parts: seq<string>)
    ensures |parts| >= 1
    decreases |s|
  {
    if '.' !in s then [s]
    else
      var k := FirstDot(s);
      [s[..k]] + Split(s[k + 1..])
  }

  predicate AllLabels(parts: seq<string>) {
    forall i :: 0 <= i < |parts| ==> IsLabel(parts[i])
  }

  lemma LabelHasNoDot(l: string)
    requires IsLabel(l)
    ensures '.' !in l
  {
    forall i | 0 <= i < |l| ensures l[i] != '.' {
      assert IsLabelChar(l[i]);
    }
  }

  /** The reading of `(?:\.label)+` as "a dot, then dot-separated labels". */
  lemma LabelTailIffSplit(t: string)
    ensures IsLabelTail(t) <==> |t| >= 1 && t[0] == '.' && AllLabels(Split(t[1..]))
  {
    if IsLabelTail(t) {
      LabelTailSplits(t);
    }
    if |t| >= 1 && t[0] == '.' && AllLabels(Split(t[1..])) {
      SplitMakesLabelTail(t);
    }
  }

  lemma {:induction false} LabelTailSplits(t: string)
    requires IsLabelTail(t)
    ensures AllLabels(Split(t[1..]))
    decreases |t|
  {
    var k :| 2 <= k <= |t| && IsLabel(t[1..k]) && (k == |t| || IsLabelTail(t[k..]));
    if k == |t| {
      LabelHasNoDot(t[1..k]);
      assert t[1..] == t[1..k];
      assert Split(t[1..]) == [t[1..]];
    } else {
      LabelTailSplits(t[k..]);
      assert t[k..][1..] == t[k + 1..];
      assert t[k] == t[k..][0];
      SplitAfterLabel(t, k);
    }
  }

  /** A '.', a label up to `k`, then a '.' and dot-separated labels. */
  lemma SplitAfterLabel(t: string, k: int)
    requires 2 <= k < |t| && IsLabel(t[1..k]) && t[k] == '.' && AllLabels(Split(t[k + 1..]))
    ensures AllLabels(Split(t[1..]))
  {
    var u, l := t[1..], t[1..k];
    LabelHasNoDot(l);
    assert u[..k - 1] == l && u[k..] == t[k + 1..] && u[k - 1] == t[k];
    SplitAt(u, k - 1);
    ConsAllLabels(l, Split(u[k..]));
  }

  lemma {:induction false} SplitMakesLabelTail(t: string)
    requires |t| >= 1 && t[0] == '.' && AllLabels(Split(t[1..]))
    ensures IsLabelTail(t)
    decreases |t|
  {
    var u := t[1..];
    if '.' !in u {
      assert Split(u) == [u];
      assert IsLabel(u) by { assert Split(u)[0] == u; }
      assert t[1..|t|] == u;
    } else {
      var j := FirstDot(u);
      UnconsAllLabels(u[..j], Split(u[j + 1..]));
      var k := j + 1;
      assert t[1..k] == u[..j];
      assert t[k..][1..] == u[j + 1..];
      SplitMakesLabelTail(t[k..]);
    }
  }

  /** The domain pattern read as "two or more dot-separated labels". */
  lemma DomainIffLabels(d: string)
    ensures IsDomain(d) <==> |Split(d)| >= 2 && AllLabels(Split(d))
  {
    if IsDomain(d) {
      DomainHasLabels(d);
    }
    if |Split(d)| >= 2 && AllLabels(Split(d)) {
      LabelsMakeDomain(d);
    }
  }

  lemma DomainHasLabels(d: string)
    requires IsDomain(d)
    ensures |Split(d)| >= 2 && AllLabels(Split(d))
  {
    var k :| 1 <= k < |d| && IsLabel(d[..k]) && IsLabelTail(d[k..]);
    LabelTailSplits(d[k..]);
    assert d[k..][1..] == d[k + 1..];
    assert d[k] == d[k..][0];
    LabelHasNoDot(d[..k]);
    SplitAt(d, k);
    ConsAllLabels(d[..k], Split(d[k + 1..]));
  }

  /** Splitting at the first dot, given by its position. */
  lemma SplitAt(d: string, k: int)
    requires 0 <= k < |d| && d[k] == '.' && '.' !in d[..k]
    ensures Split(d) == [d[..k]] + Split(d[k + 1..])
  {
    forall i | 0 <= i < k ensures d[i] != '.' {
      assert d[i] == d[..k][i];
    }
    assert FirstDot(d) == k;
  }

  lemma ConsAllLabels(l: string, parts: seq<string>)
    requires IsLabel(l) && AllLabels(parts)
    ensures AllLabels([l] + parts)
  {
    forall i | 0 <= i < |parts| + 1 ensures IsLabel(([l] + parts)[i]) {
      if i > 0 {
        assert ([l] + parts)[i] == parts[i - 1];
      }
    }
  }

  lemma LabelsMakeDomain(d: string)
    requires |Split(d)| >= 2 && AllLabels(Split(d))
    ensures IsDomain(d)
  {
    assert '.' in d;
    var k := FirstDot(d);
    UnconsAllLabels(d[..k], Split(d[k + 1..]));
    assert d[k..][1..] == d[k + 1..];
    SplitMakesLabelTail(d[k..]);
    assert 1 <= k < |d|;
  }

  /** The head and the rest of an all-labels list. */
  lemma UnconsAllLabels(l: string, parts: seq<string>)
    requires AllLabels([l] + parts)
    ensures IsLabel(l) && AllLabels(parts)
  {
    assert ([l] + parts)[0] == l;
    forall i | 0 <= i < |parts| ensures IsLabel(parts[i]) {
      assert ([l] + parts)[i + 1] == parts[i];
    }
  }

  /** The characters of a label tail are label characters and dots. */
  lemma {:induction false} LabelTailChars(t: string)
    requires IsLabelTail(t)
    ensures forall i :: 0 <= i < |t| ==> IsLabelChar(t[i]) || t[i] == '.'
    decreases |t|
  {
    var k :| 2 <= k <= |t| && IsLabel(t[1..k]) && (k == |t| || IsLabelTail(t[k..]));
    if k < |t| {
      LabelTailChars(t[k..]);
    }
    forall i | 0 <= i < |t| ensures IsLabelChar(t[i]) || t[i] == '.' {
      if 1 <= i < k {
        assert t[i] == t[1..k][i - 1];
      } else if i >= k {
        assert t[i] == t[k..][i - k];
      }
    }
  }

  /** The characters of a domain are label characters and dots, and it has
      a dot that is neither its first nor its last character. */
  lemma DomainShape(d: string)
    requires IsDomain(d)
    ensures forall i :: 0 <= i < |d| ==> IsLabelChar(d[i]) || d[i] == '.'
    ensures exists j :: 0 < j < |d| - 1 && d[j] == '.'
  {
    var k :| 1 <= k < |d| && IsLabel(d[..k]) && IsLabelTail(d[k..]);
    LabelTailChars(d[k..]);
    forall i | 0 <= i < |d| ensures IsLabelChar(d[i]) || d[i] == '.' {
      if i < k {
        assert d[i] == d[..k][i];
      } else {
        assert d[i] == d[k..][i - k];
      }
    }
    assert d[k] == d[k..][0];
  }

  /** Local-part characters are neither white space, '@' nor angle brackets. */
  lemma LocalPartChars(l: string)
    requires IsLocalPart(l)
    ensures forall i :: 0 <= i < |l| ==> !IsSpace(l[i]) && l[i] != '@' && l[i] != '<' && l[i] != '>'
  {
    forall i | 0 <= i < |l|
      ensures !IsSpace(l[i]) && l[i] != '@' && l[i] != '<' && l[i] != '>'
    {
      assert IsLocalChar(l[i]);
    }
  }

  /** The characters of an address split at its '@'. */
  lemma AddressChars(s: string, a: int)
    requires 1 <= a < |s| && s[a] == '@' && IsLocalPart(s[..a]) && IsDomain(s[a + 1..])
    ensures forall i :: 0 <= i < |s| ==> !IsSpace(s[i]) && s[i] != '<' && s[i] != '>'
    ensures forall i :: 0 <= i < |s| && i != a ==> s[i] != '@'
    ensures exists j :: a + 1 < j < |s| - 1 && s[j] == '.'
  {
    var l, d := s[..a], s[a + 1..];
    LocalPartChars(l);
    DomainShape(d);
    forall i | 0 <= i < |s|
      ensures !IsSpace(s[i]) && s[i] != '<' && s[i] != '>'
      ensures i != a ==> s[i] != '@'
    {
      if i < a {
        assert s[i] == l[i];
      } else if i > a {
        assert s[i] == d[i - a - 1];
      }
    }
    var j :| 0 < j < |d| - 1 && d[j] == '.';
    assert s[a + 1 + j] == '.';
  }

  /** What every accepted address looks like: the outline of an address
      (one '@', a dotted domain, no white space) and no angle bracket. */
  lemma EmailAddressShape(s: string)
    ensures IsEmailAddress(s) ==>
              HasAddressShape(s) && forall i :: 0 <= i < |s| ==> s[i] != '<' && s[i] != '>'
  {
    if IsEmailAddress(s) {
      var a :| 1 <= a < |s| && s[a] == '@' && IsLocalPart(s[..a]) && IsDomain(s[a + 1..]);
      AddressChars(s, a);
    }
  }

  // ---------------------------------------------------------------------------
  // Examples from the source's own tests

  lemma PostalCodeAccepted()
    ensures ValidatePostalCode(Given("75001")) == Valid("75001")
    ensures ValidatePostalCode(Given("01000")) == Valid("01000")
  {
    assert IsFiveDigits("75001") && IsFiveDigits("01000");
  }

  lemma PostalCodeRejected()
    ensures ValidatePostalCode(Given("7500")) == Invalid(ValidationError(InvalidFormat, PostalCodeMessage), None)
    ensures ValidatePostalCode(Given("750001")).Invalid?
    ensures ValidatePostalCode(Given("7500A")).Invalid?
    ensures ValidatePostalCode(Given("75-001")).Invalid?
    ensures ValidatePostalCode(Given("75 001")).Invalid?
  {
    assert !IsSpace("7500"[0]) && !IsSpace("750001"[0]) && !IsSpace("7500A"[0]);
    assert !IsSpace("75-001"[0]) && !IsSpace("75 001"[0]);
    assert !IsDigit("7500A"[4]);
  }

  lemma PostalCodeRaises()
    ensures ValidatePostalCode(Given("")) == Raise(InvalidInput)
    ensures ValidatePostalCode(Given("   ")) == Raise(InvalidInput)
    ensures ValidatePostalCode(Missing) == Raise(InvalidInput)
    ensures ValidatePostalCode(WrongType) == Raise(InvalidInput)
  {
  }

  /** A name without any markup character matches no signature. */
  lemma NoMarkupNoXss(s: string)
    requires forall i :: 0 <= i < |s| ==> !IsMarkupChar(s[i])
    ensures !MatchesAny(XssPatterns, s)
  {
    if MatchesAny(XssPatterns, s) {
      AnySignatureHasMarkupChar(XssPatterns, s);
    }
  }

  lemma IdentityAccepted()
    ensures ValidateIdentity(Given("Jean"), Given("Dupont")) == Valid(Identity("Jean", "Dupont"))
  {
    assert !IsSpace("Jean"[0]) && !IsSpace("Dupont"[0]);
  }

  lemma IdentityAcceptedAccents()
    ensures ValidateIdentity(Given("Bérénice"), Given("Çağlar")).Valid?
  {
    assert !IsSpace("Bérénice"[0]) && !IsSpace("Çağlar"[0]);
  }

  lemma IdentityBadFirstName()
    ensures ValidateIdentity(Given("Jean123"), Given("Dupont"))
              == Invalid(ValidationError(InvalidCharacters, FirstNameMessage), None)
  {
    NoMarkupNoXss("Jean123");
    NoMarkupNoXss("Dupont");
    assert !IsSpace("Jean123"[0]) && !IsSpace("Dupont"[0]);
    assert !IsNameChar("Jean123"[4]);
    FirstNameCheckedFirst("Jean123", "Dupont");
  }

  lemma IdentityBadLastName()
    ensures ValidateIdentity(Given("Jean"), Given("Dupont123"))
              == Invalid(ValidationError(InvalidCharacters, LastNameMessage), None)
  {
    NoMarkupNoXss("Jean");
    NoMarkupNoXss("Dupont123");
    assert !IsSpace("Jean"[0]) && !IsSpace("Dupont123"[0]);
    assert !IsNameChar("Dupont123"[6]);
    FirstNameCheckedFirst("Jean", "Dupont123");
  }

  lemma IdentityScriptTag()
    ensures ValidateIdentity(Given("<script>alert(\"xss\")</script>"), Given("Dupont"))
              == Invalid(ValidationError(XssDetected, XssMessage), None)
  {
    var tag := "<script>alert(\"xss\")</script>";
    assert tag[0] == '<' && tag[7] == '>' && NoCloseBetween(tag, 0, 7);
    assert Matches(XssPatterns[0], tag);
    assert !IsSpace(tag[0]) && !IsSpace("Dupont"[0]);
  }

  lemma IdentityEventHandler()
    ensures ValidateIdentity(Given("Jean onclick=alert(1)"), Given("Dupont"))
              == Invalid(ValidationError(XssDetected, XssMessage), None)
  {
    var handler := "Jean onclick=alert(1)";
    assert MatchesAt(handler, 5, "on") && WordRun(handler, 7, 12) && SpaceRun(handler, 12, 12);
    assert Matches(XssPatterns[2], handler);
    assert !IsSpace(handler[0]) && !IsSpace("Dupont"[0]);
  }

  lemma IdentityScriptScheme()
    ensures ValidateIdentity(Given("javascript:alert(1)"), Given("Dupont"))
              == Invalid(ValidationError(XssDetected, XssMessage), None)
  {
    var scheme := "javascript:alert(1)";
    assert MatchesAt(scheme, 0, "javascript:");
    assert Matches(XssPatterns[1], scheme);
    assert !IsSpace(scheme[0]) && !IsSpace("Dupont"[0]);
  }

  /** An encoded bracket in the last name is reported as XSS although the
      first name has digits. */
  lemma IdentityEncodedInLastName()
    ensures ValidateIdentity(Given("Jean123"), Given("%3Cscript%3E"))
              == Invalid(ValidationError(XssDetected, XssMessage), None)
  {
    var encoded := "%3Cscript%3E";
    assert MatchesAt(encoded, 0, "%3c");
    assert Matches(XssPatterns[3], encoded);
    assert !IsSpace(encoded[0]) && !IsSpace("Jean123"[0]);
    XssReportedBeforeCharacters("Jean123", encoded);
  }

  lemma IdentityRaises()
    ensures ValidateIdentity(Missing, Given("Dupont")) == Raise(InvalidInput)
    ensures ValidateIdentity(Given("Jean"), Given("")) == Raise(InvalidInput)
  {
  }

  /** A label given by its characters in `s[lo..hi]`. */
  lemma LabelAt(s: string, lo: int, hi: int)
    requires 0 <= lo < hi <= |s| && hi - lo <= 63
    requires IsAlnum(s[lo]) && IsAlnum(s[hi - 1])
    requires forall i :: lo <= i < hi ==> IsLabelChar(s[i])
    ensures IsLabel(s[lo..hi])
  {
    forall i | 0 <= i < hi - lo ensures IsLabelChar(s[lo..hi][i]) {
      assert s[lo..hi][i] == s[lo + i];
    }
  }

  /** `s[k..]` is a tail: a dot at `k`, a label up to `m`, then the end or
      another tail. */
  lemma TailAt(s: string, k: int, m: int)
    requires 0 <= k < m <= |s| && s[k] == '.' && IsLabel(s[k + 1..m])
    requires m == |s| || IsLabelTail(s[m..])
    ensures IsLabelTail(s[k..])
  {
    var t := s[k..];
    assert t[0] == '.';
    assert t[1..m - k] == s[k + 1..m];
    assert t[m - k..] == s[m..];
  }

  /** `s[a + 1..]` is a domain and `s[..a]` a local part: `s` is an address. */
  lemma AddressAt(s: string, a: int, k: int)
    requires 1 <= a && a + 1 < k < |s| && s[a] == '@'
    requires forall i :: 0 <= i < a ==> IsLocalChar(s[i])
    requires IsLabel(s[a + 1..k]) && IsLabelTail(s[k..])
    ensures IsEmailAddress(s)
  {
    var d := s[a + 1..];
    assert d[..k - a - 1] == s[a + 1..k];
    assert d[k - a - 1..] == s[k..];
    assert IsLocalPart(s[..a]) by {
      forall i | 0 <= i < a ensures IsLocalChar(s[..a][i]) {
        assert s[..a][i] == s[i];
      }
    }
  }

  lemma ExampleComIsAddress(s: string)
    requires s == "user@example.com"
    ensures IsEmailAddress(s)
  {
    LabelAt(s, 13, 16);
    TailAt(s, 12, 16);
    LabelAt(s, 5, 12);
    AddressAt(s, 4, 12);
  }

  lemma EmailAccepted(email: string)
    requires email == "user@example.com"
    ensures ValidateEmail(Given(email)) == Valid(email)
  {
    ExampleComIsAddress(email);
  }

  lemma ExampleUkTail(s: string)
    requires s == "user@example.co.uk"
    ensures IsLabelTail(s[15..])
  {
    LabelAt(s, 16, 18);
    TailAt(s, 15, 18);
  }

  lemma ExampleCoUkTail(s: string)
    requires s == "user@example.co.uk"
    ensures IsLabelTail(s[12..])
  {
    ExampleUkTail(s);
    LabelAt(s, 13, 15);
    TailAt(s, 12, 15);
  }

  lemma ExampleCoUkIsAddress(s: string)
    requires s == "user@example.co.uk"
    ensures IsEmailAddress(s)
  {
    LabelAt(s, 5, 12);
    assert forall i :: 0 <= i < 4 ==> IsLocalChar(s[i]);
    ExampleCoUkTail(s);
    AddressAt(s, 4, 12);
  }

  lemma EmailAcceptedSubdomains(email: string)
    requires email == "user@example.co.uk"
    ensures ValidateEmail(Given(email)) == Valid(email)
  {
    ExampleCoUkIsAddress(email);
  }

  /** An address always has a '.' in its domain. */
  lemma AddressNeedsDot(s: string)
    requires forall i :: 0 <= i < |s| ==> s[i] != '.'
    ensures !IsEmailAddress(s)
  {
    EmailAddressShape(s);
  }

  lemma EmailWithoutAt()
    ensures ValidateEmail(Given("userexample.com")).Invalid?
  {
    var s := "userexample.com";
    forall i | 0 <= i < |s| ensures s[i] != '@' { }
    assert !IsEmailAddress(s);
    assert !IsSpace(s[0]);
  }

  lemma EmailWithoutDomain()
    ensures ValidateEmail(Given("user@")).Invalid?
  {
    var s := "user@";
    forall i | 0 <= i < |s| ensures s[i] != '.' { }
    AddressNeedsDot(s);
    assert !IsSpace(s[0]);
  }

  lemma EmailWithoutTopLevelLabel()
    ensures ValidateEmail(Given("user@example")).Invalid?
  {
    var s := "user@example";
    forall i | 0 <= i < |s| ensures s[i] != '.' { }
    AddressNeedsDot(s);
    assert !IsSpace(s[0]);
  }

  lemma EmailWithSpace()
    ensures ValidateEmail(Given("user @example.com")).Invalid?
  {
    assert IsSpace("user @example.com"[4]);
    EmailAddressShape("user @example.com");
  }

  lemma EmailWithTwoAts()
    ensures ValidateEmail(Given("user@@example.com")).Invalid?
  {
    var s := "user@@example.com";
    assert s[4] == '@' && s[5] == '@';
    EmailAddressShape(s);
  }

  lemma EmailWithMarkup()
    ensures ValidateEmail(Given("user<script>@example.com")).Invalid?
  {
    var s := "user<script>@example.com";
    assert s[4] == '<';
    EmailAddressShape(s);
    assert !IsEmailAddress(s);
    assert !IsSpace(s[0]);
  }
}
