/** The pure part of UserService: the registration checks in their fixed
    order, the hand-written email shape check, the phone-number pattern,
    the password rules, the order of the login checks and the name filter.
    Strings are sequences of characters; letter case is ASCII only. */
module UserRules {
  import opened Wrappers

  datatype Role = Admin | Driver

  /** A stored user; password holds the encoded password. */
  datatype User = User(
    id: nat,
    firstName: string,
    lastName: string,
    phoneNumber: string,
    email: string,
    password: string,
    isEnabled: bool,
    isBlocked: bool,
    role: Role)

  /** The registration request. */
  datatype UserRequest = UserRequest(
    firstName: string,
    lastName: string,
    phoneNumber: string,
    email: string,
    password: string)

  datatype UserError =
    | UserNotFound(id: nat)
    | EmptyFirstName
    | EmptyLastName
    | EmptyPhoneNumber
    | IncorrectPhoneNumber
    | EmptyEmail
    | IncorrectEmail
    | EmailTaken(email: string)
    | UnapprovedEmail(email: string)
    | EmptyPassword
    | TooShortPassword
    | WeakPassword
    | IncorrectLoginData
    | UserDisabled
    | UserBlocked
    | UserAlreadyBlocked
    | UserNotBlocked
    | UserAlreadyAdmin
    | UserAlreadyDriver

  // ---------------------------------------------------------------------
  // Character classes

  /** \d in a Java regex without UNICODE_CHARACTER_CLASS. */
  predicate IsAsciiDigit(c: char) {
    '0' <= c <= '9'
  }

  /** [a-zA-Z] */
  predicate IsAsciiLetter(c: char) {
    'a' <= c <= 'z' || 'A' <= c <= 'Z'
  }

  /** The special-character class of the strength rule. Read as a Java
      regex, the class contains a nested class [\\] (a backslash), so the
      set is the 25 characters below and does not include '[' or ']'. */
  predicate IsSpecialChar(c: char) {
    c in "~!@#$%^&*()_+{}\\:;,.<>/?-"
  }

  predicate AllDigits(s: string) {
    forall i :: 0 <= i < |s| ==> IsAsciiDigit(s[i])
  }

  // ---------------------------------------------------------------------
  // Phone number: (\+\d{1,2})?(\d{9}|\d{11,12}), matched against the whole string

  /** The optional group (\+\d{1,2}). */
  predicate IsCountryCode(t: string) {
    t == [] || (2 <= |t| <= 3 && t[0] == '+' && AllDigits(t[1..]))
  }

  /** The alternative (\d{9}|\d{11,12}). */
  predicate IsSubscriberNumber(t: string) {
    AllDigits(t) && (|t| == 9 || |t| == 11 || |t| == 12)
  }

  /** The whole string splits into an optional country code and a subscriber number. */
  ghost predicate MatchesPhonePattern(s: string) {
    exists p :: 0 <= p <= |s| && IsCountryCode(s[..p]) && IsSubscriberNumber(s[p..])
  }

  /** The check as a direct test on the string: with a leading '+', the rest
      is 10 to 14 digits; without it, the string is 9, 11 or 12 digits. */
  predicate IsPhoneNumberIncorrect(phoneNumber: string)
    ensures phoneNumber == [] ==> IsPhoneNumberIncorrect(phoneNumber)
    ensures !IsPhoneNumberIncorrect(phoneNumber) ==>
              && 9 <= |phoneNumber| <= 15
              && (forall i :: 0 < i < |phoneNumber| ==> IsAsciiDigit(phoneNumber[i]))
              && (phoneNumber[0] == '+' || IsAsciiDigit(phoneNumber[0]))
  {
    if |phoneNumber| > 0 && phoneNumber[0] == '+' then
      !(AllDigits(phoneNumber[1..]) && 10 <= |phoneNumber| - 1 <= 14)
    else
      !(AllDigits(phoneNumber) && (|phoneNumber| == 9 || |phoneNumber| == 11 || |phoneNumber| == 12))
  }

  lemma AllDigitsConcat(a: string, b: string)
    ensures AllDigits(a + b) <==> AllDigits(a) && AllDigits(b)
  {
    if AllDigits(a + b) {
      forall i | 0 <= i < |a| ensures IsAsciiDigit(a[i]) {
        assert a[i] == (a + b)[i];
      }
      forall i | 0 <= i < |b| ensures IsAsciiDigit(b[i]) {
        assert b[i] == (a + b)[|a| + i];
      }
    }
    if AllDigits(a) && AllDigits(b) {
      forall i | 0 <= i < |a + b| ensures IsAsciiDigit((a + b)[i]) {
        if i < |a| { assert (a + b)[i] == a[i]; } else { assert (a + b)[i] == b[i - |a|]; }
      }
    }
  }

  /** The phone check rejects exactly the strings the regex does not match. */
  lemma PhoneNumberCheckMatchesPattern(s: string)
    ensures !IsPhoneNumberIncorrect(s) <==> MatchesPhonePattern(s)
  {
    if !IsPhoneNumberIncorrect(s) {
      if |s| > 0 && s[0] == '+' {
        var n := |s| - 1;
        var p := if n - 2 == 9 || n - 2 == 11 || n - 2 == 12 then 3 else 2;
        assert s[1..] == s[1..p] + s[p..];
        AllDigitsConcat(s[1..p], s[p..]);
        assert s[..p][1..] == s[1..p];
        assert IsCountryCode(s[..p]);
        assert IsSubscriberNumber(s[p..]);
      } else {
        assert s[..0] == [] && s[0..] == s;
        assert IsCountryCode(s[..0]) && IsSubscriberNumber(s[0..]);
      }
    }
    if MatchesPhonePattern(s) {
      var p :| 0 <= p <= |s| && IsCountryCode(s[..p]) && IsSubscriberNumber(s[p..]);
      if p == 0 {
        assert s[p..] == s;
      } else {
        assert s[0] == s[..p][0] == '+';
        assert s[..p][1..] == s[1..p];
        assert s[1..] == s[1..p] + s[p..];
        AllDigitsConcat(s[1..p], s[p..]);
      }
    }
  }

  // ---------------------------------------------------------------------
  // Email

  /** String.indexOf for one character: the first position, or -1. */
  function IndexOf(s: string, c: char): (r: int)
    ensures -1 <= r < |s|
    ensures r == -1 <==> c !in s
    ensures r >= 0 ==> s[r] == c && forall k :: 0 <= k < r ==> s[k] != c
  {
    if |s| == 0 then -1
    else if s[0] == c then 0
    else
      var rest := IndexOf(s[1..], c);
      assert c in s <==> c in s[1..] by {
        assert s == [s[0]] + s[1..];
      }
      if rest == -1 then -1 else rest + 1
  }

  /** String.lastIndexOf for one character: the last position, or -1. */
  function LastIndexOf(s: string, c: char): (r: int)
    ensures -1 <= r < |s|
    ensures r == -1 <==> c !in s
    ensures r >= 0 ==> s[r] == c && forall k :: r < k < |s| ==> s[k] != c
  {
    if |s| == 0 then -1
    else if s[|s| - 1] == c then |s| - 1
    else
      assert c in s <==> c in s[..|s| - 1] by {
        assert s == s[..|s| - 1] + [s[|s| - 1]];
      }
      LastIndexOf(s[..|s| - 1], c)
  }

  /** isEmailIncorrect: no '@', no '.', the last '.' before the first '@',
      or a trailing '.'. */
  predicate IsEmailIncorrect(email: string)
    ensures '@' !in email ==> IsEmailIncorrect(email)
    ensures '.' !in email ==> IsEmailIncorrect(email)
    ensures '@' in email && '.' in email && LastIndexOf(email, '.') < IndexOf(email, '@') ==> IsEmailIncorrect(email)
    ensures |email| > 0 && email[|email| - 1] == '.' ==> IsEmailIncorrect(email)
    ensures IsEmailIncorrect(email) ==>
              || '@' !in email || '.' !in email
              || LastIndexOf(email, '.') < IndexOf(email, '@')
              || (|email| > 0 && email[|email| - 1] == '.')
  {
    if '@' !in email then true
    else
      var indexOfAt := IndexOf(email, '@');
      var lastIndexOfDot := LastIndexOf(email, '.');
      if lastIndexOfDot == -1 || lastIndexOfDot < indexOfAt then true
      else email[|email| - 1] == '.'
  }

  /** An email passes exactly when some '@' is followed, later, by some '.',
      and the email does not end in '.'. */
  lemma EmailCheckShape(email: string)
    ensures !IsEmailIncorrect(email) <==>
              (exists i, j :: 0 <= i < j < |email| && email[i] == '@' && email[j] == '.')
              && |email| > 0 && email[|email| - 1] != '.'
  {
    if exists i, j :: 0 <= i < j < |email| && email[i] == '@' && email[j] == '.' {
      var i, j :| 0 <= i < j < |email| && email[i] == '@' && email[j] == '.';
      assert '@' in email && '.' in email;
      var at := IndexOf(email, '@');
      var dot := LastIndexOf(email, '.');
      assert at <= i;
      assert j <= dot;
    }
    if !IsEmailIncorrect(email) {
      var at := IndexOf(email, '@');
      var dot := LastIndexOf(email, '.');
      assert at != dot;
      assert 0 <= at < dot < |email| && email[at] == '@' && email[dot] == '.';
    }
  }

  // ---------------------------------------------------------------------
  // Password

  /** isPasswordTooShort: fewer than 8 characters; an empty password is too short as well. */
  predicate IsPasswordTooShort(password: string)
    ensures password == [] ==> IsPasswordTooShort(password)
  {
    |password| < 8
  }

  predicate HasLetter(password: string) {
    exists i :: 0 <= i < |password| && IsAsciiLetter(password[i])
  }

  predicate HasDigit(password: string) {
    exists i :: 0 <= i < |password| && IsAsciiDigit(password[i])
  }

  predicate HasSpecialChar(password: string) {
    exists i :: 0 <= i < |password| && IsSpecialChar(password[i])
  }

  /** Weak: missing a letter, a digit or a special character. */
  predicate PasswordIsWeak(password: string) {
    !(HasLetter(password) && HasDigit(password) && HasSpecialChar(password))
  }

  /** Matcher.find for a one-character class: scans for a character in the class. */
  method FindInClass(s: string, inClass: char -> bool) returns (found: bool)
    ensures found <==> exists i :: 0 <= i < |s| && inClass(s[i])
  {
    found := false;
    var i := 0;
    while i < |s| && !found
      invariant 0 <= i <= |s|
      invariant found <==> exists k :: 0 <= k < i && inClass(s[k])
    {
      if inClass(s[i]) {
        found := true;
      }
      i := i + 1;
    }
  }

  /** isPasswordWeak: three flags, each set by one search, combined at the end. */
  method IsPasswordWeak(password: string) returns (weak: bool)
    ensures weak <==> PasswordIsWeak(password)
  {
    var hasLetter := false;
    var hasDigit := false;
    var hasSpecialChar := false;

    var letterFound := FindInClass(password, IsAsciiLetter);
    if letterFound {
      hasLetter := true;
    }
    var digitFound := FindInClass(password, IsAsciiDigit);
    if digitFound {
      hasDigit := true;
    }
    var specialFound := FindInClass(password, IsSpecialChar);
    if specialFound {
      hasSpecialChar := true;
    }
    weak := !(hasLetter && hasDigit && hasSpecialChar);
  }

  /** checkIfPasswordIsCorrect: empty, then too short, then weak. */
  function CheckPassword(password: string): (r: Outcome<UserError>)
    ensures r == Fail(EmptyPassword) <==> password == []
    ensures r == Fail(TooShortPassword) <==> 0 < |password| < 8
    ensures r == Fail(WeakPassword) <==> |password| >= 8 && PasswordIsWeak(password)
    ensures r == Pass <==>
              |password| >= 8 && HasLetter(password) && HasDigit(password) && HasSpecialChar(password)
  {
    if password == [] then Fail(EmptyPassword)
    else if IsPasswordTooShort(password) then Fail(TooShortPassword)
    else if PasswordIsWeak(password) then Fail(WeakPassword)
    else Pass
  }

  // ---------------------------------------------------------------------
  // Registration checks

  /** isEmailTaken: some stored user already has this email. */
  predicate IsEmailTaken(users: map<nat, User>, email: string)
    ensures IsEmailTaken(users, email) <==> exists u :: u in users.Values && u.email == email
  {
    exists k :: k in users && users[k].email == email
  }

  /** isEmailUnapproved: the email is not on the whitelist. */
  predicate IsEmailUnapproved(approvedEmails: set<string>, email: string)
    ensures approvedEmails == {} ==> IsEmailUnapproved(approvedEmails, email)
  {
    email !in approvedEmails
  }

  predicate NamesPresent(req: UserRequest) {
    req.firstName != [] && req.lastName != []
  }

  predicate PhoneAccepted(req: UserRequest) {
    req.phoneNumber != [] && !IsPhoneNumberIncorrect(req.phoneNumber)
  }

  predicate EmailShapeAccepted(req: UserRequest) {
    req.email != [] && !IsEmailIncorrect(req.email)
  }

  predicate ContactDataAccepted(req: UserRequest, users: map<nat, User>, approvedEmails: set<string>) {
    && NamesPresent(req) && PhoneAccepted(req) && EmailShapeAccepted(req)
    && !IsEmailTaken(users, req.email) && !IsEmailUnapproved(approvedEmails, req.email)
  }

  /** checkIfUserDataAreCorrect: the checks in their fixed order; the first
      failing one is the error raised. */
  function CheckUserData(req: UserRequest, users: map<nat, User>, approvedEmails: set<string>): (r: Outcome<UserError>)
    ensures r == Fail(EmptyFirstName) <==> req.firstName == []
    ensures r == Fail(EmptyLastName) <==> req.firstName != [] && req.lastName == []
    ensures r == Fail(EmptyPhoneNumber) <==> NamesPresent(req) && req.phoneNumber == []
    ensures r == Fail(IncorrectPhoneNumber) <==>
              NamesPresent(req) && req.phoneNumber != [] && IsPhoneNumberIncorrect(req.phoneNumber)
    ensures r == Fail(EmptyEmail) <==> NamesPresent(req) && PhoneAccepted(req) && req.email == []
    ensures r == Fail(IncorrectEmail) <==>
              NamesPresent(req) && PhoneAccepted(req) && req.email != [] && IsEmailIncorrect(req.email)
    ensures r == Fail(EmailTaken(req.email)) <==>
              NamesPresent(req) && PhoneAccepted(req) && EmailShapeAccepted(req)
              && IsEmailTaken(users, req.email)
    ensures r == Fail(UnapprovedEmail(req.email)) <==>
              NamesPresent(req) && PhoneAccepted(req) && EmailShapeAccepted(req)
              && !IsEmailTaken(users, req.email) && IsEmailUnapproved(approvedEmails, req.email)
    ensures ContactDataAccepted(req, users, approvedEmails) ==> r == CheckPassword(req.password)
    ensures r == Pass <==> ContactDataAccepted(req, users, approvedEmails) && CheckPassword(req.password) == Pass
  {
    if req.firstName == [] then Fail(EmptyFirstName)
    else if req.lastName == [] then Fail(EmptyLastName)
    else if req.phoneNumber == [] then Fail(EmptyPhoneNumber)
    else if IsPhoneNumberIncorrect(req.phoneNumber) then Fail(IncorrectPhoneNumber)
    else if req.email == [] then Fail(EmptyEmail)
    else if IsEmailIncorrect(req.email) then Fail(IncorrectEmail)
    else if IsEmailTaken(users, req.email) then Fail(EmailTaken(req.email))
    else if IsEmailUnapproved(approvedEmails, req.email) then Fail(UnapprovedEmail(req.email))
    else CheckPassword(req.password)
  }

  /** No two stored users share an email. */
  ghost predicate EmailsUnique(users: map<nat, User>) {
    forall i, j :: (i in users && j in users && users[i].email == users[j].email) ==> i == j
  }

  /** Storing a new user whose request passed the registration checks keeps
      emails unique: the check refuses an email that is already taken. */
  lemma RegistrationKeepsEmailsUnique(
    users: map<nat, User>, approvedEmails: set<string>, req: UserRequest, id: nat, user: User)
    requires EmailsUnique(users)
    requires CheckUserData(req, users, approvedEmails) == Pass
    requires id !in users && user.email == req.email
    ensures EmailsUnique(users[id := user])
  {
    assert !IsEmailTaken(users, req.email);
  }

  // ---------------------------------------------------------------------
  // Login

  /** The checks login makes on the user found by email: the password
      first, then enabled, then blocked. */
  function CheckLogin(user: User, password: string, matches: (string, string) -> bool): (r: Result<User, UserError>)
    ensures r == Failure(IncorrectLoginData) <==> !matches(password, user.password)
    ensures r == Failure(UserDisabled) <==> matches(password, user.password) && !user.isEnabled
    ensures r == Failure(UserBlocked) <==>
              matches(password, user.password) && user.isEnabled && user.isBlocked
    ensures r.Success? <==> matches(password, user.password) && user.isEnabled && !user.isBlocked
    ensures r.Success? ==> r.value == user
  {
    if !matches(password, user.password) then Failure(IncorrectLoginData)
    else if !user.isEnabled then Failure(UserDisabled)
    else if user.isBlocked then Failure(UserBlocked)
    else Success(user)
  }

  // ---------------------------------------------------------------------
  // Name filter

  function ToLowerChar(c: char): char {
    if 'A' <= c <= 'Z' then (c as int + 32) as char else c
  }

  /** String.toLowerCase restricted to ASCII letters. */
  function ToLower(s: string): (r: string)
    ensures |r| == |s| && forall i :: 0 <= i < |s| ==> r[i] == ToLowerChar(s[i])
    ensures forall i :: 0 <= i < |r| ==> !('A' <= r[i] <= 'Z')
    ensures forall i :: 0 <= i < |r| && !('A' <= s[i] <= 'Z') ==> r[i] == s[i]
  {
    seq(|s|, i requires 0 <= i < |s| => ToLowerChar(s[i]))
  }

  lemma ToLowerIdempotent(s: string)
    ensures ToLower(ToLower(s)) == ToLower(s)
  {
  }

  /** String.contains: t occurs in s. */
  predicate Contains(s: string, t: string)
    ensures t == [] ==> Contains(s, t)
    ensures Contains(s, t) ==> |t| <= |s|
  {
    t <= s || (s != [] && Contains(s[1..], t))
  }

  /** t occurs in s starting at position i. */
  predicate OccursAt(s: string, t: string, i: nat)
    requires i <= |s|
  {
    t <= s[i..]
  }

  /** Contains holds exactly when t occurs in s at some position. */
  lemma {:induction false} ContainsAt(s: string, t: string)
    ensures Contains(s, t) <==> exists i :: 0 <= i <= |s| && OccursAt(s, t, i)
  {
    assert s[0..] == s;
    if t <= s {
      assert OccursAt(s, t, 0);
    }
    if s != [] {
      ContainsAt(s[1..], t);
      if Contains(s[1..], t) {
        var i :| 0 <= i <= |s[1..]| && OccursAt(s[1..], t, i);
        assert s[1..][i..] == s[i + 1..];
        assert OccursAt(s, t, i + 1);
      }
      if exists i :: 0 <= i <= |s| && OccursAt(s, t, i) {
        var i :| 0 <= i <= |s| && OccursAt(s, t, i);
        if i > 0 {
          assert s[1..][i - 1..] == s[i..];
          assert OccursAt(s[1..], t, i - 1);
          assert Contains(s[1..], t);
        } else {
          assert t <= s;
        }
      }
    }
  }

  /** The filter's test: lower-cased first or last name contains the lower-cased filter. */
  predicate NameMatches(user: User, filterText: string)
    ensures filterText == [] ==> NameMatches(user, filterText)
  {
    Contains(ToLower(user.firstName), ToLower(filterText))
    || Contains(ToLower(user.lastName), ToLower(filterText))
  }

  /** The filter is case-insensitive in the filter text too. */
  lemma NameMatchesIgnoresFilterCase(user: User, filterText: string)
    ensures NameMatches(user, filterText) == NameMatches(user, ToLower(filterText))
  {
    ToLowerIdempotent(filterText);
  }

  /** a keeps some of the elements of b, in b's order. */
  predicate IsSubsequence<T(==)>(a: seq<T>, b: seq<T>)
    decreases |b|
  {
    a == [] || (b != [] && ((a[0] == b[0] && IsSubsequence(a[1..], b[1..])) || IsSubsequence(a, b[1..])))
  }

  lemma {:induction false} SubsequenceOfSelf<T>(s: seq<T>)
    ensures IsSubsequence(s, s)
    decreases |s|
  {
    if s != [] {
      SubsequenceOfSelf(s[1..]);
    }
  }

  /** The stream filter: the users that match, in their original order. */
  function FilterByName(users: seq<User>, filterText: string): (r: seq<User>)
    ensures IsSubsequence(r, users)
    ensures forall u :: u in r <==> u in users && NameMatches(u, filterText)
    ensures forall u :: multiset(r)[u] == if NameMatches(u, filterText) then multiset(users)[u] else 0
    decreases |users|
  {
    if users == [] then []
    else
      var rest := FilterByName(users[1..], filterText);
      assert users == [users[0]] + users[1..];
      if NameMatches(users[0], filterText) then
        var r := [users[0]] + rest;
        assert r[1..] == rest;
        r
      else
        rest
  }

  /** getFilteredUsers: all users for an empty filter, otherwise those whose
      first or last name contains the filter, ignoring case. */
  function GetFilteredUsers(users: seq<User>, filterText: string): (r: seq<User>)
    ensures filterText == [] ==> r == users
    ensures IsSubsequence(r, users)
    ensures forall u :: u in r <==> u in users && NameMatches(u, filterText)
    ensures forall u :: multiset(r)[u] == if NameMatches(u, filterText) then multiset(users)[u] else 0
  {
    if filterText == [] then
      SubsequenceOfSelf(users);
      users
    else
      FilterByName(users, filterText)
  }
}
