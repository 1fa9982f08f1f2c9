/** The registration form's validation (`validateForm` of the register page) and the
    submit guard: the form is checked field by field, one error message per failing
    field, and the register request is sent only when there is no error. A string is a
    sequence of Unicode scalar values; its length equals JavaScript's `length`, a count
    of UTF-16 code units, when every character lies in the Basic Multilingual Plane. */
module Registration {
  import opened Wrappers

  /** What the user typed. */
  datatype FormData = FormData(
    username: string,
    email: string,
    phoneNumber: string,
    password: string,
    confirmPassword: string)

  /** The keys of the error record. */
  datatype Field = Username | Email | Password | ConfirmPassword

  const UsernameMessage: string := "Username must be at least 3 characters"
  const EmailMessage: string := "Please enter a valid email"
  const PasswordMessage: string := "Password must be at least 6 characters"
  const ConfirmPasswordMessage: string := "Passwords do not match"

  /** The class `\s` of JavaScript regular expressions: the ECMAScript white space and
      line terminators. It differs from .NET's: U+FEFF is in it and U+0085 is not. */
  predicate IsSpace(c: char) {
    || c == ' '
    || ('\t' <= c <= '\r')
    || c == '\U{A0}'
    || c == '\U{1680}'
    || ('\U{2000}' <= c <= '\U{200A}')
    || c == '\U{2028}'
    || c == '\U{2029}'
    || c == '\U{202F}'
    || c == '\U{205F}'
    || c == '\U{3000}'
    || c == '\U{FEFF}'
  }

  /** No character of `e[lo..hi]` is white space: the range matches `\S*`. */
  predicate NoSpace(e: string, lo: int, hi: int)
    requires 0 <= lo <= hi <= |e|
  {
    forall k | lo <= k < hi :: !IsSpace(e[k])
  }

  /** `/\S+@\S+\.\S+/.test(e)`: somewhere in `e` (the pattern is not anchored) there is a
      run of non-space characters, an `@`, another run, a `.`, and a third run. Each run
      has at least one character and may itself hold `@` or `.`. */
  predicate EmailLike(e: string) {
    exists a, at, dot, end | 0 <= a < at < dot < end <= |e| :: RegexMatch(e, a, at, dot, end)
  }

  /** `\S+@\S+\.\S+` matches `e[a..end]`, with the `@` at `at` and the `.` at `dot`. */
  predicate RegexMatch(e: string, a: int, at: int, dot: int, end: int) {
    && 0 <= a < at && at + 1 < dot && dot + 1 < end <= |e|
    && NoSpace(e, a, at) && e[at] == '@'
    && NoSpace(e, at + 1, dot) && e[dot] == '.'
    && NoSpace(e, dot + 1, end)
  }

  /** The shortest form of a match: one non-space character before the `@`, and one
      after the `.`; a match exists exactly when one of this form does. */
  predicate MatchAt(e: string, at: int, dot: int) {
    && 1 <= at && at + 1 < dot && dot + 1 < |e|
    && !IsSpace(e[at - 1]) && e[at] == '@'
    && NoSpace(e, at + 1, dot) && e[dot] == '.'
    && !IsSpace(e[dot + 1])
  }

  lemma EmailLikeIffMatchAt(e: string)
    ensures EmailLike(e) <==> exists at, dot :: MatchAt(e, at, dot)
  {
    if EmailLike(e) {
      var a, at, dot, end :| 0 <= a < at < dot < end <= |e| && RegexMatch(e, a, at, dot, end);
      assert MatchAt(e, at, dot);
    }
    if exists at, dot :: MatchAt(e, at, dot) {
      var at, dot :| MatchAt(e, at, dot);
      assert RegexMatch(e, at - 1, at, dot, dot + 2);
    }
  }

  /** The regular expression test as a scan: for every `@` preceded by a non-space
      character, walk over the non-space characters after it looking for a `.` that is
      not right after the `@` and is followed by a non-space character. */
  method EmailPatternTest(e: string) returns (b: bool)
    ensures b <==> EmailLike(e)
  {
    EmailLikeIffMatchAt(e);
    var at := 1;
    while at < |e|
      invariant 1 <= at <= |e| || |e| == 0
      invariant forall p, dot | p < at :: !MatchAt(e, p, dot)
    {
      if e[at] == '@' && !IsSpace(e[at - 1]) {
        var dot := at + 1;
        while dot + 1 < |e| && !IsSpace(e[dot])
          invariant at + 1 <= dot <= |e|
          invariant NoSpace(e, at + 1, dot)
          invariant forall d | d < dot :: !MatchAt(e, at, d)
        {
          if dot > at + 1 && e[dot] == '.' && !IsSpace(e[dot + 1]) {
            assert MatchAt(e, at, dot);
            return true;
          }
          dot := dot + 1;
        }
        assert forall d :: !MatchAt(e, at, d);
      }
      at := at + 1;
    }
    return false;
  }

  /** `validateForm`'s error record: one entry per failing check, with its message. */
  function ValidateForm(f: FormData): (r: map<Field, string>)
    ensures Username in r <==> |f.username| < 3
    ensures Email in r <==> !EmailLike(f.email)
    ensures Password in r <==> |f.password| < 6
    ensures ConfirmPassword in r <==> f.password != f.confirmPassword
    ensures Username in r ==> r[Username] == UsernameMessage
    ensures Email in r ==> r[Email] == EmailMessage
    ensures Password in r ==> r[Password] == PasswordMessage
    ensures ConfirmPassword in r ==> r[ConfirmPassword] == ConfirmPasswordMessage
  {
    var m0 := map[];
    var m1 := if |f.username| < 3 then m0[Username := UsernameMessage] else m0;
    var m2 := if !EmailLike(f.email) then m1[Email := EmailMessage] else m1;
    var m3 := if |f.password| < 6 then m2[Password := PasswordMessage] else m2;
    if f.password != f.confirmPassword then m3[ConfirmPassword := ConfirmPasswordMessage] else m3
  }

  /** `validateForm`'s verdict: there are no error keys. */
  predicate FormValid(f: FormData) {
    |ValidateForm(f).Keys| == 0
  }

  /** The form is valid exactly when every check passes. */
  lemma FormValidIff(f: FormData)
    ensures FormValid(f) <==>
      |f.username| >= 3 && EmailLike(f.email) && |f.password| >= 6 && f.password == f.confirmPassword
  {
    var r := ValidateForm(f);
    if |f.username| < 3 {
      assert Username in r.Keys;
    } else if !EmailLike(f.email) {
      assert Email in r.Keys;
    } else if |f.password| < 6 {
      assert Password in r.Keys;
    } else if f.password != f.confirmPassword {
      assert ConfirmPassword in r.Keys;
    } else {
      assert r.Keys == {};
    }
  }

  /** The request the register call sends. */
  datatype RegisterRequest = RegisterRequest(
    username: string,
    email: string,
    phoneNumber: Option<string>,
    password: string)

  /** `handleSubmit` up to the register call: nothing is sent when the form is invalid;
      otherwise the request carries the form's fields, with an empty phone number left
      out (`phoneNumber || undefined`). */
  function SubmitRegistration(f: FormData): (r: Option<RegisterRequest>)
    ensures r.Some? <==> FormValid(f)
    ensures r.Some? ==>
      && r.value.username == f.username && r.value.email == f.email && r.value.password == f.password
      && (r.value.phoneNumber.None? <==> f.phoneNumber == [])
      && (r.value.phoneNumber.Some? ==> r.value.phoneNumber.value == f.phoneNumber)
  {
    if !FormValid(f) then None
    else Some(RegisterRequest(f.username, f.email, if f.phoneNumber == [] then None else Some(f.phoneNumber), f.password))
  }

  /** A request is sent only for a username of at least 3 and a password of at least 6
      characters that matches its confirmation, and an email that passes the pattern. */
  lemma SubmittedFormPassesChecks(f: FormData)
    requires SubmitRegistration(f).Some?
    ensures |f.username| >= 3 && |f.password| >= 6 && f.password == f.confirmPassword && EmailLike(f.email)
  {
    FormValidIff(f);
  }

  /** The pattern is not anchored: text around an address that passes does not make it
      fail. */
  lemma EmailLikeUnanchored(x: string, e: string, y: string)
    requires EmailLike(e)
    ensures EmailLike(x + e + y)
  {
    var a, at, dot, end :| 0 <= a < at < dot < end <= |e| && RegexMatch(e, a, at, dot, end);
    var s := x + e + y;
    var n := |x|;
    NoSpaceShift(x, e, y, a, at);
    NoSpaceShift(x, e, y, at + 1, dot);
    NoSpaceShift(x, e, y, dot + 1, end);
    assert s[n + at] == e[at] && s[n + dot] == e[dot];
    assert RegexMatch(s, n + a, n + at, n + dot, n + end);
  }

  lemma NoSpaceShift(x: string, e: string, y: string, lo: int, hi: int)
    requires 0 <= lo <= hi <= |e| && NoSpace(e, lo, hi)
    ensures NoSpace(x + e + y, |x| + lo, |x| + hi)
  {
    var s := x + e + y;
    forall k | |x| + lo <= k < |x| + hi ensures !IsSpace(s[k]) {
      assert s[k] == e[k - |x|];
    }
  }

  /** `a@b.c` passes, `a@b` (no dot after the `@`) and `a@.c` (nothing between the `@`
      and the dot) do not, and `a@..c` passes because a dot is not white space. */
  lemma EmailExamples()
    ensures EmailLike("a@b.c")
    ensures !EmailLike("a@b")
    ensures !EmailLike("a@.c")
    ensures EmailLike("a@..c")
  {
    assert MatchAt("a@b.c", 1, 3);
    assert MatchAt("a@..c", 1, 3);
    EmailLikeIffMatchAt("a@b.c");
    EmailLikeIffMatchAt("a@b");
    EmailLikeIffMatchAt("a@.c");
    EmailLikeIffMatchAt("a@..c");
  }
}
