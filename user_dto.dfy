/** The registration body (users/dto/user.dto.ts): the field transforms that
    run before validation (trim, lower-case, whitespace removal) and the
    validators. */
module UserDto {

  import opened Common

  /** The characters JavaScript's `trim` strips and `\s` matches: white space
      and line terminators. */
  predicate IsWhitespace(c: char) {
    || c == ' ' || c == '\t' || c == '\n' || c == '\U{000B}' || c == '\U{000C}' || c == '\r'
    || c == '\U{00A0}' || c == '\U{1680}' || ('\U{2000}' <= c <= '\U{200A}')
    || c == '\U{2028}' || c == '\U{2029}' || c == '\U{202F}' || c == '\U{205F}'
    || c == '\U{3000}' || c == '\U{FEFF}'
  }

  /** `s` with its leading white space removed. */
  function TrimStart(s: string): (r: string)
    ensures |r| <= |s| && r == s[|s| - |r|..]
    ensures forall i :: 0 <= i < |s| - |r| ==> IsWhitespace(s[i])
    ensures r == [] || !IsWhitespace(r[0])
  {
    if s != [] && IsWhitespace(s[0]) then TrimStart(s[1..]) else s
  }

  /** `s` with its trailing white space removed. */
  function TrimEnd(s: string): (r: string)
    ensures |r| <= |s| && r == s[..|r|]
    ensures forall i :: |r| <= i < |s| ==> IsWhitespace(s[i])
    ensures r == [] || !IsWhitespace(r[|r| - 1])
  {
    if s != [] && IsWhitespace(s[|s| - 1]) then TrimEnd(s[..|s| - 1]) else s
  }

  /** `String.prototype.trim`. */
  function Trim(s: string): string {
    TrimEnd(TrimStart(s))
  }

  ghost predicate NoEdgeWhitespace(s: string) {
    s == [] || (!IsWhitespace(s[0]) && !IsWhitespace(s[|s| - 1]))
  }

  /** The trimmed string is a slice of the input with no white space at
      either end, and everything cut off is white space. */
  lemma TrimShape(s: string)
    ensures NoEdgeWhitespace(Trim(s))
    ensures var i := |s| - |TrimStart(s)|;
      var j := i + |Trim(s)|;
      && 0 <= i <= j <= |s| && Trim(s) == s[i..j]
      && (forall k :: 0 <= k < i ==> IsWhitespace(s[k]))
      && (forall k :: j <= k < |s| ==> IsWhitespace(s[k]))
  {
    TrimEdges(s);
    TrimSlice(s);
    TrimCutEnd(s);
  }

  lemma TrimSlice(s: string)
    ensures var i := |s| - |TrimStart(s)|;
      i + |Trim(s)| <= |s| && Trim(s) == s[i..i + |Trim(s)|]
  {
    var a := TrimStart(s);
    var b := TrimEnd(a);
    PrefixOfSuffix(s, |s| - |a|, |b|);
  }

  lemma PrefixOfSuffix(s: string, i: nat, n: nat)
    requires i + n <= |s|
    ensures s[i..][..n] == s[i..i + n]
  {
  }

  lemma TrimCutEnd(s: string)
    ensures forall k :: |s| - |TrimStart(s)| + |Trim(s)| <= k < |s| ==> IsWhitespace(s[k])
  {
    var a := TrimStart(s);
    var i := |s| - |a|;
    forall k | i + |Trim(s)| <= k < |s|
      ensures IsWhitespace(s[k])
    {
      assert s[k] == a[k - i];
    }
  }

  lemma TrimEdges(s: string)
    ensures NoEdgeWhitespace(Trim(s))
  {
    var a := TrimStart(s);
    var b := TrimEnd(a);
    if b != [] {
      assert b[0] == a[0];
    }
  }

  lemma TrimKeeps(s: string)
    requires NoEdgeWhitespace(s)
    ensures Trim(s) == s
  {
  }

  /** Trimming twice is trimming once. */
  lemma TrimIdempotent(s: string)
    ensures Trim(Trim(s)) == Trim(s)
  {
    TrimShape(s);
    TrimKeeps(Trim(s));
  }

  /** `toLowerCase` on one character, for the ASCII letters. */
  function LowerChar(c: char): (d: char)
    ensures IsWhitespace(d) == IsWhitespace(c)
    ensures !('A' <= d <= 'Z')
  {
    if 'A' <= c <= 'Z' then (c as int - 'A' as int + 'a' as int) as char else c
  }

  function ToLower(s: string): (r: string)
    ensures |r| == |s| && forall i :: 0 <= i < |s| ==> r[i] == LowerChar(s[i])
  {
    seq(|s|, i requires 0 <= i < |s| => LowerChar(s[i]))
  }

  lemma {:induction false} TrimStartLower(s: string)
    ensures TrimStart(ToLower(s)) == ToLower(TrimStart(s))
    decreases |s|
  {
    if s != [] && IsWhitespace(s[0]) {
      assert ToLower(s)[1..] == ToLower(s[1..]);
      TrimStartLower(s[1..]);
    }
  }

  lemma {:induction false} TrimEndLower(s: string)
    ensures TrimEnd(ToLower(s)) == ToLower(TrimEnd(s))
    decreases |s|
  {
    if s != [] && IsWhitespace(s[|s| - 1]) {
      assert ToLower(s)[..|s| - 1] == ToLower(s[..|s| - 1]);
      TrimEndLower(s[..|s| - 1]);
    }
  }

  /** Lower-casing and trimming commute: lower-casing never makes or removes
      white space. */
  lemma TrimLowerCommute(s: string)
    ensures Trim(ToLower(s)) == ToLower(Trim(s))
  {
    TrimStartLower(s);
    TrimEndLower(TrimStart(s));
  }

  /** `s.replace(/\s+/g, '')`: every white-space character removed. */
  function StripWhitespace(s: string): (r: string)
    ensures |r| == |s| - CountWhere(s, IsWhitespace)
    ensures forall i :: 0 <= i < |r| ==> !IsWhitespace(r[i])
    ensures forall c :: c in r <==> c in s && !IsWhitespace(c)
  {
    if s == [] then []
    else (if IsWhitespace(s[0]) then [] else [s[0]]) + StripWhitespace(s[1..])
  }

  /** Removal acts piecewise: stripping a concatenation strips each part. */
  lemma {:induction false} StripConcat(a: string, b: string)
    ensures StripWhitespace(a + b) == StripWhitespace(a) + StripWhitespace(b)
    decreases |a|
  {
    if a != [] {
      assert (a + b)[0] == a[0] && (a + b)[1..] == a[1..] + b;
      StripConcat(a[1..], b);
      var h := if IsWhitespace(a[0]) then [] else [a[0]];
      assert StripWhitespace(a + b) == h + StripWhitespace(a[1..] + b);
      assert StripWhitespace(a) == h + StripWhitespace(a[1..]);
    } else {
      assert a + b == b;
    }
  }

  /** A string without white space is left as it is. */
  lemma {:induction false} StripKeeps(s: string)
    requires forall i :: 0 <= i < |s| ==> !IsWhitespace(s[i])
    ensures StripWhitespace(s) == s
    decreases |s|
  {
    if s != [] {
      StripKeeps(s[1..]);
    }
  }

  /** Counts of the characters of `s` that satisfy `p`. */
  function CountWhere(s: string, p: char -> bool): (n: nat)
    ensures n <= |s|
  {
    if s == [] then 0 else (if p(s[0]) then 1 else 0) + CountWhere(s[1..], p)
  }

  /** A positive count means some character qualifies, and conversely. */
  lemma {:induction false} CountPositive(s: string, p: char -> bool)
    ensures CountWhere(s, p) >= 1 <==> exists i :: 0 <= i < |s| && p(s[i])
  {
    if s != [] {
      CountPositive(s[1..], p);
      if exists i :: 0 <= i < |s| && p(s[i]) {
        var i :| 0 <= i < |s| && p(s[i]);
        if i > 0 {
          assert s[1..][i - 1] == s[i];
        }
      }
      if exists i :: 0 <= i < |s[1..]| && p(s[1..][i]) {
        var i :| 0 <= i < |s[1..]| && p(s[1..][i]);
        assert s[i + 1] == s[1..][i];
      }
    }
  }

  predicate IsLowerLetter(c: char) { 'a' <= c <= 'z' }
  predicate IsUpperLetter(c: char) { 'A' <= c <= 'Z' }
  predicate IsDigit(c: char) { '0' <= c <= '9' }

  /** The symbol class of the strong-password validator. */
  predicate IsSymbol(c: char) {
    c in "-#!$@\U{00A3}%^&*()_+|~=`{}[]:\";'<>?,./\\ "
  }

  const MinPasswordLength: nat := 8

  /** `IsStrongPassword({minLength: 8, minLowercase: 1, minUppercase: 1,
      minNumbers: 1, minSymbols: 1})`. */
  predicate IsStrongPassword(s: string) {
    && |s| >= MinPasswordLength
    && CountWhere(s, IsLowerLetter) >= 1
    && CountWhere(s, IsUpperLetter) >= 1
    && CountWhere(s, IsDigit) >= 1
    && CountWhere(s, IsSymbol) >= 1
  }

  /** A strong password has at least eight characters and, among them, a
      lower-case letter, an upper-case letter, a digit and a symbol. */
  lemma StrongPasswordHas(s: string)
    requires IsStrongPassword(s)
    ensures |s| >= 8
    ensures exists i :: 0 <= i < |s| && IsLowerLetter(s[i])
    ensures exists i :: 0 <= i < |s| && IsUpperLetter(s[i])
    ensures exists i :: 0 <= i < |s| && IsDigit(s[i])
    ensures exists i :: 0 <= i < |s| && IsSymbol(s[i])
  {
    CountPositive(s, IsLowerLetter);
    CountPositive(s, IsUpperLetter);
    CountPositive(s, IsDigit);
    CountPositive(s, IsSymbol);
  }

  datatype UserDto = UserDto(
    username: string,
    password: string,
    email: string,
    phone: string,
    nickname: string,
    birthdate: string)

  lemma LowerKeepsEdges(s: string)
    requires NoEdgeWhitespace(s)
    ensures NoEdgeWhitespace(ToLower(s))
  {
    if s != [] {
      assert ToLower(s)[0] == LowerChar(s[0]);
      assert ToLower(s)[|s| - 1] == LowerChar(s[|s| - 1]);
    }
  }

  /** The `@Transform` decorators, which are also what `register` applies
      again before saving: trim the username and the nickname, trim and
      lower-case the email, remove all white space from the phone. */
  function Transform(raw: UserDto): (d: UserDto)
    ensures d.password == raw.password && d.birthdate == raw.birthdate
    ensures NoEdgeWhitespace(d.username) && NoEdgeWhitespace(d.nickname) && NoEdgeWhitespace(d.email)
    ensures forall i :: 0 <= i < |d.email| ==> !IsUpperLetter(d.email[i])
    ensures forall i :: 0 <= i < |d.phone| ==> !IsWhitespace(d.phone[i])
  {
    TrimEdges(raw.username);
    TrimEdges(raw.nickname);
    TrimEdges(raw.email);
    LowerKeepsEdges(Trim(raw.email));
    UserDto(
      Trim(raw.username),
      raw.password,
      ToLower(Trim(raw.email)),
      StripWhitespace(raw.phone),
      Trim(raw.nickname),
      raw.birthdate)
  }

  /** Normalising an already normalised record changes nothing, so the
      normalisation in `register` is a no-op on a body that went through the
      transforms. */
  lemma TransformIdempotent(raw: UserDto)
    ensures Transform(Transform(raw)) == Transform(raw)
  {
    var d := Transform(raw);
    TrimKeeps(d.username);
    TrimKeeps(d.nickname);
    TrimKeeps(d.email);
    assert ToLower(d.email) == d.email;
    StripKeeps(d.phone);
  }

  /** `@Length(2, 20)` after `@IsNotEmpty`. */
  predicate IsName(s: string) {
    s != "" && 2 <= |s| <= 20
  }

  /** Every validator of the body, on the transformed fields. The e-mail,
      Korean phone number and date-string validators come from a library and
      are parameters. */
  predicate IsValid(d: UserDto, isEmail: string -> bool, isKrPhone: string -> bool, isDateString: string -> bool) {
    && IsName(d.username)
    && IsStrongPassword(d.password) && d.password != ""
    && isEmail(d.email) && d.email != ""
    && isKrPhone(d.phone) && d.phone != ""
    && IsName(d.nickname)
    && isDateString(d.birthdate) && d.birthdate != ""
  }

  /** The validation pipe: transform, then validate. */
  function Validate(raw: UserDto, isEmail: string -> bool, isKrPhone: string -> bool, isDateString: string -> bool): (r: Option<UserDto>)
    ensures r.Some? <==> IsValid(Transform(raw), isEmail, isKrPhone, isDateString)
    ensures r.Some? ==> r.value == Transform(raw)
  {
    var d := Transform(raw);
    if IsValid(d, isEmail, isKrPhone, isDateString) then Some(d) else None
  }

  /** What an accepted body satisfies: the username and nickname are the
      trimmed inputs and 2 to 20 characters long, the password is strong,
      the e-mail is the trimmed lower-cased input, the phone has no white
      space, every field is non-empty, and `register`'s normalisation leaves
      the body unchanged. */
  lemma ValidatedBody(raw: UserDto, isEmail: string -> bool, isKrPhone: string -> bool, isDateString: string -> bool)
    requires Validate(raw, isEmail, isKrPhone, isDateString).Some?
    ensures var d := Validate(raw, isEmail, isKrPhone, isDateString).value;
      && d.username == Trim(raw.username) && 2 <= |d.username| <= 20
      && d.nickname == Trim(raw.nickname) && 2 <= |d.nickname| <= 20
      && d.email == ToLower(Trim(raw.email)) && isEmail(d.email)
      && isKrPhone(d.phone) && (forall i :: 0 <= i < |d.phone| ==> !IsWhitespace(d.phone[i]))
      && |d.password| >= 8 && isDateString(d.birthdate)
      && d.username != "" && d.password != "" && d.email != "" && d.phone != ""
      && d.nickname != "" && d.birthdate != ""
      && Transform(d) == d
  {
    TransformIdempotent(raw);
  }
}
