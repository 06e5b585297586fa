/** The browser's login form: the empty-field pre-check, the request body it
    posts, and how it reads the caller's role back out of the returned
    token. */
module LoginForm {
  import opened Wrappers
  import opened Json
  import Login

  const MissingCredentials: string := "Please enter both email and password"
  /** The role the form falls back to whenever it cannot read one. */
  const FallbackRole: string := "User"

  datatype Form = Form(email: string, password: string, error: Option<string>)

  /** `handleSubmit` up to the request: an empty email or password sets the
      error and sends nothing; otherwise the error is cleared and the email
      is posted under the key `username`. */
  function Submit(f: Form): (r: (Form, Option<Login.LoginRequest>))
    ensures r.1.None? <==> f.email == "" || f.password == ""
    ensures r.1.None? ==> r.0.error == Some(MissingCredentials)
    ensures r.1.Some? ==> r.1.value == Login.LoginRequest(f.email, f.password) && r.0.error == None
    ensures r.0.email == f.email && r.0.password == f.password
  {
    if f.email == "" || f.password == "" then (f.(error := Some(MissingCredentials)), None)
    else (f.(error := None), Some(Login.LoginRequest(f.email, f.password)))
  }

  // ---------------------------------------------------------------------
  // `String.prototype.split` with a one-character separator

  /** Every segment between separators, empty ones included; the empty
      string splits into one empty segment. */
  function Split(s: string, sep: char): (r: seq<string>)
    ensures |r| >= 1
    ensures forall i | 0 <= i < |r| :: sep !in r[i]
    decreases |s|
  {
    if |s| == 0 then [""]
    else
      var rest := Split(s[1..], sep);
      if s[0] == sep then [""] + rest
      else [[s[0]] + rest[0]] + rest[1..]
  }

  /** The inverse of `Split`: the segments with the separator between them. */
  function Join(parts: seq<string>, sep: char): string
    decreases |parts|
  {
    if |parts| == 0 then ""
    else if |parts| == 1 then parts[0]
    else parts[0] + [sep] + Join(parts[1..], sep)
  }

  lemma {:induction false} SplitThenJoin(s: string, sep: char)
    ensures Join(Split(s, sep), sep) == s
    decreases |s|
  {
    if |s| > 0 {
      var rest := Split(s[1..], sep);
      SplitThenJoin(s[1..], sep);
      if s[0] == sep {
        assert Split(s, sep) == [""] + rest;
        assert ([""] + rest)[1..] == rest;
        assert s == [sep] + s[1..];
      } else if |rest| == 1 {
        assert Split(s, sep) == [[s[0]] + rest[0]];
        assert s == [s[0]] + s[1..];
      } else {
        var parts := [[s[0]] + rest[0]] + rest[1..];
        assert parts[1..] == rest[1..];
        assert Join(rest, sep) == rest[0] + [sep] + Join(rest[1..], sep);
        assert s == [s[0]] + s[1..];
      }
    }
  }

  /** A separator-free prefix glues onto the first segment of what follows. */
  lemma {:induction false} SplitFreePrefix(a: string, b: string, sep: char)
    requires sep !in a
    ensures Split(a + b, sep) == [a + Split(b, sep)[0]] + Split(b, sep)[1..]
    decreases |a|
  {
    if |a| > 0 {
      assert (a + b)[0] == a[0];
      assert (a + b)[1..] == a[1..] + b;
      SplitFreePrefix(a[1..], b, sep);
      assert [a[0]] + (a[1..] + Split(b, sep)[0]) == a + Split(b, sep)[0];
    } else {
      assert a + b == b;
      assert a + Split(b, sep)[0] == Split(b, sep)[0];
      assert Split(b, sep) == [Split(b, sep)[0]] + Split(b, sep)[1..];
    }
  }

  lemma {:induction false} JoinThenSplit(parts: seq<string>, sep: char)
    requires |parts| >= 1
    requires forall i | 0 <= i < |parts| :: sep !in parts[i]
    ensures Split(Join(parts, sep), sep) == parts
    decreases |parts|
  {
    if |parts| == 1 {
      SplitFreePrefix(parts[0], "", sep);
      assert parts[0] + "" == parts[0];
    } else {
      var tail := Join(parts[1..], sep);
      JoinThenSplit(parts[1..], sep);
      assert Join(parts, sep) == parts[0] + ([sep] + tail);
      SplitFreePrefix(parts[0], [sep] + tail, sep);
      assert ([sep] + tail)[1..] == tail;
      assert Split([sep] + tail, sep) == [""] + parts[1..];
      assert parts[0] + "" == parts[0];
      assert parts == [parts[0]] + parts[1..];
    }
  }

  /** `parts[i]`: undefined past the end, where calling a string method on it
      throws. */
  function Segment(parts: seq<string>, i: nat): (r: Option<string>)
    ensures r.Some? <==> i < |parts|
    ensures r.Some? ==> r.value == parts[i]
  {
    if i < |parts| then Some(parts[i]) else None
  }

  // ---------------------------------------------------------------------
  // Base64url to base64 (section 5 of RFC 4648)

  predicate IsAlphaNumeric(c: char) {
    ('A' <= c <= 'Z') || ('a' <= c <= 'z') || ('0' <= c <= '9')
  }

  /** The URL-safe alphabet, without padding. */
  predicate UrlSafeText(s: string) {
    forall i | 0 <= i < |s| :: IsAlphaNumeric(s[i]) || s[i] == '-' || s[i] == '_'
  }

  /** The standard alphabet, without padding. */
  predicate StandardText(s: string) {
    forall i | 0 <= i < |s| :: IsAlphaNumeric(s[i]) || s[i] == '+' || s[i] == '/'
  }

  function StandardChar(c: char): char {
    if c == '-' then '+' else if c == '_' then '/' else c
  }

  function UrlSafeChar(c: char): char {
    if c == '+' then '-' else if c == '/' then '_' else c
  }

  /** The two global `replace` calls: '-' becomes '+' and '_' becomes '/';
      nothing else changes and no '=' padding is added. */
  function ToStandardAlphabet(s: string): (r: string)
    ensures |r| == |s|
    ensures '-' !in r && '_' !in r
    ensures UrlSafeText(s) ==> StandardText(r)
  {
    seq(|s|, i requires 0 <= i < |s| => StandardChar(s[i]))
  }

  /** The encoder's direction, used only to state the round trip. */
  function ToUrlSafeAlphabet(s: string): (r: string)
    ensures |r| == |s|
    ensures '+' !in r && '/' !in r
    ensures StandardText(s) ==> UrlSafeText(r)
  {
    seq(|s|, i requires 0 <= i < |s| => UrlSafeChar(s[i]))
  }

  /** On the alphabets they are meant for, the two conversions undo each
      other. */
  lemma AlphabetRoundTrip(url: string, std: string)
    ensures UrlSafeText(url) ==> ToUrlSafeAlphabet(ToStandardAlphabet(url)) == url
    ensures StandardText(std) ==> ToStandardAlphabet(ToUrlSafeAlphabet(std)) == std
  {
    if UrlSafeText(url) {
      assert forall i | 0 <= i < |url| :: ToUrlSafeAlphabet(ToStandardAlphabet(url))[i] == url[i];
    }
    if StandardText(std) {
      assert forall i | 0 <= i < |std| :: ToStandardAlphabet(ToUrlSafeAlphabet(std))[i] == std[i];
    }
  }

  // ---------------------------------------------------------------------
  // `getUserRoleFromToken`

  /** `atob`, the percent-decoding step and `JSON.parse` together; None
      stands for any of them throwing. */
  type Decoder = string -> Option<JsValue>

  /** What the function returns once it holds the parsed payload. Reading a
      property of null or undefined throws, which lands in the fallback;
      other non-objects simply have no such property. A truthy claim is
      returned as is, or its first element when it is an array. */
  function RoleFromPayload(payload: JsValue): JsValue {
    var claim := if payload.JsObject? then Property(payload.fields, Login.RoleClaimType) else JsUndefined;
    if !Truthy(claim) then JsString(FallbackRole)
    else if claim.JsArray? then Element(claim.items, 0)
    else claim
  }

  function RoleFromToken(token: string, decode: Decoder): (r: JsValue)
    ensures |Split(token, '.')| < 2 ==> r == JsString(FallbackRole)
  {
    match Segment(Split(token, '.'), 1)
    case None => JsString(FallbackRole)
    case Some(part) =>
      match decode(ToStandardAlphabet(part))
      case None => JsString(FallbackRole)
      case Some(payload) => RoleFromPayload(payload)
  }

  /** Each shape the role claim can take, and what the form makes of it. */
  lemma RoleFromPayloadCases(fields: map<string, JsValue>)
    ensures var claim := Property(fields, Login.RoleClaimType);
            var role := RoleFromPayload(JsObject(fields));
            && (claim.JsString? && claim.s != "" ==> role == claim)
            && (claim.JsArray? ==> role == Element(claim.items, 0))
            && (claim.JsUndefined? || claim.JsNull? || claim == JsString("") ==> role == JsString(FallbackRole))
  {
  }

  /** Only the second segment matters: two tokens whose second segments
      agree give the same role, and an undecodable segment gives the
      fallback. */
  lemma RoleReadsSecondSegmentOnly(a: string, b: string, decode: Decoder)
    requires Segment(Split(a, '.'), 1) == Segment(Split(b, '.'), 1)
    ensures RoleFromToken(a, decode) == RoleFromToken(b, decode)
    ensures var part := Segment(Split(a, '.'), 1);
            part.Some? && decode(ToStandardAlphabet(part.value)).None? ==> RoleFromToken(a, decode) == JsString(FallbackRole)
  {
  }

  /** The form's test stub returns 'fake-token', which has no second
      segment, so the role falls back to 'User'. */
  lemma FakeTokenFallsBack(decode: Decoder)
    ensures RoleFromToken("fake-token", decode) == JsString(FallbackRole)
  {
    var parts := Split("fake-token", '.');
    assert "fake-token" == Join(["fake-token"], '.');
    JoinThenSplit(["fake-token"], '.');
  }
}
