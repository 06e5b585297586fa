/** The POST /login endpoint: account lookup, password check, and the signed
    token it issues, with the JSON payload that token carries. */
module Login {
  import opened Wrappers
  import opened Entities
  import opened Store
  import opened Identity
  import opened Json

  const NameClaimType: string := "http://schemas.xmlsoap.org/ws/2005/05/identity/claims/name"
  const RoleClaimType: string := "http://schemas.microsoft.com/ws/2008/06/identity/claims/role"
  const SubjectClaimType: string := "sub"
  const TokenIdClaimType: string := "jti"

  const DefaultKey: string := "your-default-secret-key-that-is-long-enough-for-sha256"
  const DefaultIssuer: string := "fitnessTrackerApi"
  const DefaultAudience: string := "fitnessTrackerClient"

  /** HMAC-SHA256 signing refuses a key shorter than 256 bits. */
  const MinKeyBytes: nat := 32

  /** DateTime ticks at 1970-01-01. */
  const UnixEpochTicks: int := 621_355_968_000_000_000
  const TicksPerSecond: int := 10_000_000

  /** The three JwtSettings entries of the configuration; None when unset. */
  datatype JwtSettings = JwtSettings(key: Option<string>, issuer: Option<string>, audience: Option<string>)

  datatype LoginRequest = LoginRequest(username: string, password: string)

  datatype Claim = Claim(kind: string, value: string)

  datatype Token = Token(issuer: string, audience: string, claims: seq<Claim>, expires: Time, key: string)

  /** 200 with the token and its expiry, 401, or a 500 problem (an exception
      caught by the endpoint's own handler). */
  datatype LoginResult = Issued(token: Token, expiration: Time) | Unauthorized | Problem

  function SigningKey(settings: JwtSettings): string { settings.key.GetOr(DefaultKey) }
  function Issuer(settings: JwtSettings): string { settings.issuer.GetOr(DefaultIssuer) }
  function Audience(settings: JwtSettings): string { settings.audience.GetOr(DefaultAudience) }

  // ---------------------------------------------------------------------
  // Text forms

  function CharBytes(c: char): nat {
    if c as int < 0x80 then 1 else if c as int < 0x800 then 2 else if c as int < 0x1_0000 then 3 else 4
  }

  /** The length of Encoding.UTF8.GetBytes(text). */
  function Utf8Length(text: string): nat {
    if |text| == 0 then 0 else CharBytes(text[0]) + Utf8Length(text[1..])
  }

  /** Every character takes at least one byte, and ASCII text exactly one. */
  lemma {:induction false} Utf8LengthBounds(text: string)
    ensures Utf8Length(text) >= |text|
    ensures (forall i | 0 <= i < |text| :: text[i] as int < 0x80) ==> Utf8Length(text) == |text|
    decreases |text|
  {
    if |text| > 0 {
      Utf8LengthBounds(text[1..]);
      assert forall i | 1 <= i < |text| :: text[1..][i - 1] == text[i];
    }
  }

  predicate KeyLongEnough(key: string) {
    Utf8Length(key) >= MinKeyBytes
  }

  /** The built-in key is long enough to sign with. */
  lemma DefaultKeyLongEnough()
    ensures KeyLongEnough(DefaultKey)
  {
    Utf8LengthBounds(DefaultKey);
  }

  function HexDigit(d: nat): char
    requires d < 16
  {
    if d < 10 then ('0' as int + d) as char else ('a' as int + d - 10) as char
  }

  /** The lowest `width` hexadecimal digits of `n`, most significant first. */
  function Hex(n: nat, width: nat): (r: string)
    ensures |r| == width
    decreases width
  {
    if width == 0 then "" else Hex(n / 16, width - 1) + [HexDigit(n % 16)]
  }

  /** One hex group, a dash, and the groups after it. */
  function Dashed(group: string, rest: string): (r: string)
    ensures |r| == |group| + 1 + |rest| && r[|group|] == '-'
    ensures forall i | 0 <= i < |rest| :: r[|group| + 1 + i] == rest[i]
  {
    group + "-" + rest
  }

  /** Guid.ToString(): 32 lower-case hex digits grouped 8-4-4-4-12. */
  function GuidText(g: Guid): (r: string)
    ensures |r| == 36 && r[8] == '-' && r[13] == '-' && r[18] == '-' && r[23] == '-'
  {
    var last := Dashed(Hex(g / 0x1_0000_0000_0000, 4), Hex(g, 12));
    var third := Dashed(Hex(g / 0x1_0000_0000_0000_0000, 4), last);
    var second := Dashed(Hex(g / 0x1_0000_0000_0000_0000_0000, 4), third);
    Dashed(Hex(g / 0x1_0000_0000_0000_0000_0000_0000, 8), second)
  }

  /** DateTime to the whole seconds since 1970 a JWT carries: truncated, and
      zero for any time at or before 1970. */
  function EpochSeconds(t: Time): nat {
    if t <= UnixEpochTicks then 0 else (t - UnixEpochTicks) / TicksPerSecond
  }

  // ---------------------------------------------------------------------
  // The endpoint

  /** FindByEmailAsync first, then FindByNameAsync. */
  function LookupAccount(s: State, username: string): (r: Option<Principal>)
    ensures FindByEmail(s, username).Some? ==> r == FindByEmail(s, username)
    ensures r.Some? ==> r.value in s.principals
    ensures r.Some? ==> r.value.email == Some(username) || r.value.userName == Some(username)
    ensures r.None? <==>
              forall k | 0 <= k < |s.principals| ::
                s.principals[k].email != Some(username) && s.principals[k].userName != Some(username)
  {
    match FindByEmail(s, username)
    case Some(p) => Some(p)
    case None => FindByName(s, username)
  }

  function RoleClaims(roles: seq<string>): (r: seq<Claim>)
    ensures |r| == |roles|
    ensures forall i | 0 <= i < |r| :: r[i] == Claim(RoleClaimType, roles[i])
  {
    seq(|roles|, i requires 0 <= i < |roles| => Claim(RoleClaimType, roles[i]))
  }

  /** The claim list: name, subject, a fresh token id, then one role claim
      per role the account holds, in the order the store lists them. */
  function ClaimsFor(userName: string, account: Principal, jti: Guid): seq<Claim> {
    [Claim(NameClaimType, userName), Claim(SubjectClaimType, GuidText(account.id)),
     Claim(TokenIdClaimType, GuidText(jti))]
    + RoleClaims(account.roles)
  }

  /** The login handler. `jti` is the Guid.NewGuid() for the token id and
      `now` the local clock. A missing account and a wrong password give the
      same 401; an account with no user name, a signing key under 256 bits,
      or an expiry past DateTime.MaxValue raise and become a 500. */
  function LoginHandler(s: State, policy: IdentityPolicy, settings: JwtSettings, req: LoginRequest,
                        jti: NewGuid, now: Time): (r: LoginResult)
    ensures r.Unauthorized? <==>
              || LookupAccount(s, req.username).None?
              || !policy.verify(LookupAccount(s, req.username).value.passwordHash, req.password)
    ensures r.Problem? <==>
              && LookupAccount(s, req.username).Some?
              && policy.verify(LookupAccount(s, req.username).value.passwordHash, req.password)
              && (|| LookupAccount(s, req.username).value.userName.None?
                  || !KeyLongEnough(SigningKey(settings))
                  || now + TicksPerDay > MaxTime)
    ensures r.Issued? ==>
              var account := LookupAccount(s, req.username).value;
              && account.userName.Some?
              && r.expiration == now + TicksPerDay && r.token.expires == r.expiration
              && r.token.issuer == Issuer(settings) && r.token.audience == Audience(settings)
              && r.token.key == SigningKey(settings) && KeyLongEnough(r.token.key)
              && r.token.claims == ClaimsFor(account.userName.value, account, jti)
  {
    match LookupAccount(s, req.username)
    case None => Unauthorized
    case Some(account) =>
      if !policy.verify(account.passwordHash, req.password) then Unauthorized
      else if account.userName.None? then Problem
      else if !KeyLongEnough(SigningKey(settings)) then Problem
      else if now + TicksPerDay > MaxTime then Problem
      else
        var expiry := now + TicksPerDay;
        var claims := ClaimsFor(account.userName.value, account, jti);
        Issued(Token(Issuer(settings), Audience(settings), claims, expiry, SigningKey(settings)), expiry)
  }

  /** An unknown user name and a known one with a wrong password are
      answered identically. */
  lemma LoginDoesNotRevealAccounts(s: State, policy: IdentityPolicy, settings: JwtSettings,
                                   unknown: string, known: string, wrong: string, password: string,
                                   jti: NewGuid, now: Time)
    requires LookupAccount(s, unknown).None?
    requires LookupAccount(s, known).Some? && !policy.verify(LookupAccount(s, known).value.passwordHash, wrong)
    ensures LoginHandler(s, policy, settings, LoginRequest(unknown, password), jti, now)
         == LoginHandler(s, policy, settings, LoginRequest(known, wrong), jti, now)
  {
  }

  /** The three fixed claim types are not the role type. */
  lemma FixedClaimTypesAreNotRoles()
    ensures NameClaimType != RoleClaimType && SubjectClaimType != RoleClaimType && TokenIdClaimType != RoleClaimType
  {
    assert |NameClaimType| == 58 && |RoleClaimType| == 60;
    assert |SubjectClaimType| == |TokenIdClaimType| == 3 < |RoleClaimType|;
  }

  /** Role claims after claims of other types: the role values are exactly
      the roles. */
  lemma {:induction false} RoleValuesAfterFixedClaims(head: seq<Claim>, roles: seq<string>)
    requires forall i | 0 <= i < |head| :: head[i].kind != RoleClaimType
    ensures ValuesOf(head + RoleClaims(roles), RoleClaimType) == roles
  {
    ValuesOfConcat(head, RoleClaims(roles), RoleClaimType);
    ValuesOfSingleKind(RoleClaims(roles), RoleClaimType, roles);
    ValuesOfEmpty(head, RoleClaimType);
  }

  /** The claim list starts with name, subject and token id, and its role
      claims are exactly the account's roles, in order. */
  lemma ClaimsForShape(userName: string, account: Principal, jti: Guid)
    ensures var claims := ClaimsFor(userName, account, jti);
            && |claims| == 3 + |account.roles|
            && claims[0] == Claim(NameClaimType, userName)
            && claims[1] == Claim(SubjectClaimType, GuidText(account.id))
            && claims[2] == Claim(TokenIdClaimType, GuidText(jti))
            && ValuesOf(claims, RoleClaimType) == account.roles
  {
    var head := [Claim(NameClaimType, userName), Claim(SubjectClaimType, GuidText(account.id)),
                 Claim(TokenIdClaimType, GuidText(jti))];
    FixedClaimTypesAreNotRoles();
    RoleValuesAfterFixedClaims(head, account.roles);
  }

  /** What an issued token claims, in terms of the account that logged in. */
  lemma IssuedClaims(s: State, policy: IdentityPolicy, settings: JwtSettings, req: LoginRequest,
                     jti: NewGuid, now: Time)
    ensures var r := LoginHandler(s, policy, settings, req, jti, now);
            r.Issued? ==>
              var account := LookupAccount(s, req.username).value;
              && |r.token.claims| == 3 + |account.roles|
              && r.token.claims[0] == Claim(NameClaimType, account.userName.value)
              && r.token.claims[1] == Claim(SubjectClaimType, GuidText(account.id))
              && r.token.claims[2] == Claim(TokenIdClaimType, GuidText(jti))
              && ValuesOf(r.token.claims, RoleClaimType) == account.roles
  {
    var r := LoginHandler(s, policy, settings, req, jti, now);
    if r.Issued? {
      var account := LookupAccount(s, req.username).value;
      ClaimsForShape(account.userName.value, account, jti);
    }
  }

  // ---------------------------------------------------------------------
  // The JSON payload of the written token

  /** The values of every claim of one type, in claim order. */
  function ValuesOf(claims: seq<Claim>, kind: string): (r: seq<string>)
    ensures |r| <= |claims|
    decreases |claims|
  {
    if |claims| == 0 then []
    else (if claims[0].kind == kind then [claims[0].value] else []) + ValuesOf(claims[1..], kind)
  }

  lemma {:induction false} ValuesOfConcat(a: seq<Claim>, b: seq<Claim>, kind: string)
    ensures ValuesOf(a + b, kind) == ValuesOf(a, kind) + ValuesOf(b, kind)
    decreases |a|
  {
    if |a| > 0 {
      assert (a + b)[1..] == a[1..] + b;
      ValuesOfConcat(a[1..], b, kind);
    } else {
      assert a + b == b;
    }
  }

  lemma {:induction false} ValuesOfSingleKind(claims: seq<Claim>, kind: string, values: seq<string>)
    requires |claims| == |values|
    requires forall i | 0 <= i < |claims| :: claims[i] == Claim(kind, values[i])
    ensures ValuesOf(claims, kind) == values
    decreases |claims|
  {
    if |claims| > 0 {
      ValuesOfSingleKind(claims[1..], kind, values[1..]);
    }
  }

  /** How the token writer serialises the claims of one type: a lone value
      as a string, several as an array. */
  function ClaimJson(values: seq<string>): JsValue {
    if |values| == 1 then JsString(values[0])
    else JsArray(seq(|values|, i requires 0 <= i < |values| => JsString(values[i])))
  }

  /** The payload object: one property per claim type, then the expiry in
      epoch seconds, the issuer and the audience. */
  function PayloadOf(t: Token): map<string, JsValue> {
    var kinds := set c | c in t.claims :: c.kind;
    var fromClaims := map kind | kind in kinds :: ClaimJson(ValuesOf(t.claims, kind));
    fromClaims["exp" := JsNumber(EpochSeconds(t.expires))]["iss" := JsString(t.issuer)]["aud" := JsString(t.audience)]
  }

  lemma {:induction false} ValuesOfEmpty(claims: seq<Claim>, kind: string)
    ensures ValuesOf(claims, kind) == [] <==> forall i | 0 <= i < |claims| :: claims[i].kind != kind
    decreases |claims|
  {
    if |claims| > 0 {
      ValuesOfEmpty(claims[1..], kind);
      assert forall i | 1 <= i < |claims| :: claims[1..][i - 1] == claims[i];
    }
  }

  /** The role property of a payload is read off the token's role claims:
      absent without any, a string for one, an array of strings for several. */
  lemma PayloadRoleProperty(t: Token)
    ensures var roles := ValuesOf(t.claims, RoleClaimType);
            Property(PayloadOf(t), RoleClaimType) == if roles == [] then JsUndefined else ClaimJson(roles)
  {
    var claims := t.claims;
    var kinds := set c | c in claims :: c.kind;
    ValuesOfEmpty(claims, RoleClaimType);
    if ValuesOf(claims, RoleClaimType) == [] {
      assert RoleClaimType !in kinds by {
        forall c | c in claims
          ensures c.kind != RoleClaimType
        {
          var i :| 0 <= i < |claims| && claims[i] == c;
        }
      }
    } else {
      var i :| 0 <= i < |claims| && claims[i].kind == RoleClaimType;
      assert claims[i] in claims;
      assert RoleClaimType in kinds;
    }
  }

  /** The role property of an issued token's payload, in terms of the roles
      of the account that logged in. */
  lemma IssuedRoleProperty(s: State, policy: IdentityPolicy, settings: JwtSettings, req: LoginRequest,
                           jti: NewGuid, now: Time)
    ensures var r := LoginHandler(s, policy, settings, req, jti, now);
            r.Issued? ==>
              var roles := LookupAccount(s, req.username).value.roles;
              Property(PayloadOf(r.token), RoleClaimType)
              == if roles == [] then JsUndefined else ClaimJson(roles)
  {
    var r := LoginHandler(s, policy, settings, req, jti, now);
    if r.Issued? {
      IssuedClaims(s, policy, settings, req, jti, now);
      PayloadRoleProperty(r.token);
    }
  }
}
