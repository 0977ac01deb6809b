/**
 * The input rules the controllers share: the email pattern
 * `^[^\s@]+@[^\s@]+\.[^\s@]+$` as a string predicate, email normalisation,
 * the password and name minimums, the role vocabulary, and the validation
 * errors with the exact titles and messages the API returns.
 */
module Validation {
  import opened Outcomes
  import opened Schema
  import opened JsRuntime

  const MinPasswordLength: nat := 6
  const MinTitleLength: nat := 3
  const MinTeamNameLength: nat := 2

  const InvalidEmail: Error := Error(Validation, "Email inválido", "Formato de email inválido")
  const WeakPassword: Error := Error(Validation, "Senha fraca", "Senha deve ter pelo menos 6 caracteres")
  const InvalidRole: Error := Error(Validation, "Role inválida", "Role deve ser \"admin\" ou \"member\"")
  const NothingToUpdate: Error := Error(Validation, "Nenhum dado para atualizar", "Forneça pelo menos um campo para atualizar")
  /** The 409 the controllers answer when the model reports "Email já está em uso". */
  const EmailExists: Error := Error(Conflict, "Email já existe", "Este email já está sendo usado por outro usuário")

  // ---------------------------------------------------------------------------
  // The email pattern

  /** A character of the class `[^\s@]`. */
  predicate PlainChar(c: char) {
    !IsSpace(c) && c != '@'
  }

  /** `[^\s@]+` */
  predicate PlainRun(s: string) {
    |s| >= 1 && forall i :: 0 <= i < |s| ==> PlainChar(s[i])
  }

  /** `[^\s@]+\.[^\s@]+`: plain characters with a dot that has at least one character on each side. */
  predicate Domain(d: string) {
    (forall i :: 0 <= i < |d| ==> PlainChar(d[i]))
    && exists i :: 1 <= i < |d| - 1 && d[i] == '.'
  }

  /** `^[^\s@]+@[^\s@]+\.[^\s@]+$` */
  predicate ValidEmail(s: string) {
    exists k :: 0 <= k < |s| && s[k] == '@' && PlainRun(s[..k]) && Domain(s[k + 1..])
  }

  /**
   * The pattern accepts a plain address and refuses one without a dot after
   * the '@', one with an empty local part, one whose domain starts with the
   * dot, one with a space, and one with two '@'.
   */
  lemma EmailPatternExamples()
    ensures ValidEmail("ana@exemplo.com")
    ensures !ValidEmail("ana@exemplo")
    ensures !ValidEmail("@exemplo.com")
    ensures !ValidEmail("ana@.com")
    ensures !ValidEmail("ana maria@exemplo.com")
    ensures !ValidEmail("ana@b@exemplo.com")
  {
    PlainAddress();
    NoDot();
    EmptyLocal();
    LeadingDot();
    SpaceInside();
    TwoAts();
  }

  lemma PlainAddress() ensures ValidEmail("ana@exemplo.com") {
    var s, local, domain := "ana@exemplo.com", "ana", "exemplo.com";
    assert s[..3] == local && s[4..] == domain;
    assert PlainRun(local) by {
      forall i | 0 <= i < |local| ensures PlainChar(local[i]) {
        assert local[i] in "ana";
      }
    }
    assert Domain(domain) by {
      forall i | 0 <= i < |domain| ensures PlainChar(domain[i]) {
        assert domain[i] in "exemplo.com";
      }
      assert domain[7] == '.';
    }
    assert s[3] == '@';
  }

  lemma NoDot() ensures !ValidEmail("ana@exemplo") {
    AtSplit("ana@exemplo", 3);
    assert "ana@exemplo"[4..] == "exemplo";
  }

  lemma EmptyLocal() ensures !ValidEmail("@exemplo.com") {
    AtSplit("@exemplo.com", 0);
  }

  lemma LeadingDot() ensures !ValidEmail("ana@.com") {
    AtSplit("ana@.com", 3);
    assert "ana@.com"[4..] == ".com";
  }

  lemma SpaceInside() ensures !ValidEmail("ana maria@exemplo.com") {
    AtSplit("ana maria@exemplo.com", 9);
    assert "ana maria@exemplo.com"[..9][3] == ' ';
  }

  lemma TwoAts() ensures !ValidEmail("ana@b@exemplo.com") {
    var s := "ana@b@exemplo.com";
    assert s[3] == '@' && s[5] == '@';
    if ValidEmail(s) {
      ValidEmailShape(s);
      assert false;
    }
  }

  /** When `s[k]` is the only '@' of `s`, the pattern matches exactly when the parts around it do. */
  lemma AtSplit(s: string, k: int)
    requires 0 <= k < |s| && s[k] == '@'
    requires forall j :: 0 <= j < |s| && j != k ==> s[j] != '@'
    ensures ValidEmail(s) <==> PlainRun(s[..k]) && Domain(s[k + 1..])
  {
    if ValidEmail(s) {
      var m :| 0 <= m < |s| && s[m] == '@' && PlainRun(s[..m]) && Domain(s[m + 1..]);
      assert m == k;
    }
  }

  /** A matching email holds exactly one '@' and no white space. */
  lemma ValidEmailShape(s: string)
    requires ValidEmail(s)
    ensures NoSpace(s)
    ensures exists k :: 0 <= k < |s| && s[k] == '@' && forall j :: 0 <= j < |s| && j != k ==> s[j] != '@'
  {
    var k :| 0 <= k < |s| && s[k] == '@' && PlainRun(s[..k]) && Domain(s[k + 1..]);
    forall j | 0 <= j < |s| && j != k ensures PlainChar(s[j]) {
      if j < k {
        assert s[..k][j] == s[j];
      } else {
        assert s[k + 1..][j - k - 1] == s[j];
      }
    }
  }

  /** `email.toLowerCase().trim()`, the form stored and looked up. */
  function NormalizeEmail(s: string): string {
    Trim(ToLower(s))
  }

  /** The stored form is a fixed point: normalising a normalised email changes nothing. */
  lemma NormalizeIdempotent(s: string)
    ensures NormalizeEmail(NormalizeEmail(s)) == NormalizeEmail(s)
  {
    var t := NormalizeEmail(s);
    NormalizedIsLower(s);
    assert NormalizeEmail(t) == Trim(t);
    TrimIdempotent(ToLower(s));
  }

  /** A normalised email has no capital left for a second lower-casing to change. */
  lemma NormalizedIsLower(s: string)
    ensures ToLower(NormalizeEmail(s)) == NormalizeEmail(s)
  {
    LowerIdempotent(s);
    TrimKeepsLower(ToLower(s));
  }

  /** A matching email is only lower-cased by normalisation, and it still matches afterwards. */
  lemma NormalizedEmailMatches(s: string)
    requires ValidEmail(s)
    ensures NormalizeEmail(s) == ToLower(s)
    ensures ValidEmail(NormalizeEmail(s))
  {
    LowerKeepsMatch(s);
    ValidEmailShape(ToLower(s));
    TrimSpaceless(ToLower(s));
  }

  /** Lower-casing changes no '@', '.' or white space, so the pattern still matches. */
  lemma LowerKeepsMatch(s: string)
    requires ValidEmail(s)
    ensures ValidEmail(ToLower(s))
  {
    var l := ToLower(s);
    var k :| 0 <= k < |s| && s[k] == '@' && PlainRun(s[..k]) && Domain(s[k + 1..]);
    assert l[k] == '@';
    assert PlainRun(l[..k]) by {
      forall i | 0 <= i < k ensures PlainChar(l[..k][i]) {
        assert s[..k][i] == s[i];
      }
    }
    var d, e := s[k + 1..], l[k + 1..];
    forall i | 0 <= i < |e| ensures PlainChar(e[i]) && (e[i] == '.' <==> d[i] == '.') {
      assert d[i] == s[k + 1 + i];
    }
    var i :| 1 <= i < |d| - 1 && d[i] == '.';
    assert e[i] == '.';
    assert Domain(e);
  }

  /** Trim leaves a string without white space as it is. */
  lemma TrimSpaceless(s: string)
    requires NoSpace(s)
    ensures Trim(s) == s
  {
    TrimStartOfTrimmed(s);
    TrimEndOfTrimmed(s);
  }

  // ---------------------------------------------------------------------------
  // Other rules

  /** `password.length >= 6` (length counted in characters). */
  predicate StrongPassword(p: string) {
    |p| >= MinPasswordLength
  }

  /** Six characters are the least a password may have. */
  lemma PasswordBoundary()
    ensures !StrongPassword("12345") && StrongPassword("123456")
  {
  }

  /** `['admin', 'member'].includes(role)`, with an undefined or null role excluded. */
  predicate RoleParam(p: Param) {
    p.Str? && IsRole(p.s)
  }

  /** `text.trim().length >= n` */
  predicate LongEnough(text: string, n: nat) {
    |Trim(text)| >= n
  }

  /** The 400 of register and createUser when name, email or password is missing. */
  const MissingUserFields: Error := Error(Validation, "Dados obrigatórios", "Nome, email e senha são obrigatórios")

  /** The 500 of register and createUser for any other failure of the model. */
  const CreateUserFailure: Error := Error(Internal, "Erro interno do servidor", "Erro ao criar usuário")

  /** A new account as register and createUser pass it to the model. */
  datatype NewUser = NewUser(name: string, email: string, password: string, role: string)

  /** The first checks of register and createUser, in order: all three fields present, the email matches, the password is long enough. */
  function CheckNewUser(name: Param, email: Param, password: Param): (r: Outcome)
    ensures !Truthy(name) || !Truthy(email) || !Truthy(password) ==> r == Fail(MissingUserFields)
    ensures Truthy(name) && Truthy(email) && Truthy(password) && !ValidEmail(email.s) ==> r == Fail(InvalidEmail)
    ensures Truthy(name) && Truthy(email) && Truthy(password) && ValidEmail(email.s) && !StrongPassword(password.s) ==>
      r == Fail(WeakPassword)
    ensures r.Pass? <==> Truthy(name) && Truthy(email) && Truthy(password) && ValidEmail(email.s) && StrongPassword(password.s)
  {
    if !Truthy(name) || !Truthy(email) || !Truthy(password) then Fail(MissingUserFields)
    else if !ValidEmail(email.s) then Fail(InvalidEmail)
    else if !StrongPassword(password.s) then Fail(WeakPassword)
    else Pass
  }

  /** The account created from checked fields: the name trimmed, the email normalised, which leaves it lower-cased and still matching. */
  function Prepared(name: string, email: string, password: string, role: string): (u: NewUser)
    requires ValidEmail(email)
    ensures u.email == ToLower(email) && ValidEmail(u.email)
    ensures u.name == Trim(name) && u.password == password && u.role == role
  {
    NormalizedEmailMatches(email);
    NewUser(Trim(name), NormalizeEmail(email), password, role)
  }

  /**
   * The update object updateProfile and updateUser build from the body: a
   * truthy name trimmed, a truthy email normalised, a truthy password as it
   * is, in that order.
   */
  function UserFields(name: Param, email: Param, password: Param): seq<(string, string)> {
    var n := SetIf([], Truthy(name), "name", if Truthy(name) then Trim(name.s) else "");
    var e := SetIf(n, Truthy(email), "email", if Truthy(email) then NormalizeEmail(email.s) else "");
    SetIf(e, Truthy(password), "password", if Truthy(password) then password.s else "")
  }

  /** The object names each field at most once, with its prepared value, exactly when the body holds it truthy, and nothing else. */
  lemma UserFieldsShape(name: Param, email: Param, password: Param)
    ensures DistinctKeys(UserFields(name, email, password))
    ensures forall i :: 0 <= i < |UserFields(name, email, password)| ==>
      UserFields(name, email, password)[i].0 in ["name", "email", "password"]
    ensures LastValue(UserFields(name, email, password), "name") == (if Truthy(name) then Some(Trim(name.s)) else None)
    ensures LastValue(UserFields(name, email, password), "email") ==
      (if Truthy(email) then Some(NormalizeEmail(email.s)) else None)
    ensures LastValue(UserFields(name, email, password), "password") == (if Truthy(password) then Some(password.s) else None)
    ensures UserFields(name, email, password) == [] <==> !Truthy(name) && !Truthy(email) && !Truthy(password)
  {
    var nv := if Truthy(name) then Trim(name.s) else "";
    var ev := if Truthy(email) then NormalizeEmail(email.s) else "";
    var pv := if Truthy(password) then password.s else "";
    FieldsShape(Truthy(name), nv, Truthy(email), ev, Truthy(password), pv);
    assert UserFields(name, email, password)
        == SetIf(SetIf(SetIf([], Truthy(name), "name", nv), Truthy(email), "email", ev), Truthy(password), "password", pv);
  }

  /** The three `if (x) updates.x = ...` steps, for any values. */
  lemma FieldsShape(nameGiven: bool, nv: string, emailGiven: bool, ev: string, passwordGiven: bool, pv: string)
    ensures var f := SetIf(SetIf(SetIf([], nameGiven, "name", nv), emailGiven, "email", ev), passwordGiven, "password", pv);
      && DistinctKeys(f)
      && (forall i :: 0 <= i < |f| ==> f[i].0 in ["name", "email", "password"])
      && LastValue(f, "name") == (if nameGiven then Some(nv) else None)
      && LastValue(f, "email") == (if emailGiven then Some(ev) else None)
      && LastValue(f, "password") == (if passwordGiven then Some(pv) else None)
      && (f == [] <==> !nameGiven && !emailGiven && !passwordGiven)
  {
    var n := SetIf([], nameGiven, "name", nv);
    NameFieldShape(nameGiven, nv);
    var e := SetIf(n, emailGiven, "email", ev);
    EmailFieldShape(n, emailGiven, ev);
    PasswordFieldShape(e, passwordGiven, pv);
  }

  lemma PasswordFieldShape(e: seq<(string, string)>, given: bool, v: string)
    requires DistinctKeys(e) && !HasKey(e, "password")
    requires forall i :: 0 <= i < |e| ==> e[i].0 in ["name", "email"]
    ensures var f := SetIf(e, given, "password", v);
      && DistinctKeys(f) && |f| == |e| + (if given then 1 else 0)
      && (forall i :: 0 <= i < |f| ==> f[i].0 in ["name", "email", "password"])
      && LastValue(f, "password") == (if given then Some(v) else None)
      && LastValue(f, "name") == LastValue(e, "name")
      && LastValue(f, "email") == LastValue(e, "email")
  {
    var f := SetIf(e, given, "password", v);
    SetIfShape(e, given, "password", v);
    SetIfOther(e, given, "password", v, "name");
    SetIfOther(e, given, "password", v, "email");
    assert forall i :: 0 <= i < |e| ==> f[i] == e[i];
  }

  lemma NameFieldShape(given: bool, v: string)
    ensures var n := SetIf([], given, "name", v);
      && DistinctKeys(n) && |n| == (if given then 1 else 0)
      && (forall i :: 0 <= i < |n| ==> n[i].0 == "name")
      && !HasKey(n, "email") && !HasKey(n, "password")
      && LastValue(n, "name") == (if given then Some(v) else None)
  {
  }

  lemma EmailFieldShape(n: seq<(string, string)>, given: bool, v: string)
    requires DistinctKeys(n) && forall i :: 0 <= i < |n| ==> n[i].0 == "name"
    ensures var e := SetIf(n, given, "email", v);
      && DistinctKeys(e) && |e| == |n| + (if given then 1 else 0)
      && (forall i :: 0 <= i < |e| ==> e[i].0 in ["name", "email"])
      && !HasKey(e, "password")
      && LastValue(e, "email") == (if given then Some(v) else None)
      && LastValue(e, "name") == LastValue(n, "name")
  {
    var e := SetIf(n, given, "email", v);
    assert !HasKey(n, "email") && !HasKey(n, "password");
    SetIfShape(n, given, "email", v);
    SetIfOther(n, given, "email", v, "name");
    SetIfOther(n, given, "email", v, "password");
    if given {
      assert forall i :: 0 <= i < |n| ==> e[i] == n[i];
      assert e[|n|] == ("email", v);
    }
    assert forall i :: 0 <= i < |e| ==> e[i].0 in ["name", "email"];
  }

  /** `error.message === 'Email já está em uso'` decides between the 409 and the handler's 500. */
  function CatchEmailInUse(e: Error, fallback: Error): (r: Error)
    ensures e.title == "Email já está em uso" ==> r == EmailExists
    ensures e.title != "Email já está em uso" ==> r == fallback
  {
    if e.title == "Email já está em uso" then EmailExists else fallback
  }
}
