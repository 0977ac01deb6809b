/**
 * The authentication and authorisation middleware: the bearer token taken
 * from the Authorization header, the error mapping of token verification,
 * the role gate, the ownership gate, the team-membership gate, and the
 * payload a signed token carries. Signing and verifying themselves belong
 * to the token library and are parameters here.
 */
module AuthMiddleware {
  import opened Outcomes
  import opened Schema
  import opened JsRuntime
  import UserModel
  import TeamModel

  const TokenRequired: Error := Error(Unauthorized, "Token de acesso requerido", "Você precisa estar logado para acessar este recurso")
  const UserGone: Error := Error(Unauthorized, "Token inválido", "Usuário não encontrado")
  const Malformed: Error := Error(Unauthorized, "Token inválido", "Token malformado ou inválido")
  const Expired: Error := Error(Unauthorized, "Token expirado", "Seu token expirou. Faça login novamente")
  const AuthFailure: Error := Error(Internal, "Erro interno do servidor", "Erro ao verificar autenticação")
  const NotAuthenticated: Error := Error(Unauthorized, "Usuário não autenticado", "Faça login para continuar")
  const OwnResourcesOnly: Error := Error(Forbidden, "Acesso negado", "Você só pode acessar seus próprios recursos")
  const TeamIdRequired: Error := Error(Validation, "ID do time requerido", "ID do time deve ser fornecido")
  const TeamNotFound: Error := Error(NotFound, "Time não encontrado", "O time especificado não existe")
  const NotTeamMember: Error := Error(Forbidden, "Acesso negado", "Você não é membro deste time")
  const MembershipFailure: Error := Error(Internal, "Erro interno do servidor", "Erro ao verificar permissões do time")

  /** What the token library's verify gives back: the decoded user id, or the error it throws, by name. */
  datatype Verified = Decoded(userId: Id) | JsonWebTokenError | TokenExpiredError | OtherError

  /** The request state the middleware writes: the authenticated user and the team of a membership check. */
  class Request {
    var user: Option<UserRow>
    var team: Option<TeamRow>

    constructor ()
      ensures user.None? && team.None?
    {
      user, team := None, None;
    }
  }

  // ---------------------------------------------------------------------------
  // The bearer token

  /**
   * `authHeader && authHeader.split(' ')[1]`: the second space-separated
   * piece of a non-empty header; None when the result is falsy (no header,
   * no second piece, or an empty one).
   */
  function ExtractToken(header: Option<string>): (r: Option<string>)
    ensures r.Some? ==> r.value != "" && ' ' !in r.value
    ensures header.None? || header.value == [] ==> r.None?
  {
    if header.None? || header.value == [] then None
    else
      var pieces := Split(header.value, ' ');
      if |pieces| >= 2 && pieces[1] != "" then Some(pieces[1]) else None
  }

  /** "Scheme token", followed by anything after another space, yields the token. */
  lemma BearerToken(scheme: string, token: string, rest: Option<string>)
    requires ' ' !in scheme && ' ' !in token && token != ""
    ensures ExtractToken(Some(scheme + " " + token + (if rest.Some? then " " + rest.value else ""))) == Some(token)
  {
    var tail := token + (if rest.Some? then " " + rest.value else "");
    assert scheme + " " + token + (if rest.Some? then " " + rest.value else "") == scheme + [' '] + tail;
    SplitAt(scheme, tail, ' ');
    if rest.Some? {
      assert tail == token + [' '] + rest.value;
      SplitAt(token, rest.value, ' ');
    } else {
      assert tail == token;
      SplitWithout(token, ' ');
    }
    var pieces := Split(scheme + [' '] + tail, ' ');
    assert pieces[1] == Split(tail, ' ')[0];
  }

  /** A header with no space in it carries no token. */
  lemma NoSpaceNoToken(header: string)
    requires ' ' !in header
    ensures ExtractToken(Some(header)).None?
  {
    SplitWithout(header, ' ');
  }

  // ---------------------------------------------------------------------------
  // authenticateToken

  /**
   * The outcome of authenticateToken: no token is 401 "Token de acesso
   * requerido"; a token verified for a user that no longer exists, a
   * malformed token and an expired token are the other 401s; any other
   * failure is a 500; otherwise the user, without the hash.
   */
  function Authenticate(users: map<Id, UserRow>, header: Option<string>, verify: string -> Verified)
    : (r: Result<UserRow>)
    ensures ExtractToken(header).None? ==> r == Err(TokenRequired)
    ensures r.Ok? <==> ExtractToken(header).Some? && verify(ExtractToken(header).value).Decoded?
                       && verify(ExtractToken(header).value).userId in users
    ensures r.Ok? ==> r.value == UserModel.WithoutHash(users[verify(ExtractToken(header).value).userId])
    ensures ExtractToken(header).Some? ==>
      var v := verify(ExtractToken(header).value);
      && (v.Decoded? && v.userId !in users ==> r == Err(UserGone))
      && (v.JsonWebTokenError? ==> r == Err(Malformed))
      && (v.TokenExpiredError? ==> r == Err(Expired))
      && (v.OtherError? ==> r == Err(AuthFailure))
    ensures r.Err? ==> (HttpStatus(r.error.kind) == 500 <==>
                        ExtractToken(header).Some? && verify(ExtractToken(header).value).OtherError?)
  {
    var token := ExtractToken(header);
    if token.None? then Err(TokenRequired)
    else
      match verify(token.value)
      case Decoded(id) => if id in users then Ok(UserModel.WithoutHash(users[id])) else Err(UserGone)
      case JsonWebTokenError => Err(Malformed)
      case TokenExpiredError => Err(Expired)
      case OtherError => Err(AuthFailure)
  }

  /** authenticateToken: on success `req.user` is set and the chain goes on; on failure nothing is written. */
  method AuthenticateToken(req: Request, users: map<Id, UserRow>, header: Option<string>, verify: string -> Verified)
    returns (r: Outcome)
    modifies req`user
    ensures var a := Authenticate(users, header, verify);
      && (a.Ok? ==> r == Pass && req.user == Some(a.value))
      && (a.Err? ==> r == Fail(a.error) && req.user == old(req.user))
  {
    var a := Authenticate(users, header, verify);
    if a.Ok? {
      req.user := Some(a.value);
      r := Pass;
    } else {
      r := Fail(a.error);
    }
  }

  // ---------------------------------------------------------------------------
  // Token payload

  /** generateToken's payload. */
  datatype Payload = Payload(userId: Id, email: string, role: string)

  function GeneratePayload(u: UserRow): (p: Payload)
    ensures p.userId == u.id && p.email == u.email && p.role == u.role
  {
    Payload(u.id, u.email, u.role)
  }

  /** A token whose payload the library verifies authenticates the very user it was issued to, while that user exists. */
  lemma IssuedTokenAuthenticates(users: map<Id, UserRow>, u: UserRow, scheme: string, token: string,
                                 verify: string -> Verified)
    requires u.id in users && ' ' !in scheme && ' ' !in token && token != ""
    requires verify(token) == Decoded(GeneratePayload(u).userId)
    ensures Authenticate(users, Some(scheme + " " + token), verify) == Ok(UserModel.WithoutHash(users[u.id]))
  {
    BearerToken(scheme, token, None);
    assert scheme + " " + token + "" == scheme + " " + token;
  }

  // ---------------------------------------------------------------------------
  // requireRole, requireAdmin

  /** `roles.join(sep)` */
  function JoinWith(parts: seq<string>, sep: string): string {
    if parts == [] then "" else if |parts| == 1 then parts[0] else parts[0] + sep + JoinWith(parts[1..], sep)
  }

  /** The argument of requireRole: one role, or an array of them. */
  datatype Roles = One(role: string) | Many(roles: seq<string>)

  /** `Array.isArray(roles) ? roles : [roles]` */
  function AllowedRoles(roles: Roles): (r: seq<string>)
    ensures roles.One? ==> r == [roles.role]
  {
    match roles
    case One(role) => [role]
    case Many(rs) => rs
  }

  function RoleDenied(roles: Roles): Error {
    Error(Forbidden, "Acesso negado",
          "Apenas usuários com role " + JoinWith(AllowedRoles(roles), " ou ") + " podem acessar este recurso")
  }

  /** requireRole: 401 without a user, 403 unless the user's role is listed. */
  function RequireRole(user: Option<UserRow>, roles: Roles): (r: Outcome)
    ensures user.None? ==> r == Fail(NotAuthenticated)
    ensures r.Pass? <==> user.Some? && user.value.role in AllowedRoles(roles)
    ensures user.Some? && r.Fail? ==> r.error == RoleDenied(roles) && HttpStatus(r.error.kind) == 403
  {
    if user.None? then Fail(NotAuthenticated)
    else if user.value.role !in AllowedRoles(roles) then Fail(RoleDenied(roles))
    else Pass
  }

  /** The 403 of requireAdmin: the role list is the single role "admin". */
  const AdminOnly: Error := Error(Forbidden, "Acesso negado", "Apenas usuários com role " + AdminRole + " podem acessar este recurso")

  /** requireAdmin is requireRole('admin'): it passes exactly the admins. */
  lemma RequireAdminExact(user: Option<UserRow>)
    ensures RequireRole(user, One(AdminRole)).Pass? <==> user.Some? && user.value.role == AdminRole
    ensures user.Some? && user.value.role != AdminRole ==> RequireRole(user, One(AdminRole)) == Fail(AdminOnly)
  {
    assert JoinWith(AllowedRoles(One(AdminRole)), " ou ") == AdminRole;
  }

  // ---------------------------------------------------------------------------
  // requireOwnershipOrAdmin

  /** `req.params[x] || req.body[x]` */
  function Target(param: Param, body: Param): Param {
    if Truthy(param) then param else body
  }

  /** requireOwnershipOrAdmin: an admin passes; anyone else only for their own id. */
  function RequireOwnershipOrAdmin(user: Option<UserRow>, param: Param, body: Param): (r: Outcome)
    ensures user.None? ==> r == Fail(NotAuthenticated)
    ensures r.Pass? <==> user.Some? && (user.value.role == AdminRole || Target(param, body) == Str(user.value.id))
    ensures user.Some? && r.Fail? ==> r.error == OwnResourcesOnly
  {
    if user.None? then Fail(NotAuthenticated)
    else if user.value.role == AdminRole then Pass
    else if Target(param, body) != Str(user.value.id) then Fail(OwnResourcesOnly)
    else Pass
  }

  // ---------------------------------------------------------------------------
  // requireTeamMembership

  /**
   * The decision of requireTeamMembership: 401 without a user; an admin
   * passes with no team looked up (None); otherwise the team id from the
   * path or the body is required, the team must exist and the user must
   * belong to it, and that team is the result.
   */
  function TeamMembership(user: Option<UserRow>, teams: map<Id, TeamRow>, members: set<(Id, Id)>,
                          param: Param, body: Param)
    : (r: Result<Option<TeamRow>>)
    ensures user.None? ==> r == Err(NotAuthenticated)
    ensures user.Some? && user.value.role == AdminRole ==> r == Ok(None)
    ensures user.Some? && user.value.role != AdminRole ==>
      && (!Truthy(Target(param, body)) ==> r == Err(TeamIdRequired))
      && (Truthy(Target(param, body)) && Target(param, body).s !in teams ==> r == Err(TeamNotFound))
      && ((Truthy(Target(param, body)) && Target(param, body).s in teams
           && !TeamModel.IsMember(members, Target(param, body).s, user.value.id)) ==> r == Err(NotTeamMember))
      && (r.Ok? <==> Truthy(Target(param, body)) && Target(param, body).s in teams
                     && TeamModel.IsMember(members, Target(param, body).s, user.value.id))
      && (r.Ok? ==> r.value == Some(teams[Target(param, body).s]))
  {
    if user.None? then Err(NotAuthenticated)
    else if user.value.role == AdminRole then Ok(None)
    else
      var teamId := Target(param, body);
      if !Truthy(teamId) then Err(TeamIdRequired)
      else if teamId.s !in teams then Err(TeamNotFound)
      else if !TeamModel.IsMember(members, teamId.s, user.value.id) then Err(NotTeamMember)
      else Ok(Some(teams[teamId.s]))
  }

  /** requireTeamMembership: sets `req.team` for a member; an admin passes with `req.team` untouched. */
  method RequireTeamMembership(req: Request, teams: map<Id, TeamRow>, members: set<(Id, Id)>, param: Param, body: Param)
    returns (r: Outcome)
    modifies req`team
    ensures var d := TeamMembership(req.user, teams, members, param, body);
      && (d.Err? ==> r == Fail(d.error) && req.team == old(req.team))
      && (d.Ok? && d.value.None? ==> r == Pass && req.team == old(req.team))
      && (d.Ok? && d.value.Some? ==> r == Pass && req.team == d.value)
  {
    var d := TeamMembership(req.user, teams, members, param, body);
    if d.Err? {
      r := Fail(d.error);
    } else {
      if d.value.Some? {
        req.team := d.value;
      }
      r := Pass;
    }
  }
}
