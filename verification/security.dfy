/** How a bearer token becomes granted authorities, and how `hasRole` reads them. Token
    signing, decoding and expiry are not modelled: a token is its claims. */
module Security {
  import opened Wrappers
  import opened Text
  import opened Entities

  /** The two claims the authorities converter reads; `None` is a claim the token lacks. */
  datatype Claims = Claims(authorities: Option<seq<string>>, role: Option<string>)

  const RolePrefix := "ROLE_"

  function RoleName(r: Role): string {
    match r
    case ADMIN => "ADMIN"
    case USER => "USER"
  }

  /** The claims `JWTUtils.generateToken` issues for a user: a `role` claim with the role's
      name, and no `authorities` claim. */
  function TokenClaims(u: User): Claims {
    Claims(None, Some(RoleName(u.role)))
  }

  /** The converter: an `authorities` claim is used as it is, one authority per entry; failing
      that, a `role` claim gives the single authority `ROLE_<role>`; failing that, none.
      `SimpleGrantedAuthority` refuses blank text, so a blank entry makes the conversion fail
      (`None`). */
  function GrantedAuthorities(c: Claims): (r: Option<seq<string>>)
    ensures c.authorities.Some? ==>
      (r.Some? <==> forall i :: 0 <= i < |c.authorities.value| ==> !IsBlank(c.authorities.value[i]))
    ensures r.Some? ==> forall i :: 0 <= i < |r.value| ==> !IsBlank(r.value[i])
  {
    if c.authorities.Some? then
      if forall i :: 0 <= i < |c.authorities.value| ==> !IsBlank(c.authorities.value[i])
      then Some(c.authorities.value) else None
    else if c.role.Some? then
      assert !IsWhitespace((RolePrefix + c.role.value)[0]);
      Some([RolePrefix + c.role.value])
    else Some([])
  }

  /** The authorities claim takes precedence: when present, the role claim is never read. */
  lemma AuthoritiesClaimWins(a: seq<string>, r1: Option<string>, r2: Option<string>)
    ensures GrantedAuthorities(Claims(Some(a), r1)) == GrantedAuthorities(Claims(Some(a), r2))
    ensures GrantedAuthorities(Claims(Some(a), r1)).Some? ==> GrantedAuthorities(Claims(Some(a), r1)).value == a
  {
  }

  /** A role claim grants exactly one authority, the prefixed role; no claim grants nothing. */
  lemma RoleClaimGrantsPrefixedRole(role: string)
    ensures GrantedAuthorities(Claims(None, Some(role))) == Some([RolePrefix + role])
    ensures GrantedAuthorities(Claims(None, None)) == Some([])
  {
  }

  /** `hasRole(role)`: the role with the `ROLE_` prefix added unless it is already there. */
  function WithRolePrefix(role: string): (r: string)
    ensures IsPrefix(RolePrefix, r)
    ensures IsPrefix(RolePrefix, role) ==> r == role
  {
    if IsPrefix(RolePrefix, role) then role
    else
      assert (RolePrefix + role)[..|RolePrefix|] == RolePrefix;
      RolePrefix + role
  }

  predicate HasRole(authorities: seq<string>, role: string) {
    WithRolePrefix(role) in authorities
  }

  /** `hasRole('ROLE_ADMIN')` and `hasRole('ADMIN')` are the same test. */
  lemma PrefixedAndBareRoleAgree(authorities: seq<string>)
    ensures HasRole(authorities, "ROLE_ADMIN") == HasRole(authorities, "ADMIN")
  {
    assert WithRolePrefix("ROLE_ADMIN") == "ROLE_ADMIN" by {
      assert "ROLE_ADMIN"[..|RolePrefix|] == RolePrefix;
    }
    assert WithRolePrefix("ADMIN") == RolePrefix + "ADMIN" by {
      assert !IsPrefix(RolePrefix, "ADMIN") by {
        assert "ADMIN"[0] != RolePrefix[0];
      }
    }
    assert RolePrefix + "ADMIN" == "ROLE_ADMIN";
  }

  /** A token issued for a user passes `hasRole('ROLE_ADMIN')` exactly when the user was an
      administrator when the token was issued. */
  lemma {:induction false} IssuedTokenCarriesRole(u: User)
    ensures GrantedAuthorities(TokenClaims(u)) == Some([RolePrefix + RoleName(u.role)])
    ensures HasRole(GrantedAuthorities(TokenClaims(u)).value, "ROLE_ADMIN") <==> u.role == ADMIN
    ensures HasRole(GrantedAuthorities(TokenClaims(u)).value, "USER") <==> u.role == USER
  {
    RoleClaimGrantsPrefixedRole(RoleName(u.role));
    assert IsPrefix(RolePrefix, "ROLE_ADMIN") by {
      assert "ROLE_ADMIN"[..|RolePrefix|] == RolePrefix;
    }
    assert !IsPrefix(RolePrefix, "USER") by {
      assert "USER"[0] != RolePrefix[0];
    }
    assert RolePrefix + "ADMIN" == "ROLE_ADMIN";
    assert RolePrefix + "USER" != "ROLE_ADMIN" by {
      assert (RolePrefix + "USER")[5] != "ROLE_ADMIN"[5];
    }
    assert RolePrefix + "ADMIN" != RolePrefix + "USER" by {
      assert (RolePrefix + "ADMIN")[5] != (RolePrefix + "USER")[5];
    }
  }
}
