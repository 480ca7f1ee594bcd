/**
 * Where a node's secrets go: sealed apart from the stored configuration, blanked in responses, and filled in again
 * when a client sends the blanks back.
 */
module NodeSecrets {
  import opened Sequences

  /** Fields named `rest` stand for everything that is not secret. */
  datatype Account = Account(name: string, password: string)

  datatype Tls = Tls(rest: string, privateKey: string, echKey: string)
  datatype Reality = Reality(rest: string, privateKey: string, publicKey: string)
  datatype ShadowTls = ShadowTls(rest: string, password: string, users: seq<Account>)
  datatype ResTls = ResTls(rest: string, password: string)
  datatype Jls = Jls(rest: string, users: seq<Account>)

  datatype Security = Security(kind: string, tls: Option<Tls>, reality: Option<Reality>, shadowTls: Option<ShadowTls>,
                               resTls: Option<ResTls>, jls: Option<Jls>)

  datatype Vless = Vless(rest: string, security: Security)
  datatype Mkcp = Mkcp(rest: string, seed: string)
  datatype Vmess = Vmess(rest: string, security: Security, mkcp: Option<Mkcp>)
  datatype Wrapper = Wrapper(enabled: bool, cipher: string, password: string)
  datatype Trojan = Trojan(rest: string, security: Security, wrapper: Wrapper)
  datatype Shadowsocks = Shadowsocks(rest: string, security: Security)
  datatype Realm = Realm(rest: string, token: string, privateKey: string)
  datatype Hysteria2 = Hysteria2(rest: string, privateKey: string, echKey: string, obfsPassword: string, realm: Option<Realm>)

  /** A valid node fills in exactly the one that its protocol names. */
  datatype Config = Config(vless: Option<Vless>, hysteria2: Option<Hysteria2>, vmess: Option<Vmess>, trojan: Option<Trojan>,
                           shadowsocks: Option<Shadowsocks>)

  /** storedProtocolSecrets: one field per secret, passwords by account name. */
  datatype SecuritySecrets = SecuritySecrets(tlsPrivateKey: string, tlsEchKey: string, realityPrivateKey: string,
                                             shadowTlsPassword: string, shadowTlsUsers: map<string, string>,
                                             resTlsPassword: string, jlsUsers: map<string, string>)

  datatype Secrets = Secrets(security: SecuritySecrets, trojanPassword: string, mkcpSeed: string, hysteriaPrivateKey: string,
                             hysteriaEchKey: string, hysteriaObfsPassword: string, realmToken: string, realmPrivateKey: string)

  const NO_SECURITY_SECRETS := SecuritySecrets("", "", "", "", map[], "", map[])
  const NO_SECRETS := Secrets(NO_SECURITY_SECRETS, "", "", "", "", "", "", "")

  // ---------------------------------------------------------------- accounts

  /** What filling a Go map in a loop comes to: the last account of a name wins. */
  function Passwords(users: seq<Account>): map<string, string> {
    if users == [] then map[]
    else Passwords(users[..|users| - 1])[users[|users| - 1].name := users[|users| - 1].password]
  }

  /** Reading a Go map: the empty string for a missing key. */
  function Lookup(passwords: map<string, string>, name: string): string {
    if name in passwords then passwords[name] else ""
  }

  function Blank(users: seq<Account>): (r: seq<Account>)
    ensures |r| == |users| && forall i :: 0 <= i < |users| ==> r[i] == users[i].(password := "")
  {
    seq(|users|, i requires 0 <= i < |users| => users[i].(password := ""))
  }

  function Fill(users: seq<Account>, passwords: map<string, string>): (r: seq<Account>)
    ensures |r| == |users| && forall i :: 0 <= i < |users| ==> r[i] == users[i].(password := Lookup(passwords, users[i].name))
  {
    seq(|users|, i requires 0 <= i < |users| => users[i].(password := Lookup(passwords, users[i].name)))
  }

  function FillBlanks(users: seq<Account>, passwords: map<string, string>): (r: seq<Account>)
    ensures |r| == |users| && forall i :: 0 <= i < |users| ==>
      r[i] == (if users[i].password == "" then users[i].(password := Lookup(passwords, users[i].name)) else users[i])
  {
    seq(|users|, i requires 0 <= i < |users| =>
      if users[i].password == "" then users[i].(password := Lookup(passwords, users[i].name)) else users[i])
  }

  /** Accounts of one name agree on the password, as they do when names are unique. */
  ghost predicate Consistent(users: seq<Account>) {
    forall i, j :: 0 <= i < |users| && 0 <= j < |users| && users[i].name == users[j].name ==> users[i].password == users[j].password
  }

  ghost predicate UniqueNames(users: seq<Account>) {
    forall i, j :: 0 <= i < j < |users| ==> users[i].name != users[j].name
  }

  lemma UniqueIsConsistent(users: seq<Account>)
    requires UniqueNames(users)
    ensures Consistent(users)
  {
  }

  lemma {:induction false} PasswordsHoldTheLast(users: seq<Account>, name: string)
    ensures name in Passwords(users) <==> exists i :: 0 <= i < |users| && users[i].name == name
    ensures name in Passwords(users) ==> exists i :: 0 <= i < |users| && users[i].name == name && users[i].password == Passwords(users)[name]
  {
    if users != [] {
      var init, last := users[..|users| - 1], users[|users| - 1];
      PasswordsHoldTheLast(init, name);
      if last.name == name {
        assert users[|users| - 1].name == name;
      } else {
        if i :| 0 <= i < |users| && users[i].name == name {
          assert init[i].name == name;
        }
        if name in Passwords(init) {
          var i :| 0 <= i < |init| && init[i].name == name && init[i].password == Passwords(init)[name];
          assert users[i] == init[i];
        }
      }
    }
  }

  /** Passwords kept by name come back exactly when accounts of one name agree. */
  lemma FillRestores(users: seq<Account>)
    ensures Fill(Blank(users), Passwords(users)) == users <==> Consistent(users)
  {
    forall i | 0 <= i < |users| ensures users[i].name in Passwords(users) {
      PasswordsHoldTheLast(users, users[i].name);
    }
    var restored := Fill(Blank(users), Passwords(users));
    if Consistent(users) {
      forall i | 0 <= i < |users| ensures restored[i] == users[i] {
        PasswordsHoldTheLast(users, users[i].name);
      }
    } else if restored == users {
      forall i, j | 0 <= i < |users| && 0 <= j < |users| && users[i].name == users[j].name
        ensures users[i].password == users[j].password
      {
        assert restored[i] == users[i] && restored[j] == users[j];
      }
    }
  }

  lemma FillBlanksOfBlank(users: seq<Account>, passwords: map<string, string>)
    ensures FillBlanks(Blank(users), passwords) == Fill(Blank(users), passwords)
  {
  }

  /** The loop that moves passwords into a map. */
  method MovePasswords(users: seq<Account>) returns (blanked: seq<Account>, passwords: map<string, string>)
    ensures blanked == Blank(users) && passwords == Passwords(users)
  {
    blanked, passwords := users, map[];
    for i := 0 to |users|
      invariant |blanked| == |users| && passwords == Passwords(users[..i])
      invariant forall k :: 0 <= k < i ==> blanked[k] == users[k].(password := "")
      invariant forall k :: i <= k < |users| ==> blanked[k] == users[k]
    {
      assert users[..i + 1][..i] == users[..i];
      passwords := passwords[blanked[i].name := blanked[i].password];
      blanked := blanked[i := blanked[i].(password := "")];
    }
    assert users[..|users|] == users;
  }

  /** The loops that read them back: all of them when decoding, only blank ones when preserving. */
  method ReadPasswords(users: seq<Account>, passwords: map<string, string>, onlyBlanks: bool) returns (filled: seq<Account>)
    ensures filled == if onlyBlanks then FillBlanks(users, passwords) else Fill(users, passwords)
  {
    filled := users;
    for i := 0 to |users|
      invariant |filled| == |users|
      invariant forall k :: 0 <= k < i ==>
        filled[k] == (if onlyBlanks && users[k].password != "" then users[k] else users[k].(password := Lookup(passwords, users[k].name)))
      invariant forall k :: i <= k < |users| ==> filled[k] == users[k]
    {
      if !onlyBlanks || filled[i].password == "" {
        filled := filled[i := filled[i].(password := Lookup(passwords, filled[i].name))];
      }
    }
  }

  // ---------------------------------------------------------------- stream security

  function BlankSecurity(s: Security): Security {
    s.(tls := if s.tls.None? then None else Some(s.tls.value.(privateKey := "", echKey := "")),
       reality := if s.reality.None? then None else Some(s.reality.value.(privateKey := "")),
       shadowTls := if s.shadowTls.None? then None else Some(s.shadowTls.value.(password := "", users := Blank(s.shadowTls.value.users))),
       resTls := if s.resTls.None? then None else Some(s.resTls.value.(password := "")),
       jls := if s.jls.None? then None else Some(s.jls.value.(users := Blank(s.jls.value.users))))
  }

  function SecretsOfSecurity(s: Security): SecuritySecrets {
    SecuritySecrets(
      if s.tls.None? then "" else s.tls.value.privateKey,
      if s.tls.None? then "" else s.tls.value.echKey,
      if s.reality.None? then "" else s.reality.value.privateKey,
      if s.shadowTls.None? then "" else s.shadowTls.value.password,
      if s.shadowTls.None? then map[] else Passwords(s.shadowTls.value.users),
      if s.resTls.None? then "" else s.resTls.value.password,
      if s.jls.None? then map[] else Passwords(s.jls.value.users))
  }

  function FillSecurity(s: Security, x: SecuritySecrets): Security {
    s.(tls := if s.tls.None? then None else Some(s.tls.value.(privateKey := x.tlsPrivateKey, echKey := x.tlsEchKey)),
       reality := if s.reality.None? then None else Some(s.reality.value.(privateKey := x.realityPrivateKey)),
       shadowTls := if s.shadowTls.None? then None
                    else Some(s.shadowTls.value.(password := x.shadowTlsPassword, users := Fill(s.shadowTls.value.users, x.shadowTlsUsers))),
       resTls := if s.resTls.None? then None else Some(s.resTls.value.(password := x.resTlsPassword)),
       jls := if s.jls.None? then None else Some(s.jls.value.(users := Fill(s.jls.value.users, x.jlsUsers))))
  }

  function Or(updated: string, current: string): string {
    if updated == "" then current else updated
  }

  function PreserveTls(u: Option<Tls>, c: Option<Tls>): Option<Tls> {
    if u.None? || c.None? then u
    else Some(u.value.(privateKey := Or(u.value.privateKey, c.value.privateKey), echKey := Or(u.value.echKey, c.value.echKey)))
  }

  function PreserveReality(u: Option<Reality>, c: Option<Reality>): Option<Reality> {
    if u.None? || c.None? then u
    else Some(u.value.(privateKey := Or(u.value.privateKey, c.value.privateKey), publicKey := Or(u.value.publicKey, c.value.publicKey)))
  }

  function PreserveShadowTls(u: Option<ShadowTls>, c: Option<ShadowTls>): Option<ShadowTls> {
    if u.None? || c.None? then u
    else Some(u.value.(password := Or(u.value.password, c.value.password), users := FillBlanks(u.value.users, Passwords(c.value.users))))
  }

  function PreserveResTls(u: Option<ResTls>, c: Option<ResTls>): Option<ResTls> {
    if u.None? || c.None? then u else Some(u.value.(password := Or(u.value.password, c.value.password)))
  }

  function PreserveJls(u: Option<Jls>, c: Option<Jls>): Option<Jls> {
    if u.None? || c.None? then u else Some(u.value.(users := FillBlanks(u.value.users, Passwords(c.value.users))))
  }

  /** The stream part of preserveNodeSecrets. */
  function PreserveSecurity(u: Security, c: Security): Security {
    u.(tls := PreserveTls(u.tls, c.tls), reality := PreserveReality(u.reality, c.reality),
       shadowTls := PreserveShadowTls(u.shadowTls, c.shadowTls), resTls := PreserveResTls(u.resTls, c.resTls),
       jls := PreserveJls(u.jls, c.jls))
  }

  ghost predicate SecurityConsistent(s: Security) {
    (s.shadowTls.Some? ==> Consistent(s.shadowTls.value.users)) && (s.jls.Some? ==> Consistent(s.jls.value.users))
  }

  lemma SecurityRoundTrip(s: Security)
    ensures FillSecurity(BlankSecurity(s), SecretsOfSecurity(s)) == s <==> SecurityConsistent(s)
  {
    hide Fill, Blank, Passwords, Consistent;
    if s.shadowTls.Some? {
      FillRestores(s.shadowTls.value.users);
    }
    if s.jls.Some? {
      FillRestores(s.jls.value.users);
    }
  }

  lemma PreserveRoundTrip(s: Security)
    ensures PreserveSecurity(BlankSecurity(s), s) == s <==> SecurityConsistent(s)
  {
    hide Fill, FillBlanks, Blank, Passwords, Consistent;
    if s.shadowTls.Some? {
      FillRestores(s.shadowTls.value.users);
      FillBlanksOfBlank(s.shadowTls.value.users, Passwords(s.shadowTls.value.users));
    }
    if s.jls.Some? {
      FillRestores(s.jls.value.users);
      FillBlanksOfBlank(s.jls.value.users, Passwords(s.jls.value.users));
    }
  }

  // ---------------------------------------------------------------- whole configurations

  /** storedStreamSecurity and nodeStreamSecurity: the first stream protocol that is filled in. */
  datatype Stream = OfVless | OfVmess | OfTrojan | OfShadowsocks | NoStream

  function Selected(c: Config): Stream {
    if c.vless.Some? then OfVless
    else if c.vmess.Some? then OfVmess
    else if c.trojan.Some? then OfTrojan
    else if c.shadowsocks.Some? then OfShadowsocks
    else NoStream
  }

  function SecurityOf(c: Config): Option<Security> {
    match Selected(c)
    case OfVless => Some(c.vless.value.security)
    case OfVmess => Some(c.vmess.value.security)
    case OfTrojan => Some(c.trojan.value.security)
    case OfShadowsocks => Some(c.shadowsocks.value.security)
    case NoStream => None
  }

  function WithSecurity(c: Config, s: Security): Config {
    match Selected(c)
    case OfVless => c.(vless := Some(c.vless.value.(security := s)))
    case OfVmess => c.(vmess := Some(c.vmess.value.(security := s)))
    case OfTrojan => c.(trojan := Some(c.trojan.value.(security := s)))
    case OfShadowsocks => c.(shadowsocks := Some(c.shadowsocks.value.(security := s)))
    case NoStream => c
  }

  function BlankHysteria(h: Hysteria2): Hysteria2 {
    h.(privateKey := "", echKey := "", obfsPassword := "",
       realm := if h.realm.None? then None else Some(h.realm.value.(token := "", privateKey := "")))
  }

  function BlankSeed(v: Vmess): Vmess {
    v.(mkcp := if v.mkcp.None? then None else Some(v.mkcp.value.(seed := "")))
  }

  /** The configuration as it is stored in the clear. */
  function Stored(c: Config): Config {
    var d := if SecurityOf(c).None? then c else WithSecurity(c, BlankSecurity(SecurityOf(c).value));
    d.(trojan := if d.trojan.None? || !d.trojan.value.wrapper.enabled then d.trojan
                 else Some(d.trojan.value.(wrapper := d.trojan.value.wrapper.(password := ""))),
       vmess := if d.vmess.None? then None else Some(BlankSeed(d.vmess.value)),
       hysteria2 := if d.hysteria2.None? then None else Some(BlankHysteria(d.hysteria2.value)))
  }

  /** The secrets as they are sealed. */
  function SecretsOf(c: Config): Secrets {
    Secrets(
      if SecurityOf(c).None? then NO_SECURITY_SECRETS else SecretsOfSecurity(SecurityOf(c).value),
      if c.trojan.Some? && c.trojan.value.wrapper.enabled then c.trojan.value.wrapper.password else "",
      if c.vmess.Some? && c.vmess.value.mkcp.Some? then c.vmess.value.mkcp.value.seed else "",
      if c.hysteria2.Some? then c.hysteria2.value.privateKey else "",
      if c.hysteria2.Some? then c.hysteria2.value.echKey else "",
      if c.hysteria2.Some? then c.hysteria2.value.obfsPassword else "",
      if c.hysteria2.Some? && c.hysteria2.value.realm.Some? then c.hysteria2.value.realm.value.token else "",
      if c.hysteria2.Some? && c.hysteria2.value.realm.Some? then c.hysteria2.value.realm.value.privateKey else "")
  }

  function Restored(c: Config, x: Secrets): Config {
    var d := if SecurityOf(c).None? then c else WithSecurity(c, FillSecurity(SecurityOf(c).value, x.security));
    d.(trojan := if d.trojan.None? || !d.trojan.value.wrapper.enabled then d.trojan
                 else Some(d.trojan.value.(wrapper := d.trojan.value.wrapper.(password := x.trojanPassword))),
       vmess := if d.vmess.None? || d.vmess.value.mkcp.None? then d.vmess
                else Some(d.vmess.value.(mkcp := Some(d.vmess.value.mkcp.value.(seed := x.mkcpSeed)))),
       hysteria2 := if d.hysteria2.None? then None else Some(FillHysteria(d.hysteria2.value, x)))
  }

  function FillHysteria(h: Hysteria2, x: Secrets): Hysteria2 {
    h.(privateKey := x.hysteriaPrivateKey, echKey := x.hysteriaEchKey, obfsPassword := x.hysteriaObfsPassword,
       realm := if h.realm.None? then None else Some(h.realm.value.(token := x.realmToken, privateKey := x.realmPrivateKey)))
  }

  /** What a response shows. */
  function Redacted(c: Config): Config {
    Config(
      if c.vless.None? then None else Some(c.vless.value.(security := BlankSecurity(c.vless.value.security))),
      if c.hysteria2.None? then None else Some(BlankHysteria(c.hysteria2.value)),
      if c.vmess.None? then None else Some(BlankSeed(c.vmess.value.(security := BlankSecurity(c.vmess.value.security)))),
      if c.trojan.None? then None
      else Some(c.trojan.value.(security := BlankSecurity(c.trojan.value.security), wrapper := c.trojan.value.wrapper.(password := ""))),
      if c.shadowsocks.None? then None
      else Some(c.shadowsocks.value.(security := BlankSecurity(c.shadowsocks.value.security))))
  }

  /** preserveNodeSecrets, for an update that keeps the protocol. */
  function Preserved(u: Config, c: Config): Config {
    var d := if SecurityOf(u).None? || SecurityOf(c).None? then u
             else WithSecurity(u, PreserveSecurity(SecurityOf(u).value, SecurityOf(c).value));
    d.(trojan := if d.trojan.None? || c.trojan.None? then d.trojan else Some(PreserveWrapper(d.trojan.value, c.trojan.value)),
       vmess := if d.vmess.None? || c.vmess.None? then d.vmess else Some(PreserveSeed(d.vmess.value, c.vmess.value)),
       hysteria2 := if d.hysteria2.None? || c.hysteria2.None? then d.hysteria2
                    else Some(PreserveHysteria(d.hysteria2.value, c.hysteria2.value)))
  }

  function PreserveWrapper(u: Trojan, c: Trojan): Trojan {
    if u.wrapper.enabled && c.wrapper.enabled then u.(wrapper := u.wrapper.(password := Or(u.wrapper.password, c.wrapper.password)))
    else u
  }

  function PreserveSeed(u: Vmess, c: Vmess): Vmess {
    if u.mkcp.None? || c.mkcp.None? then u
    else u.(mkcp := Some(u.mkcp.value.(seed := Or(u.mkcp.value.seed, c.mkcp.value.seed))))
  }

  function PreserveHysteria(u: Hysteria2, c: Hysteria2): Hysteria2 {
    u.(privateKey := Or(u.privateKey, c.privateKey), echKey := Or(u.echKey, c.echKey),
       obfsPassword := Or(u.obfsPassword, c.obfsPassword),
       realm := if u.realm.None? || c.realm.None? then u.realm
                else Some(u.realm.value.(token := Or(u.realm.value.token, c.realm.value.token),
                                         privateKey := Or(u.realm.value.privateKey, c.realm.value.privateKey))))
  }

  // ---------------------------------------------------------------- round trips

  ghost predicate SelectedConsistent(c: Config) {
    SecurityOf(c).Some? ==> SecurityConsistent(SecurityOf(c).value)
  }

  /** Sealing and opening gives the configuration back exactly when accounts of one name agree on their password. */
  lemma StoredRoundTrip(c: Config)
    ensures Restored(Stored(c), SecretsOf(c)) == c <==> SelectedConsistent(c)
  {
    hide BlankSecurity, FillSecurity, SecretsOfSecurity, SecurityConsistent, BlankHysteria, FillHysteria;
    if SecurityOf(c).Some? {
      SecurityRoundTrip(SecurityOf(c).value);
    }
    if c.hysteria2.Some? {
      HysteriaRoundTrip(c);
    }
  }

  lemma HysteriaRoundTrip(c: Config)
    requires c.hysteria2.Some?
    ensures FillHysteria(BlankHysteria(c.hysteria2.value), SecretsOf(c)) == c.hysteria2.value
  {
  }

  ghost predicate Bare(s: Security) {
    BlankSecurity(s) == s
  }

  /** Whatever the selector does not reach has no stream secrets. */
  ghost predicate OthersBare(c: Config) {
    && (c.vmess.Some? && !Selected(c).OfVmess? ==> Bare(c.vmess.value.security))
    && (c.trojan.Some? && !Selected(c).OfTrojan? ==> Bare(c.trojan.value.security))
    && (c.shadowsocks.Some? && !Selected(c).OfShadowsocks? ==> Bare(c.shadowsocks.value.security))
  }

  /** The Trojan wrapper is on, or has no password left over. */
  predicate WrapperClean(c: Config) {
    c.trojan.Some? ==> c.trojan.value.wrapper.enabled || c.trojan.value.wrapper.password == ""
  }

  /** Sending a response straight back loses nothing exactly under these conditions. */
  lemma RedactedRoundTrip(c: Config)
    ensures Preserved(Redacted(c), c) == c <==> SelectedConsistent(c) && OthersBare(c) && WrapperClean(c)
  {
    hide BlankSecurity, PreserveSecurity, SecurityConsistent, BlankHysteria, PreserveHysteria;
    if SecurityOf(c).Some? {
      PreserveRoundTrip(SecurityOf(c).value);
    }
    if c.hysteria2.Some? {
      HysteriaKept(c.hysteria2.value);
    }
  }

  lemma HysteriaKept(h: Hysteria2)
    ensures PreserveHysteria(BlankHysteria(h), h) == h
  {
  }

  /** The clear part of what is stored is what a response shows, and so free of secrets, exactly under these. */
  lemma StoredIsRedacted(c: Config)
    ensures Stored(c) == Redacted(c) <==> OthersBare(c) && WrapperClean(c)
  {
    hide BlankSecurity;
  }

  lemma {:induction false} BlankIsIdempotent(users: seq<Account>)
    ensures Blank(Blank(users)) == Blank(users)
  {
  }

  lemma BlankSecurityIsIdempotent(s: Security)
    ensures BlankSecurity(BlankSecurity(s)) == BlankSecurity(s)
  {
    hide Blank;
    if s.shadowTls.Some? {
      BlankIsIdempotent(s.shadowTls.value.users);
    }
    if s.jls.Some? {
      BlankIsIdempotent(s.jls.value.users);
    }
  }

  ghost predicate AllBlank(users: seq<Account>) {
    forall i :: 0 <= i < |users| ==> users[i].password == ""
  }

  ghost predicate NoSecuritySecrets(s: Security) {
    && (s.tls.Some? ==> s.tls.value.privateKey == s.tls.value.echKey == "")
    && (s.reality.Some? ==> s.reality.value.privateKey == "")
    && (s.shadowTls.Some? ==> s.shadowTls.value.password == "" && AllBlank(s.shadowTls.value.users))
    && (s.resTls.Some? ==> s.resTls.value.password == "")
    && (s.jls.Some? ==> AllBlank(s.jls.value.users))
  }

  ghost predicate NoSecrets(c: Config) {
    && (c.vless.Some? ==> NoSecuritySecrets(c.vless.value.security))
    && (c.vmess.Some? ==> NoSecuritySecrets(c.vmess.value.security) && (c.vmess.value.mkcp.Some? ==> c.vmess.value.mkcp.value.seed == ""))
    && (c.trojan.Some? ==> NoSecuritySecrets(c.trojan.value.security) && c.trojan.value.wrapper.password == "")
    && (c.shadowsocks.Some? ==> NoSecuritySecrets(c.shadowsocks.value.security))
    && (c.hysteria2.Some? ==>
          && c.hysteria2.value.privateKey == c.hysteria2.value.echKey == c.hysteria2.value.obfsPassword == ""
          && (c.hysteria2.value.realm.Some? ==> c.hysteria2.value.realm.value.token == c.hysteria2.value.realm.value.privateKey == ""))
  }

  lemma AllBlankIsBlank(users: seq<Account>)
    ensures AllBlank(users) <==> Blank(users) == users
  {
    if Blank(users) == users {
      forall i | 0 <= i < |users| ensures users[i].password == "" {
        assert Blank(users)[i] == users[i];
      }
    }
  }

  lemma BareIsSecretless(s: Security)
    ensures Bare(s) <==> NoSecuritySecrets(s)
  {
    hide Blank, AllBlank;
    if s.shadowTls.Some? {
      AllBlankIsBlank(s.shadowTls.value.users);
    }
    if s.jls.Some? {
      AllBlankIsBlank(s.jls.value.users);
    }
  }

  /** A response contains no secret, and blanks nothing else: what has no secret is shown as it is. */
  lemma RedactedHasNoSecrets(c: Config)
    ensures NoSecrets(Redacted(c)) && (NoSecrets(c) <==> Redacted(c) == c)
  {
    hide BlankSecurity, NoSecuritySecrets;
    forall s ensures NoSecuritySecrets(BlankSecurity(s)) && (NoSecuritySecrets(s) <==> BlankSecurity(s) == s) {
      BareIsSecretless(s);
      BlankSecurityIsIdempotent(s);
      BareIsSecretless(BlankSecurity(s));
    }
  }

  /** What validation asks of a node's configuration here: one protocol, and unique account names. */
  ghost predicate ValidConfig(c: Config) {
    && (if c.vless.Some? then 1 else 0) + (if c.hysteria2.Some? then 1 else 0) + (if c.vmess.Some? then 1 else 0)
       + (if c.trojan.Some? then 1 else 0) + (if c.shadowsocks.Some? then 1 else 0) == 1
    && (SecurityOf(c).Some? ==>
          && (SecurityOf(c).value.shadowTls.Some? ==> UniqueNames(SecurityOf(c).value.shadowTls.value.users))
          && (SecurityOf(c).value.jls.Some? ==> UniqueNames(SecurityOf(c).value.jls.value.users)))
  }

  /** For valid nodes both round trips come down to the one gap: a disabled Trojan wrapper that keeps a password. */
  lemma ValidRoundTrips(c: Config)
    requires ValidConfig(c)
    ensures Restored(Stored(c), SecretsOf(c)) == c
    ensures Preserved(Redacted(c), c) == c <==> WrapperClean(c)
    ensures NoSecrets(Stored(c)) <==> WrapperClean(c)
  {
    StoredRoundTrip(c);
    RedactedRoundTrip(c);
    StoredIsRedacted(c);
    RedactedHasNoSecrets(c);
    if SecurityOf(c).Some? {
      var s := SecurityOf(c).value;
      if s.shadowTls.Some? {
        UniqueIsConsistent(s.shadowTls.value.users);
      }
      if s.jls.Some? {
        UniqueIsConsistent(s.jls.value.users);
      }
    }
  }

  /** The gap exists: such a node validates, is stored with its password in the clear, and loses it on the way back. */
  lemma DisabledWrapperKeepsItsPassword(rest: string, security: Security, cipher: string, password: string)
    requires password != "" && NoSecuritySecrets(security)
    requires security.shadowTls.None? && security.jls.None?
    ensures var c := Config(None, None, None, Some(Trojan(rest, security, Wrapper(false, cipher, password))), None);
      && ValidConfig(c) && !NoSecrets(Stored(c))
      && Preserved(Redacted(c), c) == c.(trojan := Some(c.trojan.value.(wrapper := Wrapper(false, cipher, ""))))
  {
    var c := Config(None, None, None, Some(Trojan(rest, security, Wrapper(false, cipher, password))), None);
    ValidRoundTrips(c);
    BareIsSecretless(security);
    PreserveRoundTrip(security);
  }

  // ---------------------------------------------------------------- secret by secret

  /** The places in a stream's security where a secret, or the public key derived from one, may stand. */
  datatype Field =
    | TlsKey | TlsEch | RealityKey | RealityPublic | ShadowPassword | ShadowUser(k: nat) | ResPassword | JlsUser(k: nat)

  /** All such places in a configuration. */
  datatype Slot =
    | InStream(stream: Stream, field: Field)
    | WrapperPassword | Seed | HysteriaKey | HysteriaEch | HysteriaObfs | RealmToken | RealmKey

  function AccountAt(users: seq<Account>, k: nat): Option<string> {
    if k < |users| then Some(users[k].password) else None
  }

  function FieldAt(s: Security, f: Field): Option<string> {
    match f
    case TlsKey => if s.tls.None? then None else Some(s.tls.value.privateKey)
    case TlsEch => if s.tls.None? then None else Some(s.tls.value.echKey)
    case RealityKey => if s.reality.None? then None else Some(s.reality.value.privateKey)
    case RealityPublic => if s.reality.None? then None else Some(s.reality.value.publicKey)
    case ShadowPassword => if s.shadowTls.None? then None else Some(s.shadowTls.value.password)
    case ShadowUser(k) => if s.shadowTls.None? then None else AccountAt(s.shadowTls.value.users, k)
    case ResPassword => if s.resTls.None? then None else Some(s.resTls.value.password)
    case JlsUser(k) => if s.jls.None? then None else AccountAt(s.jls.value.users, k)
  }

  function SecurityAt(c: Config, stream: Stream): Option<Security> {
    match stream
    case OfVless => if c.vless.None? then None else Some(c.vless.value.security)
    case OfVmess => if c.vmess.None? then None else Some(c.vmess.value.security)
    case OfTrojan => if c.trojan.None? then None else Some(c.trojan.value.security)
    case OfShadowsocks => if c.shadowsocks.None? then None else Some(c.shadowsocks.value.security)
    case NoStream => None
  }

  function SecretAt(c: Config, slot: Slot): Option<string> {
    match slot
    case InStream(stream, f) => if SecurityAt(c, stream).None? then None else FieldAt(SecurityAt(c, stream).value, f)
    case WrapperPassword => if c.trojan.None? then None else Some(c.trojan.value.wrapper.password)
    case Seed => if c.vmess.None? || c.vmess.value.mkcp.None? then None else Some(c.vmess.value.mkcp.value.seed)
    case HysteriaKey => if c.hysteria2.None? then None else Some(c.hysteria2.value.privateKey)
    case HysteriaEch => if c.hysteria2.None? then None else Some(c.hysteria2.value.echKey)
    case HysteriaObfs => if c.hysteria2.None? then None else Some(c.hysteria2.value.obfsPassword)
    case RealmToken => if c.hysteria2.None? || c.hysteria2.value.realm.None? then None else Some(c.hysteria2.value.realm.value.token)
    case RealmKey => if c.hysteria2.None? || c.hysteria2.value.realm.None? then None else Some(c.hysteria2.value.realm.value.privateKey)
  }

  predicate IsPublic(slot: Slot) {
    slot.InStream? && slot.field.RealityPublic?
  }

  lemma FieldShownIsBlank(s: Security, f: Field)
    ensures FieldAt(BlankSecurity(s), f) == if FieldAt(s, f).None? || f.RealityPublic? then FieldAt(s, f) else Some("")
  {
  }

  /** A response shows that a secret is there, and nothing of it. */
  lemma ShownIsBlank(c: Config, slot: Slot)
    ensures SecretAt(Redacted(c), slot) ==
      if SecretAt(c, slot).None? || IsPublic(slot) then SecretAt(c, slot) else Some("")
  {
    hide BlankSecurity, FieldAt;
    match slot {
      case InStream(stream, f) =>
        if SecurityAt(c, stream).Some? {
          FieldShownIsBlank(SecurityAt(c, stream).value, f);
        }
      case _ =>
    }
  }

  /** Whether the stored row keeps this secret apart: in the selected stream, in an enabled wrapper, and everywhere else. */
  predicate IsSealed(c: Config, slot: Slot) {
    match slot
    case InStream(stream, f) => stream == Selected(c) && !f.RealityPublic?
    case WrapperPassword => c.trojan.Some? && c.trojan.value.wrapper.enabled
    case _ => true
  }

  /** The clear part of a stored row has exactly the secrets that are not kept apart. */
  lemma ClearPartIsBlank(c: Config, slot: Slot)
    ensures SecretAt(Stored(c), slot) ==
      if SecretAt(c, slot).Some? && IsSealed(c, slot) then Some("") else SecretAt(c, slot)
  {
    hide BlankSecurity, FieldAt;
    match slot {
      case InStream(stream, f) =>
        SelectedIsThere(c);
        if SecurityOf(c).Some? {
          FieldShownIsBlank(SecurityOf(c).value, f);
        }
      case _ =>
    }
  }

  lemma SameAccounts(a: seq<Account>, b: seq<Account>)
    requires Blank(a) == Blank(b) && forall k :: AccountAt(a, k) == AccountAt(b, k)
    ensures a == b
  {
    assert |Blank(a)| == |a| && |Blank(b)| == |b|;
    forall i | 0 <= i < |a| ensures a[i] == b[i] {
      assert Blank(a)[i] == Blank(b)[i] && AccountAt(a, i) == AccountAt(b, i);
    }
  }

  lemma SameSecurity(a: Security, b: Security)
    requires BlankSecurity(a) == BlankSecurity(b) && forall f :: FieldAt(a, f) == FieldAt(b, f)
    ensures a == b
  {
    hide Blank, AccountAt;
    assert FieldAt(a, TlsKey) == FieldAt(b, TlsKey) && FieldAt(a, TlsEch) == FieldAt(b, TlsEch);
    assert FieldAt(a, RealityKey) == FieldAt(b, RealityKey);
    assert FieldAt(a, ShadowPassword) == FieldAt(b, ShadowPassword) && FieldAt(a, ResPassword) == FieldAt(b, ResPassword);
    if a.shadowTls.Some? {
      forall k ensures AccountAt(a.shadowTls.value.users, k) == AccountAt(b.shadowTls.value.users, k) {
        assert FieldAt(a, ShadowUser(k)) == FieldAt(b, ShadowUser(k));
      }
      SameAccounts(a.shadowTls.value.users, b.shadowTls.value.users);
    }
    if a.jls.Some? {
      forall k ensures AccountAt(a.jls.value.users, k) == AccountAt(b.jls.value.users, k) {
        assert FieldAt(a, JlsUser(k)) == FieldAt(b, JlsUser(k));
      }
      SameAccounts(a.jls.value.users, b.jls.value.users);
    }
  }

  lemma SameSecurityAt(a: Config, b: Config, stream: Stream)
    requires Redacted(a) == Redacted(b) && forall slot :: SecretAt(a, slot) == SecretAt(b, slot)
    ensures SecurityAt(a, stream) == SecurityAt(b, stream)
  {
    hide FieldAt, BlankSecurity;
    if SecurityAt(a, stream).Some? {
      forall f ensures FieldAt(SecurityAt(a, stream).value, f) == FieldAt(SecurityAt(b, stream).value, f) {
        assert SecretAt(a, InStream(stream, f)) == SecretAt(b, InStream(stream, f));
      }
      SameSecurity(SecurityAt(a, stream).value, SecurityAt(b, stream).value);
    }
  }

  /** These are all the secrets there are: what a response shows, together with them, is the whole configuration. */
  lemma SlotsAreAll(a: Config, b: Config)
    requires Redacted(a) == Redacted(b) && forall slot :: SecretAt(a, slot) == SecretAt(b, slot)
    ensures a == b
  {
    hide FieldAt, BlankSecurity;
    SameSecurityAt(a, b, OfVless);
    SameSecurityAt(a, b, OfVmess);
    SameSecurityAt(a, b, OfTrojan);
    SameSecurityAt(a, b, OfShadowsocks);
    assert SecretAt(a, WrapperPassword) == SecretAt(b, WrapperPassword) && SecretAt(a, Seed) == SecretAt(b, Seed);
    assert SecretAt(a, HysteriaKey) == SecretAt(b, HysteriaKey) && SecretAt(a, HysteriaEch) == SecretAt(b, HysteriaEch);
    assert SecretAt(a, HysteriaObfs) == SecretAt(b, HysteriaObfs);
    assert SecretAt(a, RealmToken) == SecretAt(b, RealmToken) && SecretAt(a, RealmKey) == SecretAt(b, RealmKey);
  }

  /** What an update may take over for a secret that it leaves blank. */
  function Kept(u: Config, c: Config, slot: Slot): Option<string> {
    match slot
    case InStream(stream, f) =>
      if stream == Selected(u) && SecurityOf(u).Some? && SecurityOf(c).Some? then FieldAt(SecurityOf(c).value, f) else None
    case WrapperPassword =>
      if u.trojan.Some? && u.trojan.value.wrapper.enabled && c.trojan.Some? && c.trojan.value.wrapper.enabled
      then SecretAt(c, slot) else None
    case _ => SecretAt(c, slot)
  }

  predicate IsAccount(slot: Slot) {
    slot.InStream? && (slot.field.ShadowUser? || slot.field.JlsUser?)
  }

  lemma NewFieldWins(u: Security, c: Security, f: Field)
    ensures FieldAt(u, f).None? ==> FieldAt(PreserveSecurity(u, c), f).None?
    ensures FieldAt(u, f).Some? && FieldAt(u, f).value != "" ==> FieldAt(PreserveSecurity(u, c), f) == FieldAt(u, f)
    ensures FieldAt(u, f) == Some("") && !f.ShadowUser? && !f.JlsUser? ==>
      FieldAt(PreserveSecurity(u, c), f) == if FieldAt(c, f).Some? then FieldAt(c, f) else Some("")
  {
    hide Passwords;
  }

  /** Only the selected stream is looked at. */
  lemma StreamsOfPreserved(u: Config, c: Config, stream: Stream)
    ensures SecurityAt(Preserved(u, c), stream) ==
      if stream == Selected(u) && SecurityOf(u).Some? && SecurityOf(c).Some?
      then Some(PreserveSecurity(SecurityOf(u).value, SecurityOf(c).value))
      else SecurityAt(u, stream)
  {
    hide PreserveSecurity;
  }

  lemma SelectedIsThere(u: Config)
    ensures SecurityAt(u, Selected(u)) == SecurityOf(u)
  {
  }

  /** A secret that an update brings is never overwritten; one that it leaves blank is the stored one, if there is one. */
  lemma NewSecretsWin(u: Config, c: Config, slot: Slot)
    ensures SecretAt(u, slot).None? ==> SecretAt(Preserved(u, c), slot).None?
    ensures SecretAt(u, slot).Some? && SecretAt(u, slot).value != "" ==> SecretAt(Preserved(u, c), slot) == SecretAt(u, slot)
    ensures SecretAt(u, slot) == Some("") && !IsAccount(slot) ==>
      SecretAt(Preserved(u, c), slot) == if Kept(u, c, slot).Some? then Kept(u, c, slot) else Some("")
  {
    hide PreserveSecurity, FieldAt;
    match slot {
      case InStream(stream, f) => NewStreamSecretsWin(u, c, stream, f);
      case _ =>
    }
  }

  lemma NewStreamSecretsWin(u: Config, c: Config, stream: Stream, f: Field)
    ensures var slot := InStream(stream, f);
      && (SecretAt(u, slot).None? ==> SecretAt(Preserved(u, c), slot).None?)
      && (SecretAt(u, slot).Some? && SecretAt(u, slot).value != "" ==> SecretAt(Preserved(u, c), slot) == SecretAt(u, slot))
      && (SecretAt(u, slot) == Some("") && !IsAccount(slot) ==>
            SecretAt(Preserved(u, c), slot) == if Kept(u, c, slot).Some? then Kept(u, c, slot) else Some(""))
  {
    hide PreserveSecurity, FieldAt, Preserved, SecurityAt, SecurityOf, Selected;
    StreamsOfPreserved(u, c, stream);
    SelectedIsThere(u);
    if stream == Selected(u) && SecurityOf(u).Some? && SecurityOf(c).Some? {
      NewFieldWins(SecurityOf(u).value, SecurityOf(c).value, f);
    }
  }

  /** The password a list of accounts has for a name: that of its last account of the name. */
  ghost predicate LastPassword(users: seq<Account>, name: string, password: string) {
    if forall j :: 0 <= j < |users| ==> users[j].name != name then password == ""
    else exists j :: 0 <= j < |users| && users[j] == Account(name, password) && forall i :: j < i < |users| ==> users[i].name != name
  }

  lemma {:induction false} LookupIsLast(users: seq<Account>, name: string)
    ensures LastPassword(users, name, Lookup(Passwords(users), name))
  {
    if users != [] {
      var init, last := users[..|users| - 1], users[|users| - 1];
      LookupIsLast(init, name);
      LastOfMore(init, last, name, Lookup(Passwords(init), name));
      assert users == init + [last];
    }
  }

  lemma LastOfMore(init: seq<Account>, last: Account, name: string, password: string)
    requires LastPassword(init, name, password)
    ensures LastPassword(init + [last], name, if last.name == name then last.password else password)
  {
    var users := init + [last];
    assert forall j :: 0 <= j < |init| ==> users[j] == init[j];
    if last.name == name {
      assert users[|init|] == Account(name, last.password);
    } else if j :| 0 <= j < |init| && init[j] == Account(name, password) && forall i :: j < i < |init| ==> init[i].name != name {
      assert users[j] == Account(name, password);
    }
  }

  /** Accounts are matched by name: a blank password becomes that of the last stored account of the name. */
  lemma BlankAccountsByName(u: Security, c: Security, k: nat)
    ensures u.shadowTls.Some? && c.shadowTls.Some? && k < |u.shadowTls.value.users| && u.shadowTls.value.users[k].password == "" ==>
      var filled := PreserveSecurity(u, c).shadowTls.value.users[k];
      filled.name == u.shadowTls.value.users[k].name && LastPassword(c.shadowTls.value.users, filled.name, filled.password)
    ensures u.jls.Some? && c.jls.Some? && k < |u.jls.value.users| && u.jls.value.users[k].password == "" ==>
      var filled := PreserveSecurity(u, c).jls.value.users[k];
      filled.name == u.jls.value.users[k].name && LastPassword(c.jls.value.users, filled.name, filled.password)
  {
    hide LastPassword, Passwords;
    if u.shadowTls.Some? && c.shadowTls.Some? && k < |u.shadowTls.value.users| {
      LookupIsLast(c.shadowTls.value.users, u.shadowTls.value.users[k].name);
    }
    if u.jls.Some? && c.jls.Some? && k < |u.jls.value.users| {
      LookupIsLast(c.jls.value.users, u.jls.value.users[k].name);
    }
  }

  lemma RedactedSecurity(u: Config, s: Security)
    requires SecurityOf(u).Some? && BlankSecurity(s) == BlankSecurity(SecurityOf(u).value)
    ensures Redacted(WithSecurity(u, s)) == Redacted(u)
  {
    hide BlankSecurity;
  }

  lemma RedactedBlocks(u: Config, c: Config)
    ensures u.trojan.Some? && c.trojan.Some? ==>
      var t := PreserveWrapper(u.trojan.value, c.trojan.value);
      t.(wrapper := t.wrapper.(password := "")) == u.trojan.value.(wrapper := u.trojan.value.wrapper.(password := ""))
    ensures u.vmess.Some? && c.vmess.Some? ==> BlankSeed(PreserveSeed(u.vmess.value, c.vmess.value)) == BlankSeed(u.vmess.value)
    ensures u.hysteria2.Some? && c.hysteria2.Some? ==>
      BlankHysteria(PreserveHysteria(u.hysteria2.value, c.hysteria2.value)) == BlankHysteria(u.hysteria2.value)
  {
  }

  lemma RedactedRest(d: Config, c: Config)
    ensures Redacted(d.(trojan := if d.trojan.None? || c.trojan.None? then d.trojan else Some(PreserveWrapper(d.trojan.value, c.trojan.value)),
                        vmess := if d.vmess.None? || c.vmess.None? then d.vmess else Some(PreserveSeed(d.vmess.value, c.vmess.value)),
                        hysteria2 := if d.hysteria2.None? || c.hysteria2.None? then d.hysteria2
                                     else Some(PreserveHysteria(d.hysteria2.value, c.hysteria2.value)))) == Redacted(d)
  {
    hide BlankSecurity, BlankHysteria, PreserveHysteria;
    RedactedBlocks(d, c);
  }

  /** Nothing but blank secrets and blank public keys changes. */
  lemma OnlyBlanksChange(u: Config, c: Config)
    requires forall stream :: SecretAt(u, InStream(stream, RealityPublic)) != Some("")
    ensures Redacted(Preserved(u, c)) == Redacted(u)
  {
    hide PreserveSecurity, BlankSecurity, FieldAt, Redacted, WithSecurity, PreserveWrapper, PreserveSeed, PreserveHysteria, Selected;
    assert SecretAt(u, InStream(Selected(u), RealityPublic)) != Some("");
    SelectedIsThere(u);
    if SecurityOf(u).Some? && SecurityOf(c).Some? {
      var s := PreserveSecurity(SecurityOf(u).value, SecurityOf(c).value);
      OnlyBlankFieldsChange(SecurityOf(u).value, SecurityOf(c).value);
      RedactedSecurity(u, s);
      RedactedRest(WithSecurity(u, s), c);
    } else {
      RedactedRest(u, c);
    }
  }

  lemma OnlyBlankFieldsChange(u: Security, c: Security)
    requires FieldAt(u, RealityPublic) != Some("")
    ensures BlankSecurity(PreserveSecurity(u, c)) == BlankSecurity(u)
  {
    hide Passwords;
    if u.shadowTls.Some? && c.shadowTls.Some? {
      assert Blank(FillBlanks(u.shadowTls.value.users, Passwords(c.shadowTls.value.users))) == Blank(u.shadowTls.value.users);
    }
    if u.jls.Some? && c.jls.Some? {
      assert Blank(FillBlanks(u.jls.value.users, Passwords(c.jls.value.users))) == Blank(u.jls.value.users);
    }
  }
}
