/** The store's node codec, the response redaction and the secret preservation, step by step as the code takes them. */
module NodeCodec {
  import opened Sequences
  import opened NodeSecrets

  /** The stream part of encodeNodeProtocol: move every secret out of the security block it finds. */
  method SealSecurity(security: Security) returns (s: Security, x: SecuritySecrets)
    ensures s == BlankSecurity(security) && x == SecretsOfSecurity(security)
  {
    hide Blank, Passwords;
    s, x := security, NO_SECURITY_SECRETS;
    if s.tls.Some? {
      x := x.(tlsPrivateKey := s.tls.value.privateKey, tlsEchKey := s.tls.value.echKey);
      s := s.(tls := Some(s.tls.value.(privateKey := "", echKey := "")));
    }
    if s.reality.Some? {
      x := x.(realityPrivateKey := s.reality.value.privateKey);
      s := s.(reality := Some(s.reality.value.(privateKey := "")));
    }
    if s.shadowTls.Some? {
      var users, passwords := MovePasswords(s.shadowTls.value.users);
      x := x.(shadowTlsPassword := s.shadowTls.value.password, shadowTlsUsers := passwords);
      s := s.(shadowTls := Some(s.shadowTls.value.(password := "", users := users)));
    }
    if s.resTls.Some? {
      x := x.(resTlsPassword := s.resTls.value.password);
      s := s.(resTls := Some(s.resTls.value.(password := "")));
    }
    if s.jls.Some? {
      var users, passwords := MovePasswords(s.jls.value.users);
      x := x.(jlsUsers := passwords);
      s := s.(jls := Some(s.jls.value.(users := users)));
    }
  }

  /** encodeNodeProtocol: what is stored in the clear, and what is sealed. */
  method Encode(node: Config) returns (config: Config, secrets: Secrets)
    ensures config == Stored(node) && secrets == SecretsOf(node)
  {
    hide BlankSecurity, SecretsOfSecurity;
    config, secrets := node, NO_SECRETS;
    var security := SecurityOf(config);
    if security.Some? {
      var s, x := SealSecurity(security.value);
      config, secrets := WithSecurity(config, s), secrets.(security := x);
    }
    if config.trojan.Some? && config.trojan.value.wrapper.enabled {
      var trojan := config.trojan.value;
      secrets := secrets.(trojanPassword := trojan.wrapper.password);
      config := config.(trojan := Some(trojan.(wrapper := trojan.wrapper.(password := ""))));
    }
    if config.vmess.Some? && config.vmess.value.mkcp.Some? {
      var vmess := config.vmess.value;
      secrets := secrets.(mkcpSeed := vmess.mkcp.value.seed);
      config := config.(vmess := Some(vmess.(mkcp := Some(vmess.mkcp.value.(seed := "")))));
    }
    if config.hysteria2.Some? {
      var h := config.hysteria2.value;
      secrets := secrets.(hysteriaPrivateKey := h.privateKey, hysteriaEchKey := h.echKey, hysteriaObfsPassword := h.obfsPassword);
      h := h.(privateKey := "", echKey := "", obfsPassword := "");
      if h.realm.Some? {
        secrets := secrets.(realmToken := h.realm.value.token, realmPrivateKey := h.realm.value.privateKey);
        h := h.(realm := Some(h.realm.value.(token := "", privateKey := "")));
      }
      config := config.(hysteria2 := Some(h));
    }
  }

  method OpenSecurity(security: Security, x: SecuritySecrets) returns (s: Security)
    ensures s == FillSecurity(security, x)
  {
    hide Fill;
    s := security;
    if s.tls.Some? {
      s := s.(tls := Some(s.tls.value.(privateKey := x.tlsPrivateKey, echKey := x.tlsEchKey)));
    }
    if s.reality.Some? {
      s := s.(reality := Some(s.reality.value.(privateKey := x.realityPrivateKey)));
    }
    if s.shadowTls.Some? {
      var users := ReadPasswords(s.shadowTls.value.users, x.shadowTlsUsers, false);
      s := s.(shadowTls := Some(s.shadowTls.value.(password := x.shadowTlsPassword, users := users)));
    }
    if s.resTls.Some? {
      s := s.(resTls := Some(s.resTls.value.(password := x.resTlsPassword)));
    }
    if s.jls.Some? {
      var users := ReadPasswords(s.jls.value.users, x.jlsUsers, false);
      s := s.(jls := Some(s.jls.value.(users := users)));
    }
  }

  /** decodeNodeProtocol, once both parts have been read and the secrets opened. */
  method Decode(stored: Config, secrets: Secrets) returns (config: Config)
    ensures config == Restored(stored, secrets)
  {
    hide FillSecurity;
    config := stored;
    var security := SecurityOf(config);
    if security.Some? {
      var s := OpenSecurity(security.value, secrets.security);
      config := WithSecurity(config, s);
    }
    if config.trojan.Some? && config.trojan.value.wrapper.enabled {
      var trojan := config.trojan.value;
      config := config.(trojan := Some(trojan.(wrapper := trojan.wrapper.(password := secrets.trojanPassword))));
    }
    if config.vmess.Some? && config.vmess.value.mkcp.Some? {
      var vmess := config.vmess.value;
      config := config.(vmess := Some(vmess.(mkcp := Some(vmess.mkcp.value.(seed := secrets.mkcpSeed)))));
    }
    if config.hysteria2.Some? {
      var h := config.hysteria2.value;
      h := h.(privateKey := secrets.hysteriaPrivateKey, echKey := secrets.hysteriaEchKey, obfsPassword := secrets.hysteriaObfsPassword);
      if h.realm.Some? {
        h := h.(realm := Some(h.realm.value.(token := secrets.realmToken, privateKey := secrets.realmPrivateKey)));
      }
      config := config.(hysteria2 := Some(h));
    }
  }

  /** Writing a node and reading it back: the node itself, unless accounts of one name disagree. */
  method WriteThenRead(node: Config) returns (read: Config)
    ensures read == node <==> SelectedConsistent(node)
  {
    var stored, secrets := Encode(node);
    read := Decode(stored, secrets);
    StoredRoundTrip(node);
  }

  /** redactNodeSecrets on the copies a response is made of. */
  method Redact(node: Config) returns (shown: Config)
    ensures shown == Redacted(node) && NoSecrets(shown)
  {
    hide BlankSecurity, SecretsOfSecurity, NoSecrets;
    shown := node;
    if shown.vless.Some? {
      var s, flags := SealSecurity(shown.vless.value.security);
      shown := shown.(vless := Some(shown.vless.value.(security := s)));
    }
    if shown.hysteria2.Some? {
      var h := shown.hysteria2.value.(privateKey := "", echKey := "", obfsPassword := "");
      if h.realm.Some? {
        h := h.(realm := Some(h.realm.value.(token := "", privateKey := "")));
      }
      shown := shown.(hysteria2 := Some(h));
    }
    if shown.vmess.Some? {
      var s, flags := SealSecurity(shown.vmess.value.security);
      var v := shown.vmess.value.(security := s);
      if v.mkcp.Some? {
        v := v.(mkcp := Some(v.mkcp.value.(seed := "")));
      }
      shown := shown.(vmess := Some(v));
    }
    if shown.trojan.Some? {
      var s, flags := SealSecurity(shown.trojan.value.security);
      var t := shown.trojan.value;
      shown := shown.(trojan := Some(t.(security := s, wrapper := t.wrapper.(password := ""))));
    }
    if shown.shadowsocks.Some? {
      var s, flags := SealSecurity(shown.shadowsocks.value.security);
      shown := shown.(shadowsocks := Some(shown.shadowsocks.value.(security := s)));
    }
    RedactedHasNoSecrets(node);
  }

  method FillFrom(updated: Security, current: Security) returns (u: Security)
    ensures u == PreserveSecurity(updated, current)
  {
    hide PreserveTls, PreserveReality, PreserveShadowTls, PreserveResTls, PreserveJls;
    u := FillKeys(updated, current);
    u := FillAccounts(u, current);
  }

  method FillKeys(updated: Security, current: Security) returns (u: Security)
    ensures u == updated.(tls := PreserveTls(updated.tls, current.tls), reality := PreserveReality(updated.reality, current.reality))
  {
    u := updated;
    if u.tls.Some? && current.tls.Some? {
      if u.tls.value.privateKey == "" {
        u := u.(tls := Some(u.tls.value.(privateKey := current.tls.value.privateKey)));
      }
      if u.tls.value.echKey == "" {
        u := u.(tls := Some(u.tls.value.(echKey := current.tls.value.echKey)));
      }
    }
    if u.reality.Some? && current.reality.Some? {
      if u.reality.value.privateKey == "" {
        u := u.(reality := Some(u.reality.value.(privateKey := current.reality.value.privateKey)));
      }
      if u.reality.value.publicKey == "" {
        u := u.(reality := Some(u.reality.value.(publicKey := current.reality.value.publicKey)));
      }
    }
  }

  method FillAccounts(updated: Security, current: Security) returns (u: Security)
    ensures u == updated.(shadowTls := PreserveShadowTls(updated.shadowTls, current.shadowTls),
                          resTls := PreserveResTls(updated.resTls, current.resTls), jls := PreserveJls(updated.jls, current.jls))
  {
    hide FillBlanks, Passwords, Blank;
    u := updated;
    if u.shadowTls.Some? && current.shadowTls.Some? {
      var mine := u.shadowTls.value;
      if mine.password == "" {
        mine := mine.(password := current.shadowTls.value.password);
      }
      var _, passwords := MovePasswords(current.shadowTls.value.users);
      var users := ReadPasswords(mine.users, passwords, true);
      u := u.(shadowTls := Some(mine.(users := users)));
    }
    if u.resTls.Some? && current.resTls.Some? && u.resTls.value.password == "" {
      u := u.(resTls := Some(u.resTls.value.(password := current.resTls.value.password)));
    }
    if u.jls.Some? && current.jls.Some? {
      var _, passwords := MovePasswords(current.jls.value.users);
      var users := ReadPasswords(u.jls.value.users, passwords, true);
      u := u.(jls := Some(u.jls.value.(users := users)));
    }
  }

  /** preserveNodeSecrets: nothing crosses from one protocol to another. */
  method Preserve(updated: Config, current: Config, sameProtocol: bool) returns (u: Config)
    ensures u == if sameProtocol then Preserved(updated, current) else updated
  {
    hide PreserveSecurity;
    u := updated;
    if !sameProtocol {
      return;
    }
    var mine, theirs := SecurityOf(u), SecurityOf(current);
    if mine.Some? && theirs.Some? {
      var s := FillFrom(mine.value, theirs.value);
      u := WithSecurity(u, s);
    }
    if u.trojan.Some? && current.trojan.Some? && u.trojan.value.wrapper.enabled && current.trojan.value.wrapper.enabled
       && u.trojan.value.wrapper.password == "" {
      var t := u.trojan.value;
      u := u.(trojan := Some(t.(wrapper := t.wrapper.(password := current.trojan.value.wrapper.password))));
    }
    if u.vmess.Some? && current.vmess.Some? && u.vmess.value.mkcp.Some? && current.vmess.value.mkcp.Some?
       && u.vmess.value.mkcp.value.seed == "" {
      var v := u.vmess.value;
      u := u.(vmess := Some(v.(mkcp := Some(v.mkcp.value.(seed := current.vmess.value.mkcp.value.seed)))));
    }
    if u.hysteria2.Some? && current.hysteria2.Some? {
      var h := FillHysteriaBlanks(u.hysteria2.value, current.hysteria2.value);
      u := u.(hysteria2 := Some(h));
    }
  }

  method FillHysteriaBlanks(updated: Hysteria2, current: Hysteria2) returns (h: Hysteria2)
    ensures h == PreserveHysteria(updated, current)
  {
    h := updated;
    if h.privateKey == "" {
      h := h.(privateKey := current.privateKey);
    }
    if h.echKey == "" {
      h := h.(echKey := current.echKey);
    }
    if h.obfsPassword == "" {
      h := h.(obfsPassword := current.obfsPassword);
    }
    if h.realm.Some? && current.realm.Some? {
      if h.realm.value.token == "" {
        h := h.(realm := Some(h.realm.value.(token := current.realm.value.token)));
      }
      if h.realm.value.privateKey == "" {
        h := h.(realm := Some(h.realm.value.(privateKey := current.realm.value.privateKey)));
      }
    }
  }

  /** A client that edits nothing and sends the response back changes nothing, save for a disabled wrapper's password. */
  method ShowThenSave(node: Config) returns (saved: Config)
    requires ValidConfig(node)
    ensures saved == node <==> WrapperClean(node)
  {
    var shown := Redact(node);
    saved := Preserve(shown, node, true);
    ValidRoundTrips(node);
  }

  // ---------------------------------------------------------------- user credentials

  datatype Credential = Credential(secret: string, rest: string)

  /** A user's credential slots, of which a valid user fills in the one of its node's protocol. */
  datatype Credentials = Credentials(vless: Option<Credential>, hysteria2: Option<Credential>, vmess: Option<Credential>,
                                     trojan: Option<Credential>, shadowsocks: Option<Credential>)

  function BlankSlot(slot: Option<Credential>): Option<Credential> {
    if slot.None? then None else Some(slot.value.(secret := ""))
  }

  function FillSlot(updated: Option<Credential>, current: Option<Credential>): Option<Credential> {
    if updated.Some? && current.Some? && updated.value.secret == "" then Some(updated.value.(secret := current.value.secret))
    else updated
  }

  /** newUserResponse */
  function ShownUser(u: Credentials): Credentials {
    Credentials(BlankSlot(u.vless), BlankSlot(u.hysteria2), BlankSlot(u.vmess), BlankSlot(u.trojan), BlankSlot(u.shadowsocks))
  }

  /** preserveUserSecrets */
  function PreservedUser(u: Credentials, c: Credentials): Credentials {
    Credentials(FillSlot(u.vless, c.vless), FillSlot(u.hysteria2, c.hysteria2), FillSlot(u.vmess, c.vmess),
                FillSlot(u.trojan, c.trojan), FillSlot(u.shadowsocks, c.shadowsocks))
  }

  /** Users have no gap: a credential shown and sent back is the credential; a new secret is never overwritten. */
  lemma UserRoundTrip(u: Credentials, c: Credentials)
    ensures PreservedUser(ShownUser(u), u) == u
    ensures ShownUser(PreservedUser(u, c)) == ShownUser(u)
    ensures u.vless.Some? && u.vless.value.secret != "" ==> PreservedUser(u, c).vless == u.vless
    ensures u.hysteria2.Some? && u.hysteria2.value.secret != "" ==> PreservedUser(u, c).hysteria2 == u.hysteria2
    ensures u.vmess.Some? && u.vmess.value.secret != "" ==> PreservedUser(u, c).vmess == u.vmess
    ensures u.trojan.Some? && u.trojan.value.secret != "" ==> PreservedUser(u, c).trojan == u.trojan
    ensures u.shadowsocks.Some? && u.shadowsocks.value.secret != "" ==> PreservedUser(u, c).shadowsocks == u.shadowsocks
  {
  }
}
