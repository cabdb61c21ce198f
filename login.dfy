/**
  The login step: the fields of the provider's login form are kept, the
  credentials are added, and `login_hash` is
  `md5(login_user ++ md5(login_pass) ++ login_chal)`. `md5` is a parameter:
  its internals are outside the model.
*/
module Login {
  import opened Options
  import opened OrderedMaps
  import opened FormPayload

  /** `[…].join("")` prints an `undefined` element as the empty string. */
  function JoinPart(v: Option<string>): string {
    if v.Some? then v.value else ""
  }

  /**
    The form `login` posts: `form.login_user = user`, `form.login_pass = pass`,
    then `form.login_hash` computed from the fields just written and the
    challenge the page supplied.
  */
  function LoginForm(form: OrderedMap, user: string, pass: string, md5: string -> string): OrderedMap {
    var withUser := form.Put("login_user", user);
    var withPass := withUser.Put("login_pass", pass);
    withPass.Put("login_hash", LoginHash(withPass, md5))
  }

  /** `md5([form.login_user, md5(form.login_pass), form.login_chal].join(''))`. */
  function LoginHash(form: OrderedMap, md5: string -> string): string {
    md5(JoinPart(form.Get("login_user")) + md5(JoinPart(form.Get("login_pass"))) + JoinPart(form.Get("login_chal")))
  }

  /**
    The posted form keeps the page's fields in order, and adds the two
    credentials: `login_user` is the user and `login_pass` the plaintext
    password.
  */
  lemma LoginFormFields(form: OrderedMap, user: string, pass: string, md5: string -> string)
    requires form.Valid()
    ensures var g := LoginForm(form, user, pass, md5);
      && g.Valid()
      && form.keys <= g.keys
      && g.Get("login_user") == Some(user)
      && g.Get("login_pass") == Some(pass)
  {
    var withPass := form.Put("login_user", user).Put("login_pass", pass);
    DistinctNames();
    PutThree(form, "login_user", user, "login_pass", pass, "login_hash", LoginHash(withPass, md5));
  }

  /**
    `login_hash` is `md5(user ++ md5(pass) ++ chal)` with `chal` the form's
    `login_chal` value, or empty when the form has no `login_chal` value.
  */
  lemma LoginFormHash(form: OrderedMap, user: string, pass: string, md5: string -> string)
    ensures LoginForm(form, user, pass, md5).Get("login_hash")
      == Some(md5(user + md5(pass) + JoinPart(form.Get("login_chal"))))
  {
    var withUser := form.Put("login_user", user);
    var withPass := withUser.Put("login_pass", pass);
    DistinctNames();
    assert withPass.Get("login_user") == Some(user);
    assert withPass.Get("login_pass") == Some(pass);
    assert withPass.Get("login_chal") == form.Get("login_chal");
  }

  /** Every other field of the page is posted with the value the page gave it. */
  lemma LoginFormKeeps(form: OrderedMap, user: string, pass: string, md5: string -> string, k: string)
    requires k != "login_user" && k != "login_pass" && k != "login_hash"
    ensures LoginForm(form, user, pass, md5).Get(k) == form.Get(k)
  {
    var withUser := form.Put("login_user", user);
    var withPass := withUser.Put("login_pass", pass);
    PutOther(withPass, "login_hash", LoginHash(withPass, md5), k);
    PutOther(withUser, "login_pass", pass, k);
    PutOther(form, "login_user", user, k);
  }

  lemma DistinctNames()
    ensures "login_chal" != "login_user" && "login_chal" != "login_pass" && "login_chal" != "login_hash"
    ensures "login_user" != "login_pass" && "login_user" != "login_hash" && "login_pass" != "login_hash"
  {
    assert "login_chal"[6] == 'c' && "login_user"[6] == 'u' && "login_pass"[6] == 'p' && "login_hash"[6] == 'h';
  }

  /**
    What goes on the wire: the body of the login POST reads back as every
    field of the login form, among them the plaintext password.
  */
  lemma LoginPayloadCarriesPassword(form: OrderedMap, user: string, pass: string, md5: string -> string)
    requires form.Valid()
    ensures var g := LoginForm(form, user, pass, md5);
      && ParsePayload(Payload(g)) == Some(Entries(g))
      && ("login_pass", pass) in Entries(g)
  {
    var g := LoginForm(form, user, pass, md5);
    assert g.Valid() && g.Get("login_pass") == Some(pass) by {
      LoginFormFields(form, user, pass, md5);
    }
    PayloadRoundTrip(g);
    EntriesHas(g, "login_pass");
  }
}
