/** Who a throttle counts, and the cache key that stands for it. */
module ThrottleKeys {
  import opened Decimal
  import opened Options
  import opened Strings

  /** The fields of the request body that can name an account, in the order
      they are tried. An absent field and an empty one read the same. */
  datatype Body = Body(username: string, email: string, phone: string)

  /** `body` is None when the request has no data or data without fields. */
  datatype Request = Request(user: Option<nat>, body: Option<Body>, clientIp: string)

  datatype Field = Username | Email | Phone

  datatype Identity = Account(id: nat) | Named(field: Field, value: string) | Address(ip: string)

  function StripLeft(s: string): string {
    if s != "" && IsBlank(s[0]) then StripLeft(s[1..]) else s
  }

  function StripRight(s: string): string {
    if s != "" && IsBlank(s[|s| - 1]) then StripRight(s[..|s| - 1]) else s
  }

  function Strip(s: string): string {
    StripRight(StripLeft(s))
  }

  function IdentityOf(r: Request): Identity {
    if r.user.Some? then Account(r.user.value)
    else if r.body.Some? && Strip(r.body.value.username) != "" then Named(Username, Strip(r.body.value.username))
    else if r.body.Some? && Strip(r.body.value.email) != "" then Named(Email, Strip(r.body.value.email))
    else if r.body.Some? && Strip(r.body.value.phone) != "" then Named(Phone, Strip(r.body.value.phone))
    else Address(r.clientIp)
  }

  function Ident(who: Identity): string {
    match who
    case Account(id) => "user_" + Print(id)
    case Named(Username, v) => "username_" + v
    case Named(Email, v) => "email_" + v
    case Named(Phone, v) => "phone_" + v
    case Address(ip) => "ip_" + ip
  }

  datatype Scope = Login | OtpSend | OtpVerify | PasswordReset | PhoneLookup | Report | MediaRefresh

  function ScopeName(scope: Scope): string {
    match scope
    case Login => "login"
    case OtpSend => "otp_send"
    case OtpVerify => "otp_verify"
    case PasswordReset => "password_reset"
    case PhoneLookup => "phone_lookup"
    case Report => "report"
    case MediaRefresh => "media_refresh"
  }

  function FailureKey(scope: Scope, who: Identity): string {
    "failed_attempts_" + (ScopeName(scope) + "_" + Ident(who))
  }

  function ThrottleKey(scope: Scope, who: Identity): string {
    "throttle_" + (ScopeName(scope) + "_" + Ident(who))
  }

  lemma DropPrefix(p: string, s: string)
    ensures (p + s)[|p|..] == s
  {
  }

  /** The kind of an identity can be read off its key: no kind's label is a
      prefix of another's. */
  lemma IdentInjective(a: Identity, b: Identity)
    requires Ident(a) == Ident(b)
    ensures a == b
  {
    var s := Ident(a);
    assert a.Account? <==> s[0] == 'u' && s[4] == '_';
    assert b.Account? <==> s[0] == 'u' && s[4] == '_';
    assert a.Address? <==> s[0] == 'i';
    assert b.Address? <==> s[0] == 'i';
    match a
    case Account(id) =>
      DropPrefix("user_", Print(a.id));
      DropPrefix("user_", Print(b.id));
      PrintInjective(a.id, b.id);
    case Named(f, v) =>
      assert f == b.field;
      match f {
        case Username => DropPrefix("username_", v); DropPrefix("username_", b.value);
        case Email => DropPrefix("email_", v); DropPrefix("email_", b.value);
        case Phone => DropPrefix("phone_", v); DropPrefix("phone_", b.value);
      }
    case Address(ip) => DropPrefix("ip_", ip); DropPrefix("ip_", b.ip);
  }

  /** Three characters tell the declared scopes apart, whatever follows. */
  lemma ScopeIsReadable(a: Scope, s: string, b: Scope, t: string)
    requires ScopeName(a) + "_" + s == ScopeName(b) + "_" + t
    ensures a == b && s == t
  {
    var u := ScopeName(a) + "_" + s;
    assert u[0] == ScopeName(a)[0] && u[1] == ScopeName(a)[1] && u[4] == ScopeName(a)[4];
    assert u[0] == ScopeName(b)[0] && u[1] == ScopeName(b)[1] && u[4] == ScopeName(b)[4];
    assert a == b;
    DropPrefix(ScopeName(a) + "_", s);
    DropPrefix(ScopeName(a) + "_", t);
  }

  /** Two failure counters share a key exactly when they count the same identity
      in the same scope; the rate limiter's entries are never among them. */
  lemma KeysNeverCollide(a: Scope, i: Identity, b: Scope, j: Identity)
    ensures FailureKey(a, i) == FailureKey(b, j) <==> a == b && i == j
    ensures ThrottleKey(a, i) == ThrottleKey(b, j) <==> a == b && i == j
    ensures FailureKey(a, i) != ThrottleKey(b, j)
  {
    var s, t := ScopeName(a) + "_" + Ident(i), ScopeName(b) + "_" + Ident(j);
    DropPrefix("failed_attempts_", s);
    DropPrefix("failed_attempts_", t);
    DropPrefix("throttle_", s);
    DropPrefix("throttle_", t);
    assert FailureKey(a, i)[0] == 'f' && ThrottleKey(b, j)[0] == 't';
    if s == t {
      ScopeIsReadable(a, Ident(i), b, Ident(j));
      IdentInjective(i, j);
    }
  }

  // ---- Stripping ----

  predicate AllBlank(s: string) {
    forall i :: 0 <= i < |s| ==> IsBlank(s[i])
  }

  lemma {:induction false} StripLeftDrops(pad: string, s: string)
    requires AllBlank(pad) && (s == "" || !IsBlank(s[0]))
    ensures StripLeft(pad + s) == s
  {
    if pad == "" {
      assert pad + s == s;
    } else {
      assert (pad + s)[1..] == pad[1..] + s;
      StripLeftDrops(pad[1..], s);
    }
  }

  lemma {:induction false} StripRightDrops(s: string, pad: string)
    requires AllBlank(pad) && (s == "" || !IsBlank(s[|s| - 1]))
    ensures StripRight(s + pad) == s
  {
    if pad == "" {
      assert s + pad == s;
    } else {
      var k := |s + pad| - 1;
      assert (s + pad)[..k] == s + pad[..|pad| - 1];
      assert (s + pad)[k] == pad[|pad| - 1];
      StripRightDrops(s, pad[..|pad| - 1]);
    }
  }

  /** Blanks typed around a value do not make it another identity. */
  lemma PaddingIsIgnored(left: string, v: string, right: string)
    requires AllBlank(left) && AllBlank(right)
    requires v == "" || (!IsBlank(v[0]) && !IsBlank(v[|v| - 1]))
    ensures Strip(left + v + right) == v
  {
    if v == "" {
      assert left + v + right == (left + right) + "";
      StripLeftDrops(left + right, "");
    } else {
      assert left + v + right == left + (v + right);
      StripLeftDrops(left, v + right);
      StripRightDrops(v, right);
    }
  }

  lemma {:induction false} StripRightEmpties(s: string)
    ensures StripRight(s) == "" <==> AllBlank(s)
  {
    if s != "" {
      StripRightEmpties(s[..|s| - 1]);
      assert s == s[..|s| - 1] + [s[|s| - 1]];
    }
  }

  lemma {:induction false} StripEmpties(s: string)
    ensures Strip(s) == "" <==> AllBlank(s)
  {
    if s != "" && IsBlank(s[0]) {
      StripEmpties(s[1..]);
      assert s == [s[0]] + s[1..];
    } else {
      StripRightEmpties(s);
    }
  }

  /** The body fills a field with more than blanks. */
  ghost predicate Names(r: Request, field: Field) {
    r.body.Some? && !AllBlank(FieldOf(r.body.value, field))
  }

  function FieldOf(b: Body, field: Field): string {
    match field
    case Username => b.username
    case Email => b.email
    case Phone => b.phone
  }

  /** The signed-in user counts first, then the first field filled, and the
      address only when nothing names an account: no address a caller claims can
      change who is counted. */
  lemma AccountBeforeAddress(r: Request)
    ensures IdentityOf(r).Account? <==> r.user.Some?
    ensures forall f :: (IdentityOf(r).Named? && IdentityOf(r).field == f) <==>
      r.user == None && Names(r, f) && (f != Username ==> !Names(r, Username)) && (f == Phone ==> !Names(r, Email))
    ensures IdentityOf(r).Address? <==> r.user == None && forall f :: !Names(r, f)
    ensures !IdentityOf(r).Address? ==> forall ip :: IdentityOf(r.(clientIp := ip)) == IdentityOf(r)
  {
    if r.body.Some? {
      StripEmpties(r.body.value.username);
      StripEmpties(r.body.value.email);
      StripEmpties(r.body.value.phone);
      assert FieldOf(r.body.value, Username) == r.body.value.username;
      assert Names(r, Username) <==> Strip(r.body.value.username) != "";
      assert Names(r, Email) <==> Strip(r.body.value.email) != "";
      assert Names(r, Phone) <==> Strip(r.body.value.phone) != "";
    }
  }

  // ---- Who exactly is counted ----

  /** A text is a value with blanks around it: the value starts and ends with
      something else, or is empty. */
  ghost predicate Padded(text: string, value: string) {
    && (exists left, right :: AllBlank(left) && AllBlank(right) && text == left + value + right)
    && (value == "" || (!IsBlank(value[0]) && !IsBlank(value[|value| - 1])))
  }

  lemma {:induction false} StripLeftCuts(s: string) returns (left: string)
    ensures AllBlank(left) && s == left + StripLeft(s) && (StripLeft(s) == "" || !IsBlank(StripLeft(s)[0]))
  {
    if s != "" && IsBlank(s[0]) {
      left := StripLeftCuts(s[1..]);
      assert s == [s[0]] + s[1..] && s == [s[0]] + left + StripLeft(s);
      left := [s[0]] + left;
    } else {
      left := "";
    }
  }

  lemma {:induction false} StripRightCuts(s: string) returns (right: string)
    ensures AllBlank(right) && s == StripRight(s) + right
    ensures StripRight(s) == "" || !IsBlank(StripRight(s)[|StripRight(s)| - 1])
  {
    if s != "" && IsBlank(s[|s| - 1]) {
      right := StripRightCuts(s[..|s| - 1]);
      assert s == s[..|s| - 1] + [s[|s| - 1]] && s == StripRight(s) + (right + [s[|s| - 1]]);
      right := right + [s[|s| - 1]];
    } else {
      right := "";
    }
  }

  /** A text has one such value, the stripped text. */
  lemma StripIsPadded(text: string, value: string)
    ensures Padded(text, value) <==> value == Strip(text)
  {
    var left := StripLeftCuts(text);
    var right := StripRightCuts(StripLeft(text));
    var v := Strip(text);
    assert text == left + v + right;
    assert v != "" ==> v[0] == StripLeft(text)[0];
    assert Padded(text, v);
    if Padded(text, value) {
      var l, r :| AllBlank(l) && AllBlank(r) && text == l + value + r;
      PaddingIsIgnored(l, value, r);
    }
  }

  /** The caller is the user signed in, or else the first field filled, without
      the blanks around it, or else the address. */
  lemma IdentityIs(r: Request)
    ensures IdentityOf(r).Account? ==> r.user == Some(IdentityOf(r).id)
    ensures IdentityOf(r).Named? ==> r.body.Some? && Padded(FieldOf(r.body.value, IdentityOf(r).field), IdentityOf(r).value)
    ensures IdentityOf(r).Address? ==> IdentityOf(r).ip == r.clientIp
  {
    if r.body.Some? {
      StripIsPadded(r.body.value.username, Strip(r.body.value.username));
      StripIsPadded(r.body.value.email, Strip(r.body.value.email));
      StripIsPadded(r.body.value.phone, Strip(r.body.value.phone));
    }
  }

  /** The field is the first one filled, and this is what fills it. */
  ghost predicate FirstNames(r: Request, field: Field, value: string) {
    && Names(r, field) && (field != Username ==> !Names(r, Username)) && (field == Phone ==> !Names(r, Email))
    && Padded(FieldOf(r.body.value, field), value)
  }

  lemma NamedIff(r: Request, field: Field, value: string)
    ensures IdentityOf(r) == Named(field, value) <==> r.user == None && FirstNames(r, field, value)
  {
    AccountBeforeAddress(r);
    IdentityIs(r);
    if r.body.Some? {
      StripIsPadded(FieldOf(r.body.value, field), value);
      if IdentityOf(r).Named? {
        StripIsPadded(FieldOf(r.body.value, IdentityOf(r).field), IdentityOf(r).value);
      }
    }
  }

  /** Two requests are one caller: signed in as the same user; or not signed in,
      and first filling the same field with the same value, but for blanks around
      it; or naming nobody from the same address. */
  ghost predicate SameCaller(r: Request, q: Request) {
    if r.user.Some? || q.user.Some? then r.user == q.user
    else
      || (exists field, value :: FirstNames(r, field, value) && FirstNames(q, field, value))
      || ((forall field :: !Names(r, field) && !Names(q, field)) && r.clientIp == q.clientIp)
  }

  lemma SameIdentityIff(r: Request, q: Request)
    ensures IdentityOf(r) == IdentityOf(q) <==> SameCaller(r, q)
  {
    AccountBeforeAddress(r);
    AccountBeforeAddress(q);
    IdentityIs(r);
    IdentityIs(q);
    if IdentityOf(r).Named? {
      NamedIff(r, IdentityOf(r).field, IdentityOf(r).value);
      NamedIff(q, IdentityOf(r).field, IdentityOf(r).value);
    }
    if field, value :| FirstNames(r, field, value) && FirstNames(q, field, value) {
      NamedIff(r, field, value);
      NamedIff(q, field, value);
    }
  }

  /** Two requests share a failure counter exactly when they are one caller in
      one scope. */
  lemma SharedCounterIff(a: Scope, r: Request, b: Scope, q: Request)
    ensures FailureKey(a, IdentityOf(r)) == FailureKey(b, IdentityOf(q)) <==> a == b && SameCaller(r, q)
  {
    KeysNeverCollide(a, IdentityOf(r), b, IdentityOf(q));
    SameIdentityIff(r, q);
  }

  predicate EndsWith(s: string, t: string) {
    |t| <= |s| && s[|s| - |t|..] == t
  }

  lemma EndsAppend(p: string, s: string, t: string)
    requires EndsWith(s, t)
    ensures EndsWith(p + s, t)
  {
    assert (p + s)[|p + s| - |t|..] == s[|s| - |t|..];
  }

  /** What names the caller: the field's value, the address, or the user's number
      in decimal. */
  function NameOf(who: Identity): string {
    match who
    case Account(id) => Print(id)
    case Named(_, value) => value
    case Address(ip) => ip
  }

  lemma WholeEnds(s: string)
    ensures EndsWith(s, s)
  {
  }

  lemma IdentEnds(who: Identity)
    ensures EndsWith(Ident(who), NameOf(who))
  {
    WholeEnds(NameOf(who));
    match who
    case Account(id) => EndsAppend("user_", Print(id), Print(id));
    case Named(Username, v) => EndsAppend("username_", v, v);
    case Named(Email, v) => EndsAppend("email_", v, v);
    case Named(Phone, v) => EndsAppend("phone_", v, v);
    case Address(ip) => EndsAppend("ip_", ip, ip);
  }

  /** Every key ends with it. */
  lemma KeysNameTheCaller(scope: Scope, who: Identity)
    ensures EndsWith(FailureKey(scope, who), NameOf(who)) && EndsWith(ThrottleKey(scope, who), NameOf(who))
  {
    IdentEnds(who);
    EndsAppend(ScopeName(scope) + "_", Ident(who), NameOf(who));
    EndsAppend("failed_attempts_", ScopeName(scope) + "_" + Ident(who), NameOf(who));
    EndsAppend("throttle_", ScopeName(scope) + "_" + Ident(who), NameOf(who));
  }
}
