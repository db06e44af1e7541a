/**
 * The `user[:password]@` part of a URI: its tokenizer, which slices the userinfo out of the
 * input bytes, and its conversion into owned text (src/common/uri/auth.rs).
 */
module UriAuth {
  import opened Wrappers
  import opened Bytes
  import Nom
  import Utf8
  import Errors

  /** The owned authority value. */
  datatype Auth = Auth(username: string, password: Option<string>)

  /** The tokenizer: the username and optional password as sub-slices of the input. */
  datatype Tokenizer = Tokenizer(username: seq<byte>, password: Option<seq<byte>>)

  /** `From<(T, Option<S>)> for Auth`. */
  function AuthFromPair(pair: (string, Option<string>)): Auth {
    Auth(pair.0, pair.1)
  }

  /** `From<(&[u8], Option<&[u8]>)> for Tokenizer`. */
  function TokenizerFromPair(pair: (seq<byte>, Option<seq<byte>>)): Tokenizer {
    Tokenizer(pair.0, pair.1)
  }

  /** The bytes at which the userinfo scan stops: `.` and `@`. */
  predicate IsUserinfoEnd(c: byte) {
    c == DOT || c == AT
  }

  /** The userinfo span a tokenizer stands for: `username[:password]`. */
  function Userinfo(t: Tokenizer): seq<byte> {
    t.username + (if t.password.Some? then [COLON] + t.password.value else [])
  }

  /** `tuple((take_until(":"), tag(":"), rest))`: the span before the first `:` and everything after it. */
  function SplitAtColon(auth: seq<byte>): Nom.IResult<(seq<byte>, seq<byte>)> {
    match Nom.TakeUntil([COLON], auth)
    case Err(e) => Err(e)
    case Ok((afterUser, username)) =>
      match Nom.Tag([COLON], afterUser)
      case Err(e) => Err(e)
      case Ok((afterColon, _)) =>
        match Nom.Rest(afterColon)
        case Err(e) => Err(e)
        case Ok((rem, password)) => Ok((rem, (username, password)))
  }

  /** `Tokenizer::tokenize`: scan to the first `.` or `@`, require `@` there, then split the
      scanned span at its first `:`. Returns the bytes after the `@` and the tokenizer. */
  function Tokenize(part: seq<byte>): (r: Nom.IResult<Tokenizer>)
    ensures r.Ok? ==> part == Userinfo(r.value.1) + [AT] + r.value.0
    ensures r.Err? ==> r.error.Error?
  {
    match Nom.TakeTill(part, IsUserinfoEnd)
    case Err(e) => Err(e)
    case Ok((afterAuth, auth)) =>
      match Nom.Tag([AT], afterAuth)
      case Err(e) => Err(e)
      case Ok((rem, _)) =>
        match SplitAtColon(auth)
        case Ok((_, (username, password))) =>
          assert Nom.OccursAt(auth, [COLON], |username|);
          assert auth == username + [COLON] + password;
          Ok((rem, Tokenizer(username, Some(password))))
        case Err(_) =>
          match Nom.Rest(auth)
          case Err(e) => Err(e)
          case Ok((_, username)) => Ok((rem, Tokenizer(username, None)))
  }

  /** `Auth::parse` (and `TryFrom<Tokenizer> for Auth`): the username, then the password if
      present, decoded as UTF-8. */
  function Parse(t: Tokenizer): (r: Result<Auth, Errors.Error>)
    ensures r.Ok? <==> Utf8.IsUtf8(t.username) && (t.password.Some? ==> Utf8.IsUtf8(t.password.value))
    ensures r.Ok? ==> Utf8.Encode(r.value.username) == t.username
    ensures r.Ok? ==> (r.value.password.Some? <==> t.password.Some?)
    ensures r.Ok? && r.value.password.Some? ==> Utf8.Encode(r.value.password.value) == t.password.value
    ensures r.Err? ==> r.error == Errors.Utf8Error
  {
    Utf8.DecodeSucceedsIff(t.username);
    match Utf8.Decode(t.username)
    case None => Err(Errors.Utf8Error)
    case Some(username) =>
      Utf8.EncodeDecoded(t.username);
      match t.password
      case None => Ok(Auth(username, None))
      case Some(p) =>
        Utf8.DecodeSucceedsIff(p);
        match Utf8.Decode(p)
        case None => Err(Errors.Utf8Error)
        case Some(password) =>
          Utf8.EncodeDecoded(p);
          Ok(Auth(username, Some(password)))
  }

  /** No byte before index `i` of `part` ends the userinfo scan. */
  predicate NoUserinfoEndBefore(part: seq<byte>, i: nat)
    requires i <= |part|
  {
    forall j :: 0 <= j < i ==> !IsUserinfoEnd(part[j])
  }

  /** When the first `.` or `@` of `part` is an `@` at index `i`, tokenizing succeeds, the userinfo
      is everything before it and the remainder everything after it, uninspected. */
  lemma TokenizeAtFirstAt(part: seq<byte>, i: nat)
    requires i < |part| && part[i] == AT && NoUserinfoEndBefore(part, i)
    ensures Tokenize(part).Ok?
    ensures Userinfo(Tokenize(part).value.1) == part[..i]
    ensures Tokenize(part).value.0 == part[i + 1..]
  {
    Nom.TakeTillStopsAtFirst(part, IsUserinfoEnd, i);
    var r := Tokenize(part);
    assert r.Ok?;
    assert part == part[..i] + [AT] + part[i + 1..];
    assert Userinfo(r.value.1) + [AT] + r.value.0 == part[..i] + [AT] + part[i + 1..];
  }

  /** Tokenizing succeeds exactly when `part` holds a `.` or `@` and the first of them is `@`. */
  lemma TokenizeSucceedsIff(part: seq<byte>)
    ensures Tokenize(part).Ok? <==>
      exists i :: 0 <= i < |part| && part[i] == AT && NoUserinfoEndBefore(part, i)
  {
    var (afterAuth, auth) := Nom.TakeTill(part, IsUserinfoEnd).value;
    if Tokenize(part).Ok? {
      assert part[|auth|] == afterAuth[0] == AT;
      assert NoUserinfoEndBefore(part, |auth|);
    }
    if exists i :: 0 <= i < |part| && part[i] == AT && NoUserinfoEndBefore(part, i) {
      var i :| 0 <= i < |part| && part[i] == AT && NoUserinfoEndBefore(part, i);
      TokenizeAtFirstAt(part, i);
    }
  }

  /** A `.` before any `@`, or no `@` at all, is a recoverable mismatch, so that an enclosing choice
      can try the grammar without an authority. */
  lemma TokenizeMismatch(part: seq<byte>)
    requires AT !in part || exists j :: 0 <= j < |part| && part[j] == DOT && AT !in part[..j]
    ensures Tokenize(part).Err? && Tokenize(part).error.Error?
  {
    TokenizeSucceedsIff(part);
  }

  /** The split inside the userinfo happens exactly when it holds a `:`, and then at the first one. */
  lemma SplitAtFirstColon(auth: seq<byte>)
    ensures SplitAtColon(auth).Ok? <==> COLON in auth
    ensures SplitAtColon(auth).Ok? ==>
      var (username, password) := SplitAtColon(auth).value.1;
      COLON !in username && username + [COLON] + password == auth
  {
    Nom.TakeUntilByte(COLON, auth);
    var r := Nom.TakeUntil([COLON], auth);
    if r.Ok? {
      var rem := r.value.0;
      assert [COLON] <= rem;
      var tg := Nom.Tag([COLON], rem);
      assert SplitAtColon(auth).value.1 == (r.value.1, tg.value.0);
    }
  }

  /** On success the userinfo is split at its first `:`: the username holds no `:` and the
      password, possibly empty and possibly holding further `:`, is all that follows it. Without
      a `:` the whole userinfo, possibly empty, is the username and there is no password. */
  lemma TokenizeSplitsAtFirstColon(part: seq<byte>, i: nat)
    requires i < |part| && part[i] == AT && NoUserinfoEndBefore(part, i)
    ensures Tokenize(part).Ok?
    ensures var t := Tokenize(part).value.1;
      COLON in part[..i] ==>
        t.password.Some? && COLON !in t.username && t.username + [COLON] + t.password.value == part[..i]
    ensures var t := Tokenize(part).value.1;
      COLON !in part[..i] ==> t.password.None? && t.username == part[..i]
  {
    TokenizeAtFirstAt(part, i);
    assert Nom.TakeTill(part, IsUserinfoEnd).value.1 == part[..i];
    SplitAtFirstColon(part[..i]);
  }

  /** Neither the username nor the password ever holds a `.` or an `@`. */
  lemma TokenizedFieldsHaveNoUserinfoEnd(part: seq<byte>)
    requires Tokenize(part).Ok?
    ensures var t := Tokenize(part).value.1;
      DOT !in t.username && AT !in t.username &&
      (t.password.Some? ==> DOT !in t.password.value && AT !in t.password.value)
  {
    var auth := Nom.TakeTill(part, IsUserinfoEnd).value.1;
    var t := Tokenize(part).value.1;
    assert Userinfo(t) == auth;
    assert forall k :: 0 <= k < |t.username| ==> t.username[k] == auth[k];
    if t.password.Some? {
      var n := |t.username| + 1;
      assert forall k :: 0 <= k < |t.password.value| ==> t.password.value[k] == auth[n + k];
    }
  }

  /** Printing a tokenizer's fields as `username[:password]@` in front of any remainder and
      tokenizing that gives the same fields and the remainder back, provided the username holds
      none of `.`, `@`, `:` and the password none of `.`, `@`. */
  lemma TokenizeUserinfo(t: Tokenizer, rem: seq<byte>)
    requires DOT !in t.username && AT !in t.username && COLON !in t.username
    requires t.password.Some? ==> DOT !in t.password.value && AT !in t.password.value
    ensures Tokenize(Userinfo(t) + [AT] + rem) == Ok((rem, t))
  {
    var part := Userinfo(t) + [AT] + rem;
    var i := |Userinfo(t)|;
    assert part[..i] == Userinfo(t) && part[i + 1..] == rem;
    forall j | 0 <= j < i ensures !IsUserinfoEnd(part[j]) {
      if j < |t.username| {
        assert part[j] == t.username[j];
      } else if j > |t.username| {
        assert part[j] == t.password.value[j - |t.username| - 1];
      }
    }
    TokenizeAtFirstAt(part, i);
    TokenizeSplitsAtFirstColon(part, i);
    var r := Tokenize(part).value.1;
    if t.password.Some? {
      assert COLON in part[..i] by { assert part[..i][|t.username|] == COLON; }
      var u := r.username;
      assert r.password.value == part[..i][|u| + 1..] == t.password.value;
    } else {
      assert part[..i] == t.username;
    }
  }

  /** Converting the tokenizer built from the UTF-8 encodings of a username and an optional
      password gives exactly the authority built from that username and password. */
  lemma ParseFromPair(username: string, password: Option<string>)
    ensures Parse(TokenizerFromPair((Utf8.Encode(username), MapOption(password, Utf8.Encode))))
         == Ok(AuthFromPair((username, password)))
  {
    Utf8.DecodeEncoded(username);
    if password.Some? {
      Utf8.DecodeEncoded(password.value);
    }
  }

  /** The userinfo text of an authority: `username[:password]`. */
  function UserinfoText(a: Auth): string {
    a.username + (if a.password.Some? then ":" + a.password.value else "")
  }

  /** The tokenizer whose fields are the UTF-8 bytes of an authority's fields. */
  function EncodedTokenizer(a: Auth): Tokenizer {
    TokenizerFromPair((Utf8.Encode(a.username), MapOption(a.password, Utf8.Encode)))
  }

  lemma EncodeUserinfoText(a: Auth, host: string)
    ensures Utf8.Encode(UserinfoText(a) + "@" + host) == Userinfo(EncodedTokenizer(a)) + [AT] + Utf8.Encode(host)
  {
    assert Utf8.Encode(":") == [COLON] && Utf8.Encode("@") == [AT];
    var tail: string := if a.password.Some? then ":" + a.password.value else "";
    Utf8.EncodeConcat(a.username, tail);
    if a.password.Some? {
      Utf8.EncodeConcat(":", a.password.value);
    }
    assert UserinfoText(a) + "@" + host == UserinfoText(a) + ("@" + host);
    Utf8.EncodeConcat(UserinfoText(a), "@" + host);
    Utf8.EncodeConcat("@", host);
  }

  /** Printing an authority as `username[:password]@host` and tokenizing and converting its bytes
      gives the authority back and leaves exactly the bytes of `host`, provided the username holds
      none of `.`, `@`, `:` and the password none of `.`, `@`. */
  lemma AuthRoundTrip(a: Auth, host: string)
    requires '.' !in a.username && '@' !in a.username && ':' !in a.username
    requires a.password.Some? ==> '.' !in a.password.value && '@' !in a.password.value
    ensures Tokenize(Utf8.Encode(UserinfoText(a) + "@" + host)).Ok?
    ensures var (rem, t) := Tokenize(Utf8.Encode(UserinfoText(a) + "@" + host)).value;
      rem == Utf8.Encode(host) && Parse(t) == Ok(a)
  {
    var t := EncodedTokenizer(a);
    if a.password.Some? {
      Utf8.AsciiInEncoding(a.password.value, DOT);
      Utf8.AsciiInEncoding(a.password.value, AT);
    }
    Utf8.AsciiInEncoding(a.username, DOT);
    Utf8.AsciiInEncoding(a.username, AT);
    Utf8.AsciiInEncoding(a.username, COLON);
    EncodeUserinfoText(a, host);
    TokenizeUserinfo(t, Utf8.Encode(host));
    ParseFromPair(a.username, a.password);
  }

  /** `user@host`: no password. */
  lemma UserAtHostExample()
    ensures Tokenize(Utf8.Encode("user@host")).Ok?
    ensures Parse(Tokenize(Utf8.Encode("user@host")).value.1) == Ok(Auth("user", None))
  {
    var a := Auth("user", None);
    assert '.' !in "user" && '@' !in "user" && ':' !in "user";
    assert UserinfoText(a) == "user";
    assert UserinfoText(a) + "@" + "host" == "user@host";
    AuthRoundTrip(a, "host");
  }

  /** `user:pass@host`: a password. */
  lemma UserPassAtHostExample()
    ensures Tokenize(Utf8.Encode("user:pass@host")).Ok?
    ensures Parse(Tokenize(Utf8.Encode("user:pass@host")).value.1) == Ok(Auth("user", Some("pass")))
  {
    var a := Auth("user", Some("pass"));
    assert '.' !in "pass" && '@' !in "pass";
    assert UserinfoText(a) == "user:pass";
    assert UserinfoText(a) + "@" + "host" == "user:pass@host";
    AuthRoundTrip(a, "host");
  }

  /** `user:@host`: an empty password, which is not the same as none. */
  lemma EmptyPasswordExample()
    ensures Tokenize(Utf8.Encode("user:@host")).Ok?
    ensures Parse(Tokenize(Utf8.Encode("user:@host")).value.1) == Ok(Auth("user", Some("")))
  {
    var a := Auth("user", Some(""));
    assert '.' !in "user" && '@' !in "user" && ':' !in "user";
    assert UserinfoText(a) == "user:";
    assert UserinfoText(a) + "@" + "host" == "user:@host";
    AuthRoundTrip(a, "host");
  }

  /** A `.` in the text before any `@` makes the authority grammar a recoverable mismatch, so that
      `host.domain` is no authority and `john.doe@host` is not one either, though RFC 3261 allows
      `.` in the user part. */
  lemma DotBeforeAt(user: string, rest: string)
    requires '@' !in user
    ensures Tokenize(Utf8.Encode(user + "." + rest)).Err?
    ensures Tokenize(Utf8.Encode(user + "." + rest)).error.Error?
  {
    var part := Utf8.Encode(user + "." + rest);
    assert Utf8.Encode(".") == [DOT];
    assert user + "." + rest == user + ("." + rest);
    Utf8.EncodeConcat(user, "." + rest);
    Utf8.EncodeConcat(".", rest);
    Utf8.AsciiInEncoding(user, AT);
    var j := |Utf8.Encode(user)|;
    assert part[j] == DOT && part[..j] == Utf8.Encode(user);
    TokenizeMismatch(part);
  }

  /** `host.domain`: no authority. */
  lemma HostDomainExample()
    ensures Tokenize(Utf8.Encode("host.domain")).Err?
  {
    assert "host" + "." + "domain" == "host.domain";
    DotBeforeAt("host", "domain");
  }

  /** `john.doe@host`: no authority either, though RFC 3261 allows `.` in the user part. */
  lemma DottedUserExample()
    ensures Tokenize(Utf8.Encode("john.doe@host")).Err?
  {
    assert "john" + "." + "doe@host" == "john.doe@host";
    DotBeforeAt("john", "doe@host");
  }
}
