/** The cookie store (Store, New, Get, Save and Clear in cookiesession.go),
    with the request reduced to the value of the store's cookie, the clock to
    an instant argument, and random generation to optional arguments that are
    None when the generator failed. */
module CookieStore {
  import opened Wrappers
  import opened Bytes
  import opened Clock
  import opened Uuid
  import opened Primitives
  import opened SessionCodec

  /** Store configuration and the key derived from Secret. */
  datatype Store = Store(
    name: string,
    secret: string,
    httpOnly: bool,
    secure: bool,
    ttl: Duration,
    key: Key)

  /** The attributes of an http.Cookie the store sets. */
  datatype Cookie = Cookie(
    name: string,
    value: string,
    path: string,
    expires: Instant,
    maxAge: int,
    httpOnly: bool,
    secure: bool)

  /** The collaborators Get and Save call. */
  datatype Env = Env(b64: Base64, box: SecretBox, parse: Parser)

  /** The laws of the collaborators: base64 and secretbox invert themselves and
      uuid.FromBytes accepts sixteen bytes. */
  ghost predicate Sound(env: Env) {
    DecodesEncoding(env.b64) && SealOpens(env.box) && Faithful(env.parse)
  }

  /** Why a call did not return: the Go runtime panics. */
  datatype Panic = SliceBoundsOutOfRange | IdentifierGenerationFailed

  datatype GetOutcome = Returned(session: Session) | Panicked(cause: Panic)

  datatype SaveOutcome = Saved(session: Session, cookie: Cookie) | NonceUnavailable

  /** The anonymous session every rejection returns: the zero Session with a
      freshSid SID. */
  predicate IsAnonymous(s: Session) {
    s == Zero.(sid := s.sid)
  }

  /** The wire format: value is the base64 of a nonce followed by a box that
      opens under the store key and that nonce to plain. */
  ghost predicate Opens(st: Store, env: Env, value: string, plain: Bytes) {
    exists n: Nonce, sealed: Bytes ::
      env.b64.decode(value) == Some(n + sealed) && env.box.open(st.key, n, sealed) == Some(plain)
  }

  /** New: the key is derived from the secret; HttpOnly and Secure start false. */
  function New(name: string, secret: string, ttl: Duration, derive: Kdf): (st: Store)
    ensures st.key == derive(secret)
    ensures st.name == name && st.secret == secret && st.ttl == ttl
    ensures !st.httpOnly && !st.secure
  {
    Store(name, secret, false, false, ttl, derive(secret))
  }

  /** `Session{SID: uuid.Must(uuid.NewV4())}`: the anonymous session, or a panic
      when no fresh identifier could be generated. */
  function Reject(freshSid: Option<UUID>): (r: GetOutcome)
    ensures r.Returned? <==> freshSid.Some?
    ensures r.Returned? ==> IsAnonymous(r.session) && r.session.sid == freshSid.value && !r.session.valid
  {
    match freshSid
    case Some(sid) => Returned(Zero.(sid := sid))
    case None => Panicked(IdentifierGenerationFailed)
  }

  /** Get from the split of the decoded cookie onwards: open the box, decode
      the plaintext into a zero Session, and check the age. */
  function Unseal(st: Store, env: Env, encrypted: Bytes, now: Instant, freshSid: Option<UUID>): (r: GetOutcome)
    requires |encrypted| >= NonceSize
    ensures r != Panicked(SliceBoundsOutOfRange)
    ensures r.Returned? && r.session.valid ==>
      && Sub(now, r.session.time) <= st.ttl
      && env.box.open(st.key, encrypted[..NonceSize], encrypted[NonceSize..]).Some?
      && UnmarshalBinary(Zero, env.box.open(st.key, encrypted[..NonceSize], encrypted[NonceSize..]).value, env.parse)
         == Unmarshalled(r.session, None)
  {
    var nonce: Nonce := encrypted[..NonceSize];
    match env.box.open(st.key, nonce, encrypted[NonceSize..])
    case None => Reject(freshSid)
    case Some(buf) =>
      var u := UnmarshalBinary(Zero, buf, env.parse);
      if u.err.Some? then Reject(freshSid)
      else if Sub(now, u.receiver.time) > st.ttl then Reject(freshSid)
      else Returned(u.receiver)
  }

  /** Store.Get, given the value of the request's cookie named st.name (None
      when there is none). A decoded value shorter than a nonce is sliced out of
      range, as the Go code does at lines 107 and 109. */
  function Get(st: Store, env: Env, cookie: Option<string>, now: Instant, freshSid: Option<UUID>): (r: GetOutcome)
    ensures r.Returned? && !r.session.valid ==> IsAnonymous(r.session) && freshSid == Some(r.session.sid)
    ensures r.Returned? && r.session.valid ==>
      && cookie.Some?
      && Sub(now, r.session.time) <= st.ttl
      && exists plain :: Opens(st, env, cookie.value, plain)
                         && UnmarshalBinary(Zero, plain, env.parse) == Unmarshalled(r.session, None)
    ensures r == Panicked(IdentifierGenerationFailed) ==> freshSid.None?
    ensures r == Panicked(SliceBoundsOutOfRange) <==>
      cookie.Some? && env.b64.decode(cookie.value).Some? && |env.b64.decode(cookie.value).value| < NonceSize
  {
    match cookie
    case None => Reject(freshSid)
    case Some(value) =>
      match env.b64.decode(value)
      case None => Reject(freshSid)
      case Some(encrypted) =>
        if |encrypted| < NonceSize then Panicked(SliceBoundsOutOfRange)
        else
          SplitOpens(st, env, value, encrypted);
          Unseal(st, env, encrypted, now, freshSid)
  }

  /** A decoded cookie value is a nonce followed by the sealed box. */
  lemma SplitOpens(st: Store, env: Env, value: string, encrypted: Bytes)
    requires env.b64.decode(value) == Some(encrypted) && |encrypted| >= NonceSize
    ensures var unsealed := env.box.open(st.key, encrypted[..NonceSize], encrypted[NonceSize..]);
            unsealed.Some? ==> Opens(st, env, value, unsealed.value)
  {
    var n: Nonce := encrypted[..NonceSize];
    assert encrypted == n + encrypted[NonceSize..];
  }

  /** Get as evidently intended: a decoded value shorter than a nonce is
      rejected like any other malformed cookie. */
  function GetGuarded(st: Store, env: Env, cookie: Option<string>, now: Instant, freshSid: Option<UUID>): (r: GetOutcome)
    ensures r != Panicked(SliceBoundsOutOfRange)
  {
    match cookie
    case None => Reject(freshSid)
    case Some(value) =>
      match env.b64.decode(value)
      case None => Reject(freshSid)
      case Some(encrypted) =>
        if |encrypted| < NonceSize then Reject(freshSid)
        else Unseal(st, env, encrypted, now, freshSid)
  }

  /** Store.Save with the nonce drawn (None when crypto/rand failed) and the
      clock reading now. On success the session is stamped and the cookie set. */
  function Save(st: Store, env: Env, ss: Session, nonce: Option<Nonce>, now: Instant): (r: SaveOutcome)
    ensures r.NonceUnavailable? <==> nonce.None?
    ensures r.Saved? ==> r.session == ss.(time := now)
    ensures r.Saved? ==>
      && r.cookie.name == st.name
      && r.cookie.path == "/"
      && r.cookie.httpOnly == st.httpOnly
      && r.cookie.secure == st.secure
      && r.cookie.expires - now == st.ttl
      && r.cookie.maxAge == WholeSeconds(st.ttl)
  {
    match nonce
    case None => NonceUnavailable
    case Some(n) =>
      var stamped := ss.(time := now);
      var sealed := n + env.box.seal(st.key, n, MarshalBinary(stamped));
      Saved(stamped, Cookie(
        name := st.name,
        value := env.b64.encode(sealed),
        path := "/",
        expires := now + st.ttl,
        maxAge := WholeSeconds(st.ttl),
        httpOnly := st.httpOnly,
        secure := st.secure))
  }

  /** Store.Clear: a deletion cookie, the same for every session. */
  function Clear(st: Store): (c: Cookie)
    ensures c.name == st.name && c.path == "/"
    ensures c.httpOnly == st.httpOnly && c.secure == st.secure
    ensures c.value == "" && c.expires == UnixEpoch && c.maxAge == -1
  {
    Cookie(
      name := st.name,
      value := "",
      path := "/",
      expires := UnixEpoch,
      maxAge := -1,
      httpOnly := st.httpOnly,
      secure := st.secure)
  }

  /** Cookies with the same name and path, which a client stores under one key
      (section 5.3 of RFC 6265) so that the later replaces the earlier, and
      which also carry the same HttpOnly and Secure flags. */
  predicate SameSlot(a: Cookie, b: Cookie) {
    a.name == b.name && a.path == b.path && a.httpOnly == b.httpOnly && a.secure == b.secure
  }

  /** Every rejection point of Get (no cookie, bad base64, a box that does not
      open, a plaintext that does not decode, an expired timestamp) ends in the
      same anonymous session with the freshly generated SID. */
  lemma RejectionPathsConverge(st: Store, env: Env, value: string, nonce: Nonce, sealed: Bytes,
                               plain: Bytes, now: Instant, freshSid: Option<UUID>)
    ensures Get(st, env, None, now, freshSid) == Reject(freshSid)
    ensures env.b64.decode(value).None? ==> Get(st, env, Some(value), now, freshSid) == Reject(freshSid)
    ensures env.b64.decode(value) == Some(nonce + sealed) && env.box.open(st.key, nonce, sealed).None?
            ==> Get(st, env, Some(value), now, freshSid) == Reject(freshSid)
    ensures env.b64.decode(value) == Some(nonce + sealed) && env.box.open(st.key, nonce, sealed) == Some(plain)
            && UnmarshalBinary(Zero, plain, env.parse).err.Some?
            ==> Get(st, env, Some(value), now, freshSid) == Reject(freshSid)
    ensures env.b64.decode(value) == Some(nonce + sealed) && env.box.open(st.key, nonce, sealed) == Some(plain)
            && UnmarshalBinary(Zero, plain, env.parse).err.None?
            && Sub(now, UnmarshalBinary(Zero, plain, env.parse).receiver.time) > st.ttl
            ==> Get(st, env, Some(value), now, freshSid) == Reject(freshSid)
  {
    SplitNonce(nonce, sealed);
  }

  lemma SplitNonce(nonce: Nonce, sealed: Bytes)
    ensures |nonce + sealed| >= NonceSize
    ensures (nonce + sealed)[..NonceSize] == nonce && (nonce + sealed)[NonceSize..] == sealed
  {
  }

  /** Expiry is strict: a cookie that opens and decodes is accepted exactly when
      the time since its timestamp is at most the TTL, equality included. */
  lemma ExpiryIsStrict(st: Store, env: Env, value: string, nonce: Nonce, sealed: Bytes,
                       plain: Bytes, now: Instant, freshSid: Option<UUID>)
    requires env.b64.decode(value) == Some(nonce + sealed)
    requires env.box.open(st.key, nonce, sealed) == Some(plain)
    requires UnmarshalBinary(Zero, plain, env.parse).err.None?
    ensures var s := UnmarshalBinary(Zero, plain, env.parse).receiver;
            Get(st, env, Some(value), now, freshSid) == Returned(s) <==> Sub(now, s.time) <= st.ttl
  {
    SplitNonce(nonce, sealed);
  }

  /** A session Get trusts is never older than the TTL (the one exception is a
      TTL equal to the largest Duration, which the saturating Sub cannot exceed). */
  lemma NeverTrustedPastTtl(st: Store, env: Env, cookie: Option<string>, now: Instant, freshSid: Option<UUID>)
    ensures var r := Get(st, env, cookie, now, freshSid);
            r.Returned? && r.session.valid ==> now - r.session.time <= st.ttl || st.ttl == MaxDuration
  {
  }

  /** The decoded value of a saved cookie starts with the nonce. */
  lemma SavedCookiePrefix(st: Store, env: Env, ss: Session, nonce: Nonce, now: Instant)
    requires DecodesEncoding(env.b64)
    ensures Save(st, env, ss, Some(nonce), now).Saved?
    ensures var r := Save(st, env, ss, Some(nonce), now);
            var d := env.b64.decode(r.cookie.value);
            d.Some? && |d.value| >= NonceSize && d.value[..NonceSize] == nonce
  {
    var r := Save(st, env, ss, Some(nonce), now);
    var sealed := env.box.seal(st.key, nonce, MarshalBinary(r.session));
    assert env.b64.decode(env.b64.encode(nonce + sealed)) == Some(nonce + sealed);
    SplitNonce(nonce, sealed);
  }

  /** The decoded value of a saved cookie starts with the nonce, and the rest
      opens under the store key to the encoding of the stamped session. */
  lemma SavedCookieLayout(st: Store, env: Env, ss: Session, nonce: Nonce, now: Instant)
    requires DecodesEncoding(env.b64) && SealOpens(env.box)
    ensures Save(st, env, ss, Some(nonce), now).Saved?
    ensures var r := Save(st, env, ss, Some(nonce), now);
            var d := env.b64.decode(r.cookie.value);
            && d.Some?
            && |d.value| >= NonceSize
            && d.value[..NonceSize] == nonce
            && env.box.open(st.key, nonce, d.value[NonceSize..]) == Some(MarshalBinary(r.session))
  {
    var r := Save(st, env, ss, Some(nonce), now);
    var sealed := env.box.seal(st.key, nonce, MarshalBinary(r.session));
    assert env.b64.decode(env.b64.encode(nonce + sealed)) == Some(nonce + sealed);
    SplitNonce(nonce, sealed);
  }

  /** Two saves with different nonces give different cookie values. */
  lemma DistinctNoncesDistinctValues(st: Store, env: Env, ss: Session, n1: Nonce, n2: Nonce, now1: Instant, now2: Instant)
    requires DecodesEncoding(env.b64)
    requires n1 != n2
    ensures Save(st, env, ss, Some(n1), now1).cookie.value != Save(st, env, ss, Some(n2), now2).cookie.value
  {
    SavedCookiePrefix(st, env, ss, n1, now1);
    SavedCookiePrefix(st, env, ss, n2, now2);
  }

  /** The end-to-end law: Get of a cookie made by Save returns the saved session,
      with Valid set and its time cut to whole seconds, exactly when the time
      since that whole second is at most the TTL; otherwise it rejects. */
  lemma SaveThenGet(st: Store, env: Env, ss: Session, nonce: Nonce, saveTime: Instant,
                    readTime: Instant, freshSid: Option<UUID>)
    requires Sound(env)
    requires IsInt64(UnixSeconds(saveTime))
    ensures Save(st, env, ss, Some(nonce), saveTime).Saved?
    ensures Get(st, env, Some(Save(st, env, ss, Some(nonce), saveTime).cookie.value), readTime, freshSid)
         == if Sub(readTime, Truncate(saveTime)) <= st.ttl
            then Returned(ss.(valid := true, time := Truncate(saveTime)))
            else Reject(freshSid)
  {
    var r := Save(st, env, ss, Some(nonce), saveTime);
    var plain := MarshalBinary(r.session);
    var sealed := env.box.seal(st.key, nonce, plain);
    assert env.b64.decode(r.cookie.value) == Some(nonce + sealed);
    assert env.box.open(st.key, nonce, sealed) == Some(plain);
    UnmarshalMarshal(Zero, r.session, env.parse);
    ExpiryIsStrict(st, env, r.cookie.value, nonce, sealed, plain, readTime, freshSid);
    RejectionPathsConverge(st, env, r.cookie.value, nonce, sealed, plain, readTime, freshSid);
  }

  /** The whole-second timestamp makes Get measure age from the start of the
      second of the save: a cookie saved half a second into the epoch with a
      one-second TTL is rejected 0.9 seconds later, within the TTL of the save. */
  lemma SubSecondSaveShortensTtl(st: Store, env: Env, ss: Session, nonce: Nonce, freshSid: Option<UUID>)
    requires Sound(env)
    requires st.ttl == NanosPerSecond
    ensures Get(st, env, Some(Save(st, env, ss, Some(nonce), 500_000_000).cookie.value),
                1_400_000_000, freshSid) == Reject(freshSid)
  {
    SaveThenGet(st, env, ss, nonce, 500_000_000, 1_400_000_000, freshSid);
  }

  /** Stores built by New from the same secret derive the same key, so one
      reads what the other saved, under its own TTL. */
  lemma SameSecretInteroperates(name: string, secret: string, ttl1: Duration, ttl2: Duration, derive: Kdf,
                                env: Env, ss: Session, nonce: Nonce, saveTime: Instant,
                                readTime: Instant, freshSid: Option<UUID>)
    requires Sound(env)
    requires IsInt64(UnixSeconds(saveTime))
    requires Sub(readTime, Truncate(saveTime)) <= ttl2
    ensures var writer := New(name, secret, ttl1, derive);
            var reader := New(name, secret, ttl2, derive);
            Get(reader, env, Some(Save(writer, env, ss, Some(nonce), saveTime).cookie.value), readTime, freshSid)
              == Returned(ss.(valid := true, time := Truncate(saveTime)))
  {
    var writer := New(name, secret, ttl1, derive);
    var reader := New(name, secret, ttl2, derive);
    assert Save(writer, env, ss, Some(nonce), saveTime).cookie.value
        == Save(reader, env, ss, Some(nonce), saveTime).cookie.value;
    SaveThenGet(reader, env, ss, nonce, saveTime, readTime, freshSid);
  }

  /** Clear addresses the cookie Save sets, and a cookie saved with a TTL of a
      second or more is not itself a deletion. */
  lemma ClearTargetsSavedCookie(st: Store, env: Env, ss: Session, nonce: Nonce, now: Instant)
    ensures Save(st, env, ss, Some(nonce), now).Saved?
    ensures SameSlot(Save(st, env, ss, Some(nonce), now).cookie, Clear(st))
    ensures st.ttl >= NanosPerSecond ==> Save(st, env, ss, Some(nonce), now).cookie.maxAge > 0
  {
  }

  /** As written, Get panics on a cookie with an empty value, as a client
      sending `Cookie: <name>=` presents: standard base64 decodes the empty
      string to no bytes, which cannot be sliced at the nonce size. The empty
      value is the one Clear sets, though a conforming client deletes that
      cookie. The guarded Get rejects it instead. */
  lemma EmptyCookiePanics(st: Store, env: Env, now: Instant, freshSid: Option<UUID>)
    requires env.b64.decode("") == Some([])
    ensures Get(st, env, Some(Clear(st).value), now, freshSid) == Panicked(SliceBoundsOutOfRange)
    ensures GetGuarded(st, env, Some(Clear(st).value), now, freshSid) == Reject(freshSid)
  {
  }

  /** The guarded Get differs from Get only where Get panics on a short value. */
  lemma GuardedAgreesWithGet(st: Store, env: Env, cookie: Option<string>, now: Instant, freshSid: Option<UUID>)
    ensures Get(st, env, cookie, now, freshSid) != Panicked(SliceBoundsOutOfRange)
            ==> GetGuarded(st, env, cookie, now, freshSid) == Get(st, env, cookie, now, freshSid)
    ensures Get(st, env, cookie, now, freshSid) == Panicked(SliceBoundsOutOfRange)
            ==> GetGuarded(st, env, cookie, now, freshSid) == Reject(freshSid)
  {
  }

  /** The end-to-end law holds for the guarded Get as well. */
  lemma SaveThenGetGuarded(st: Store, env: Env, ss: Session, nonce: Nonce, saveTime: Instant,
                           readTime: Instant, freshSid: Option<UUID>)
    requires Sound(env)
    requires IsInt64(UnixSeconds(saveTime))
    ensures GetGuarded(st, env, Some(Save(st, env, ss, Some(nonce), saveTime).cookie.value), readTime, freshSid)
         == if Sub(readTime, Truncate(saveTime)) <= st.ttl
            then Returned(ss.(valid := true, time := Truncate(saveTime)))
            else Reject(freshSid)
  {
    SaveThenGet(st, env, ss, nonce, saveTime, readTime, freshSid);
    var value := Save(st, env, ss, Some(nonce), saveTime).cookie.value;
    GuardedAgreesWithGet(st, env, Some(value), readTime, freshSid);
  }
}
