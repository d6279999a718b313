/** The session record and its fixed binary layout (Session.MarshalBinary and
    Session.UnmarshalBinary in cookiesession.go). */
module SessionCodec {
  import opened Wrappers
  import opened Bytes
  import opened Clock
  import opened Uuid

  /** 8 bytes of timestamp, then SID, UID and RealUID of 16 bytes each. */
  const HeaderSize: nat := 8 + 16 + 16 + 16

  /** A session: whether it came from a trusted cookie, the time of its last
      save, three identifiers and opaque application state. A nil and an empty
      State are both the empty sequence. */
  datatype Session = Session(
    valid: bool,
    time: Instant,
    sid: UUID,
    uid: UUID,
    realUid: UUID,
    state: Bytes)

  /** The zero Session value. */
  const Zero: Session := Session(false, ZeroTime, Nil, Nil, Nil, [])

  datatype DecodeError = TooShort | BadIdentifier(cause: ParseError)

  /** The receiver after UnmarshalBinary, and the error it returned. */
  datatype Unmarshalled = Unmarshalled(receiver: Session, err: Option<DecodeError>)

  /** The layout: big-endian Unix seconds, the three identifiers, then State
      with no length prefix. Valid and sub-second time are not written. */
  function MarshalBinary(s: Session): (buf: Bytes)
    ensures |buf| == HeaderSize + |s.state|
    ensures Uint64(buf) == AsUint64(UnixSeconds(s.time))
    ensures buf[8..24] == s.sid
    ensures buf[24..40] == s.uid
    ensures buf[40..56] == s.realUid
    ensures buf[56..] == s.state
  {
    var stamp := PutUint64(AsUint64(UnixSeconds(s.time)));
    var buf := stamp + s.sid + s.uid + s.realUid + s.state;
    assert buf[..8] == stamp && stamp[..8] == stamp;
    Uint64RoundTrip(AsUint64(UnixSeconds(s.time)), stamp);
    buf
  }

  /** Session.UnmarshalBinary on receiver recv. Every error leaves the
      receiver as it was; on success every field is overwritten. */
  function UnmarshalBinary(recv: Session, data: Bytes, parse: Parser): (r: Unmarshalled)
    ensures |data| < HeaderSize ==> r.err == Some(TooShort)
    ensures r.err.Some? ==> r.receiver == recv
    ensures r.err.None? ==>
      && |data| >= HeaderSize
      && r.receiver.valid
      && r.receiver.time % NanosPerSecond == 0
      && r.receiver.time == FromUnix(AsInt64(Uint64(data)))
      && AsUint64(UnixSeconds(r.receiver.time)) == Uint64(data)
      && r.receiver.state == data[HeaderSize..]
    ensures |data| >= HeaderSize ==>
      (r.err.None? <==> parse(data[8..24]).Ok? && parse(data[24..40]).Ok? && parse(data[40..56]).Ok?)
    ensures |data| >= HeaderSize && r.err.Some? ==> r.err.value.BadIdentifier?
    ensures |data| >= HeaderSize && r.err.None? ==>
      && r.receiver.sid == parse(data[8..24]).value
      && r.receiver.uid == parse(data[24..40]).value
      && r.receiver.realUid == parse(data[40..56]).value
    ensures Faithful(parse) ==> (r.err.None? <==> |data| >= HeaderSize)
    ensures Faithful(parse) && r.err.None? ==>
      && r.receiver.sid == data[8..24]
      && r.receiver.uid == data[24..40]
      && r.receiver.realUid == data[40..56]
  {
    if |data| < HeaderSize then Unmarshalled(recv, Some(TooShort))
    else
      match parse(data[8..24])
      case Err(e) => Unmarshalled(recv, Some(BadIdentifier(e)))
      case Ok(sid) =>
        match parse(data[24..40])
        case Err(e) => Unmarshalled(recv, Some(BadIdentifier(e)))
        case Ok(uid) =>
          match parse(data[40..56])
          case Err(e) => Unmarshalled(recv, Some(BadIdentifier(e)))
          case Ok(realUid) =>
            var seconds := AsInt64(Uint64(data));
            Int64Reinterpretation(seconds, Uint64(data));
            Unmarshalled(Session(true, FromUnix(seconds), sid, uid, realUid, data[HeaderSize..]), None)
  }

  /** Decoding an encoding reproduces the session at second precision, with
      Valid set, whatever the receiver held before. */
  lemma UnmarshalMarshal(recv: Session, s: Session, parse: Parser)
    requires Faithful(parse)
    requires IsInt64(UnixSeconds(s.time))
    ensures UnmarshalBinary(recv, MarshalBinary(s), parse)
         == Unmarshalled(Session(true, Truncate(s.time), s.sid, s.uid, s.realUid, s.state), None)
  {
    var buf := MarshalBinary(s);
    var r := UnmarshalBinary(recv, buf, parse);
    var secs := UnixSeconds(s.time);
    Int64Reinterpretation(secs, Uint64(buf));
    assert AsInt64(Uint64(buf)) == secs;
    assert r.receiver.time == FromUnix(secs);
  }

  /** Encoding a decoded session reproduces the decoded bytes exactly. */
  lemma MarshalUnmarshal(recv: Session, data: Bytes, parse: Parser)
    requires Faithful(parse)
    requires UnmarshalBinary(recv, data, parse).err.None?
    ensures MarshalBinary(UnmarshalBinary(recv, data, parse).receiver) == data
  {
    var s := UnmarshalBinary(recv, data, parse).receiver;
    var buf := MarshalBinary(s);
    Uint64RoundTrip(Uint64(data), data);
    Uint64RoundTrip(Uint64(buf), buf);
    assert buf[..8] == data[..8];
    assert buf == buf[..8] + buf[8..24] + buf[24..40] + buf[40..56] + buf[56..];
    assert data == data[..8] + data[8..24] + data[24..40] + data[40..56] + data[56..];
  }
}
