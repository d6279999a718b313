/** 128-bit identifiers (github.com/satori/go.uuid) as the cookie store uses them. */
module Uuid {
  import opened Wrappers
  import opened Bytes

  const Size: nat := 16

  /** uuid.UUID: an array of sixteen bytes. */
  type UUID = b: Bytes | |b| == 16 witness [0, 0, 0, 0, 0, 0, 0, 0, 0, 0, 0, 0, 0, 0, 0, 0]

  /** uuid.Nil, the all-zero identifier. */
  const Nil: UUID := [0, 0, 0, 0, 0, 0, 0, 0, 0, 0, 0, 0, 0, 0, 0, 0]

  datatype ParseError = WrongLength(got: nat)

  /** The shape of uuid.FromBytes. */
  type Parser = Bytes -> Result<UUID, ParseError>

  /** A parser that accepts every sixteen-byte window as the identifier it spells. */
  ghost predicate Faithful(parse: Parser) {
    forall u: UUID :: parse(u) == Ok(u)
  }

  /** uuid.FromBytes as the library defines it: any sixteen bytes are an
      identifier, any other length is an error. */
  function FromBytes(b: Bytes): (r: Result<UUID, ParseError>)
    ensures r.Ok? <==> |b| == Size
    ensures r.Ok? ==> r.value == b
  {
    if |b| == Size then Ok(b) else Err(WrongLength(|b|))
  }

  lemma FromBytesIsFaithful()
    ensures Faithful(FromBytes)
  {
  }
}
