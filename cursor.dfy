/**
 * The opaque page cursor: the base64 text of the last primary key seen.
 * A nil cursor (no page to continue from) passes through both directions.
 */
module Cursor {
  import opened Wrappers
  import opened ByteStrings
  import Base64

  /** `utils.Encode`. */
  function Encode(cursor: Option<Bytes>): (r: Option<Bytes>)
    ensures cursor.None? <==> r.None?
    ensures cursor.Some? ==> |r.value| == 4 * ((|cursor.value| + 2) / 3)
    ensures cursor.Some? ==> Base64.WellFormed(r.value)
  {
    match cursor
    case None => None
    case Some(c) =>
      Base64.EncodeLength(c);
      Base64.EncodeWellFormed(c);
      Some(Base64.Encode(c))
  }

  /** `utils.Decode`: a nil cursor is not an error; undecodable text is, and yields no cursor. */
  function Decode(cursor: Option<Bytes>): (r: Result<Option<Bytes>>)
    ensures cursor.None? ==> r == Ok(None)
    ensures cursor.Some? ==> (r.Ok? <==> Base64.WellFormed(Base64.StripNewlines(cursor.value)))
    ensures cursor.Some? && r.Ok? ==> r.value.Some?
  {
    match cursor
    case None => Ok(None)
    case Some(c) =>
      Base64.DecodeSucceedsIff(c);
      match Base64.Decode(c)
      case Err => Err
      case Ok(d) => Ok(Some(d))
  }

  /** Round trip: every cursor the service hands out decodes back to the key it encodes. */
  lemma DecodeEncode(cursor: Option<Bytes>)
    ensures Decode(Encode(cursor)) == Ok(cursor)
  {
    if cursor.Some? {
      Base64.DecodeEncode(cursor.value);
    }
  }
}
