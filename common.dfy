/**
 * Identifiers, responses and constants shared by every router.
 *
 * The document store keys each document by a 12-byte object id. Clients see
 * it as its 24-digit hexadecimal string. A path or body string is accepted as
 * an id when it has exactly 24 hex digits in either case; converting it to an
 * object id and back yields the lower-case spelling, which is the form the
 * store's keys take here.
 */
module Common {

  type Id = string

  /** Wall-clock instant written into `updated_at`; its resolution is irrelevant to the model. */
  type Timestamp = int

  /** The placeholder identity stamped into `submitted_by` by every write. */
  const System: string := "system"

  predicate IsHexDigit(c: char) {
    ('0' <= c <= '9') || ('a' <= c <= 'f') || ('A' <= c <= 'F')
  }

  predicate IsLowerHexDigit(c: char) {
    ('0' <= c <= '9') || ('a' <= c <= 'f')
  }

  /** `ObjectId.is_valid` on a string: exactly 24 hex digits. */
  predicate ValidId(s: string) {
    |s| == 24 && forall i :: 0 <= i < |s| ==> IsHexDigit(s[i])
  }

  /** The canonical spelling `str(ObjectId(s))` of an object id: 24 lower-case hex digits. */
  predicate IsOid(s: string) {
    |s| == 24 && forall i :: 0 <= i < |s| ==> IsLowerHexDigit(s[i])
  }

  function LowerHex(c: char): (d: char)
    requires IsHexDigit(c)
    ensures IsLowerHexDigit(d)
    ensures IsLowerHexDigit(c) ==> d == c
  {
    if 'A' <= c <= 'F' then (c as int - 'A' as int + 'a' as int) as char else c
  }

  /** `str(ObjectId(s))`: the store key that a valid id string denotes. */
  function Oid(s: string): (k: Id)
    requires ValidId(s)
    ensures IsOid(k)
    ensures forall i :: 0 <= i < |s| ==> k[i] == LowerHex(s[i])
  {
    seq(|s|, i requires 0 <= i < |s| => LowerHex(s[i]))
  }

  /** The id returned in a response is accepted back by every path: it is valid and denotes itself. */
  lemma CanonicalIdRoundTrip(k: Id)
    requires IsOid(k)
    ensures ValidId(k) && Oid(k) == k
  {
  }

  /** Two spellings of one id that differ only in letter case denote the same document. */
  lemma OidIgnoresCase(s: string, t: string)
    requires ValidId(s) && ValidId(t)
    requires forall i :: 0 <= i < |s| ==> LowerHex(s[i]) == LowerHex(t[i])
    ensures Oid(s) == Oid(t)
  {
  }

  /**
   * The outcome of one request. `Ok` carries the response body (201/200, or
   * 204 for a delete with `()`); `BadRequest` is an HTTPException with status
   * 400, `NotFound` one with 404; `Unprocessable` is the 422 that request-body
   * validation raises before the handler runs; `Unhandled` is the 500 that an
   * exception escaping the handler produces.
   */
  datatype Response<+T> =
    | Ok(value: T)
    | BadRequest(msg: string)
    | NotFound(msg: string)
    | Unprocessable(msg: string)
    | Unhandled(msg: string)

  /** The answer of a check that either yields a value or rejects its input. */
  datatype Option<+T> = None | Some(value: T)

  /** The exception `ObjectId(s)` raises on a malformed string, which no handler catches. */
  const InvalidObjectId: string := "Internal Server Error"
}
