/** Values shared by the whole model: Go's `error`, the `(value, error)` return
    convention, and the fixed-width integer type the agent stores its ASN in. */
module Common {

  /** Go's `uint32`: an unsigned 32-bit integer. */
  newtype uint32 = x: int | 0 <= x < 0x1_0000_0000

  const MaxUint32: uint32 := 0xFFFF_FFFF

  datatype Option<+T> = None | Some(value: T)

  datatype Result<+T> = Ok(value: T) | Err(error: Error)

  /** Why strconv rejected a numeral. */
  datatype NumReason = ErrSyntax | ErrRange

  /** The error values the core produces or passes on. */
  datatype Error =
      /** `errors.New(text)`, e.g. "No IP found". */
    | Message(text: string)
      /** `*strconv.NumError` for the function `fn` applied to the text `num`. */
    | NumError(fn: string, num: string, reason: NumReason)
      /** `*net.ParseError` of type "CIDR address" returned by `net.ParseCIDR`. */
    | CIDRParseError(text: string)
      /** An error returned by a collaborator outside the model (metadata service,
          netlink, the BGP server); only its identity matters here. */
    | External(code: nat)

  /** The elements of a sequence, as a set. */
  function Elems<T>(s: seq<T>): set<T>
  {
    set x | x in s
  }

  /** No element of `s` occurs twice. */
  predicate Distinct<T(==)>(s: seq<T>)
  {
    forall i, j :: 0 <= i < j < |s| ==> s[i] != s[j]
  }
}
