/** The error values the core can return, with the text Go's `Error()` gives them. */
module Errors {
  import opened GoTypes

  /** The outcome of an operation that either produces a value or fails. */
  datatype Result<+T> = Ok(value: T) | Err(error: Error)

  /** A command sent to the backing key/value-with-ranges store. */
  datatype Command = ZAdd | Set | Get | ZRangeByScore

  datatype Error =
    | SliceEmpty                        // utils.GetMaxValue on an empty slice
    | DataNil                           // api.DataToProto(nil)
    | ProtoNil                          // api.ProtoToData(nil)
    | InvalidLength(len: nat)              // uuid.Parse: not 32, 36, 38 or 45 bytes long
    | InvalidUrnPrefix(prefix: seq<byte>)  // uuid.Parse: 45 bytes not starting with "urn:uuid:"
    | InvalidFormat                        // uuid.Parse: a misplaced dash or a non-hex digit
    | Undecodable                          // proto.Unmarshal rejected the stored bytes
    | Backend(cmd: Command)                // the store failed to execute a command
    | RepoNotFound                         // repository.ErrNotFound
    | RepoCorrupt                          // repository.ErrCorrupt
    | ServiceNotFound                      // service.ErrNotFound
    | ServiceCorrupt                       // service.ErrCorrupt
  {
    /** The errors `uuid.Parse` returns. */
    predicate FromParse() {
      InvalidLength? || InvalidUrnPrefix? || InvalidFormat?
    }

    /** The error text; Undecodable and Backend stand for texts produced by foreign code. */
    function Message(): (text: string) {
      match this
      case SliceEmpty => "slice is empty"
      case DataNil => "data is nil"
      case ProtoNil => "pb.Data is nil"
      case InvalidLength(n) => "invalid UUID length: " + Decimal(n)
      case InvalidUrnPrefix(p) => "invalid urn prefix: \"" + Latin1(p) + "\""
      case InvalidFormat => "invalid UUID format"
      case Undecodable => "proto: cannot parse invalid wire-format data"
      case Backend(_) => "redis: command failed"
      case RepoNotFound => "not found"
      case RepoCorrupt => "corrupted data"
      case ServiceNotFound => "not found"
      case ServiceCorrupt => "corrupted data"
    }
  }

  /** Each byte shown as the character with that code. */
  function Latin1(bs: seq<byte>): (s: string)
    ensures |s| == |bs| && forall i :: 0 <= i < |bs| ==> s[i] as int == bs[i]
  {
    seq(|bs|, i requires 0 <= i < |bs| => bs[i] as char)
  }

  function Digit(d: nat): (c: char)
    requires d < 10
    ensures '0' <= c <= '9' && c as int - '0' as int == d
  {
    "0123456789"[d]
  }

  /** The number a string of decimal digits denotes, most significant digit first. */
  function DigitsValue(s: string): (n: nat)
    requires forall i :: 0 <= i < |s| ==> '0' <= s[i] <= '9'
  {
    if |s| == 0 then 0 else DigitsValue(s[..|s| - 1]) * 10 + (s[|s| - 1] as int - '0' as int)
  }

  /** The decimal rendering of a natural number, as `%d` prints it: digits without a leading zero that denote n. */
  function Decimal(n: nat): (s: string)
    ensures |s| > 0
    ensures forall i :: 0 <= i < |s| ==> '0' <= s[i] <= '9'
    ensures DigitsValue(s) == n
    ensures |s| > 1 ==> s[0] != '0'
  {
    if n < 10 then [Digit(n)]
    else
      var init := Decimal(n / 10);
      var s := init + [Digit(n % 10)];
      assert s[..|s| - 1] == init;
      s
  }
}
