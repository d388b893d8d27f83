/**
 * Small shared vocabulary: optional values, results with the ways a request
 * can fail, and the decimal rendering of numeric ids (JavaScript's
 * `n.toString()` for a non-negative integer), which the client uses to key
 * columns, sort entries and filters by field id.
 */
module Common {

  datatype Option<+T> = None | Some(value: T) {
    function GetOr(default: T): T {
      match this
      case Some(v) => v
      case None => default
    }
  }

  /** Why a request fails. */
  datatype Error =
    | Thrown(message: string)     // an `Error` thrown by the router code itself
    | NotFound                    // Prisma's "record to update/delete does not exist"
    | ForeignKey                  // the database refuses a row whose reference names no existing row
    | InvalidInput(what: string)  // rejected by the zod input schema
    | RangeError                  // JavaScript's `Array(n)` with a length outside 0 .. 2^32 - 1
    | TypeError                   // JavaScript's property access through `undefined`

  datatype Result<+T> = Ok(value: T) | Err(error: Error)

  /** The character for decimal digit `d`. */
  function DigitChar(d: nat): (c: char)
    requires d < 10
    ensures '0' <= c <= '9'
  {
    (48 + d) as char
  }

  /** `n.toString()` for a non-negative integer: its decimal digits, most significant first. */
  function IdString(n: nat): (s: string)
    ensures 1 <= |s|
    ensures forall i :: 0 <= i < |s| ==> '0' <= s[i] <= '9'
    ensures n < 10 <==> |s| == 1
  {
    if n < 10 then [DigitChar(n)] else IdString(n / 10) + [DigitChar(n % 10)]
  }

  /** Different ids never render to the same string, so string keys identify ids. */
  lemma {:induction false} IdStringInjective(a: nat, b: nat)
    ensures IdString(a) == IdString(b) ==> a == b
  {
    if IdString(a) == IdString(b) {
      if a < 10 {
        assert b < 10;
        assert DigitChar(a) == IdString(a)[0] == IdString(b)[0] == DigitChar(b);
      } else {
        assert 10 <= b;
        var sa, sb := IdString(a), IdString(b);
        assert sa[|sa| - 1] == DigitChar(a % 10);
        assert sb[|sb| - 1] == DigitChar(b % 10);
        assert a % 10 == b % 10;
        assert sa[..|sa| - 1] == IdString(a / 10);
        assert sb[..|sb| - 1] == IdString(b / 10);
        IdStringInjective(a / 10, b / 10);
      }
    }
  }

  /** A string containing a character other than a digit is never an id string. */
  lemma NotAnIdString(s: string, n: nat, k: nat)
    requires k < |s| && !('0' <= s[k] <= '9')
    ensures IdString(n) != s
  {
  }
}
