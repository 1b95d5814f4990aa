/**
 * The command-line argument checks: `validate_ip` accepts a dotted-quad
 * address, `validate_port` a decimal port number.
 */
module Validation {
  import opened Strings

  /** One component of a dotted quad: digits only, value at most 255 (leading zeros allowed). */
  predicate IsOctet(x: string) {
    IsDecimal(x) && DecimalValue(x) <= 255
  }

  /** What `validate_ip` accepts: exactly four '.'-separated parts, each an octet. */
  predicate IsDottedQuad(s: string) {
    var a := Split(s, '.');
    |a| == 4 && forall i :: 0 <= i < 4 ==> IsOctet(a[i])
  }

  /** `validate_ip`: split on '.', reject unless there are four parts, then
      reject at the first part that is not a digit string or exceeds 255. */
  method ValidateIp(s: string) returns (ok: bool)
    ensures ok <==> IsDottedQuad(s)
  {
    var a := Split(s, '.');
    if |a| != 4 {
      return false;
    }
    for k := 0 to |a|
      invariant forall j :: 0 <= j < k ==> IsOctet(a[j])
    {
      if !IsDecimal(a[k]) {
        return false;
      }
      var i := DecimalValue(a[k]);
      if i < 0 || i > 255 {
        return false;
      }
    }
    return true;
  }

  /** `validate_port`: a digit string whose value lies in [0, 2^16 - 1];
      whatever it accepts therefore fits a 16-bit port field. */
  function ValidatePort(x: string): (ok: bool)
    ensures ok <==> IsDecimal(x) && DecimalValue(x) < 0x1_0000
  {
    if !IsDecimal(x) then false
    else
      var i := DecimalValue(x);
      if i < 0 || i > 65535 then false else true
  }

  /** Four dot-free strings joined by dots form an accepted address exactly when each is an octet. */
  lemma DottedQuadOfParts(w: string, x: string, y: string, z: string)
    requires '.' !in w && '.' !in x && '.' !in y && '.' !in z
    ensures IsDottedQuad(Join([w, x, y, z], '.'))
        <==> IsOctet(w) && IsOctet(x) && IsOctet(y) && IsOctet(z)
  {
    var p := [w, x, y, z];
    SplitOfJoin(p, '.');
    assert p[0] == w && p[1] == x && p[2] == y && p[3] == z;
  }

  lemma DigitsHaveNoDot(s: string)
    requires AllDigits(s)
    ensures '.' !in s
  {
    assert forall j :: 0 <= j < |s| ==> s[j] != '.';
  }

  /** The printed form `a.b.c.d` of four numbers is accepted exactly when all four are bytes. */
  lemma DottedQuadOfNumbers(a: nat, b: nat, c: nat, d: nat)
    ensures IsDottedQuad(Join([Show(a), Show(b), Show(c), Show(d)], '.'))
        <==> a <= 255 && b <= 255 && c <= 255 && d <= 255
  {
    var w, x, y, z := Show(a), Show(b), Show(c), Show(d);
    DigitsHaveNoDot(w);
    DigitsHaveNoDot(x);
    DigitsHaveNoDot(y);
    DigitsHaveNoDot(z);
    DottedQuadOfParts(w, x, y, z);
  }

  /** A number printed with any count of leading zeros is accepted as a port
      exactly when it is below 2^16. */
  lemma ValidatePortOfNumber(k: nat, n: nat)
    ensures ValidatePort(Zeros(k) + Show(n)) <==> n < 0x1_0000
  {
    LeadingZerosValue(k, Show(n));
  }
}
