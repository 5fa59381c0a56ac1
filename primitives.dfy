/** Identities, clock values and the exceptions the core throws. */
module Primitives {

  /** 16^32: a Guid is 128 bits. */
  const GuidBound: nat := 0x1_0000_0000_0000_0000_0000_0000_0000_0000

  /** A `System.Guid`, as the 128-bit number its 32 hexadecimal digits spell
      in the order `ToString()` prints them. */
  type Guid = g: nat | g < GuidBound

  /** A `DateTime` reading, in ticks. The model takes every reading of the
      clock as a parameter. */
  type Instant = int

  /** The exceptions the entities and handlers throw; `paramName` is the
      `nameof(...)` argument the source passes. */
  datatype Exception =
    | ArgumentException(paramName: string)
    | ArgumentNullException(paramName: string)
    | InvalidOperationException(reason: InvalidOperation)

  datatype InvalidOperation =
    | AlreadyMember          // "User is already a member of this chat"
    | NotMember              // "User is not a member of this chat"
    | DuplicateEmail(email: string)
    | UserNotFound(id: Guid)

  function Pow16(k: nat): (r: nat)
    ensures r > 0
  {
    if k == 0 then 1 else 16 * Pow16(k - 1)
  }

  function HexChar(d: nat): (c: char)
    requires d < 16
    ensures ('0' <= c <= '9') || ('a' <= c <= 'f')
  {
    if d < 10 then ('0' as int + d) as char else ('a' as int + d - 10) as char
  }

  /** The low `k` hexadecimal digits of `n`, most significant first, lower case. */
  function HexDigits(n: nat, k: nat): (s: string)
    ensures |s| == k
  {
    if k == 0 then "" else HexDigits(n / 16, k - 1) + [HexChar(n % 16)]
  }

  /** `Guid.ToString()`, format "D": 32 lower-case hex digits in groups 8-4-4-4-12. */
  function GuidToString(g: Guid): (s: string)
    ensures |s| == 36
    ensures s[8] == '-' && s[13] == '-' && s[18] == '-' && s[23] == '-'
  {
    Dashed(HexDigits(g, 32))
  }

  function Dashed(d: string): (s: string)
    requires |d| == 32
    ensures |s| == 36
  {
    d[..8] + "-" + d[8..12] + "-" + d[12..16] + "-" + d[16..20] + "-" + d[20..]
  }

  /** Dropping the four dashes gives the digits back. */
  lemma DashedUndashed(d: string)
    requires |d| == 32
    ensures var s := Dashed(d); d == s[..8] + s[9..13] + s[14..18] + s[19..23] + s[24..]
  {
    var s := Dashed(d);
    assert s[..8] == d[..8];
    assert s[9..13] == d[8..12];
    assert s[14..18] == d[12..16];
    assert s[19..23] == d[16..20];
    assert s[24..] == d[20..];
    assert d == d[..8] + d[8..12] + d[12..16] + d[16..20] + d[20..];
  }

  lemma {:induction false} Pow16Add(a: nat, b: nat)
    ensures Pow16(a + b) == Pow16(a) * Pow16(b)
  {
    if a > 0 {
      Pow16Add(a - 1, b);
    }
  }

  lemma Pow16Is128Bits()
    ensures Pow16(32) == GuidBound
  {
    assert Pow16(4) == 0x1_0000;
    Pow16Add(4, 4);
    Pow16Add(8, 8);
    Pow16Add(16, 16);
  }

  lemma HexCharInjective(a: nat, b: nat)
    requires a < 16 && b < 16
    ensures HexChar(a) == HexChar(b) ==> a == b
  {
  }

  /** Numbers below 16^k have distinct k-digit spellings. */
  lemma {:induction false} HexDigitsInjective(a: nat, b: nat, k: nat)
    requires a < Pow16(k) && b < Pow16(k)
    requires HexDigits(a, k) == HexDigits(b, k)
    ensures a == b
  {
    if k > 0 {
      var da, db := HexDigits(a, k), HexDigits(b, k);
      assert da[k - 1] == db[k - 1];
      HexCharInjective(a % 16, b % 16);
      assert da[..k - 1] == HexDigits(a / 16, k - 1);
      assert db[..k - 1] == HexDigits(b / 16, k - 1);
      HexDigitsInjective(a / 16, b / 16, k - 1);
    }
  }

  /** Distinct Guids print differently, so `ToString()` can stand for the Guid
      (as a group name, or in a response). */
  lemma GuidToStringInjective(a: Guid, b: Guid)
    ensures GuidToString(a) == GuidToString(b) ==> a == b
  {
    if GuidToString(a) == GuidToString(b) {
      DashedUndashed(HexDigits(a, 32));
      DashedUndashed(HexDigits(b, 32));
      Pow16Is128Bits();
      HexDigitsInjective(a, b, 32);
    }
  }
}
