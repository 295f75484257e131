/** Digits, and the bytes of characters. */
module Characters {
  predicate IsDigit(c: char) { '0' <= c <= '9' }

  function Digit(d: nat): char
    requires d < 10
  {
    '0' + d as char
  }

  function Decimal(n: nat): (r: string)
    ensures r != []
  {
    if n < 10 then [Digit(n)] else Decimal(n / 10) + [Digit(n % 10)]
  }

  function HexDigit(d: nat): char
    requires d < 16
  {
    if d < 10 then '0' + d as char else 'a' + (d - 10) as char
  }

  predicate IsHex(c: char) { IsDigit(c) || 'a' <= c <= 'f' || 'A' <= c <= 'F' }

  function HexValue(c: char): (r: nat)
    requires IsHex(c)
    ensures r < 16
  {
    if IsDigit(c) then (c - '0') as nat else if c <= 'F' then (c - 'A') as nat + 10 else (c - 'a') as nat + 10
  }

  /** UTF-8 as defined in section 3 of RFC 3629, where code points are below 0x110000. */
  function Utf8(uc: nat): string
    requires uc < 0x20_0000
  {
    if uc < 0x80 then [uc as char]
    else if uc < 0x800 then [(0xC0 + uc / 64) as char, Continuation(uc)]
    else if uc < 0x1_0000 then [(0xE0 + uc / 64 / 64) as char, Continuation(uc / 64), Continuation(uc)]
    else [(0xF0 + uc / 64 / 64 / 64) as char, Continuation(uc / 64 / 64), Continuation(uc / 64), Continuation(uc)]
  }

  function Continuation(uc: nat): char { (0x80 + uc % 64) as char }
}
