/** The two `fmt` verbs the error messages use: `%d` on an int and `%q` on a
    string (Go's double-quoted, backslash-escaped string literal). */
module GoFormat {
  import opened Whitespace

  function DigitByte(d: nat): Byte
    requires d < 10
  {
    "0123456789"[d]
  }

  /** The decimal digits of `n`, most significant first, without leading zeros. */
  function Digits(n: nat): (r: Bytes)
    ensures |r| >= 1
    decreases n
  {
    if n < 10 then [DigitByte(n)] else Digits(n / 10) + [DigitByte(n % 10)]
  }

  /** `%d`: a minus sign for negative values, then the digits. */
  function Decimal(n: int): Bytes
  {
    if n < 0 then ['-'] + Digits(-n) else Digits(n)
  }

  function HexByte(d: nat): Byte
    requires d < 16
  {
    "0123456789abcdef"[d]
  }

  /** How `%q` writes one byte: the named escapes, backslash and quote escaped,
      other ASCII control bytes as `\x` and two lower-case hex digits, every
      other byte as itself. */
  function EscapeByte(b: Byte): Bytes
  {
    if b == '\U{7}' then "\\a"
    else if b == '\U{8}' then "\\b"
    else if b == '\U{C}' then "\\f"
    else if b == '\n' then "\\n"
    else if b == '\r' then "\\r"
    else if b == '\t' then "\\t"
    else if b == '\U{B}' then "\\v"
    else if b == '\\' then "\\\\"
    else if b == '"' then "\\\""
    else if b as int < 0x20 || b as int == 0x7f then
      "\\x" + [HexByte(b as int / 16), HexByte(b as int % 16)]
    else [b]
  }

  function Escape(s: Bytes): Bytes
  {
    if s == [] then [] else EscapeByte(s[0]) + Escape(s[1..])
  }

  /** `%q` on a string. */
  function Quote(s: Bytes): Bytes
  {
    "\"" + Escape(s) + "\""
  }
}
